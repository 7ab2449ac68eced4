/** AllocateMemory and FreeMemory: malloc'd blocks handed out at aligned addresses, with a
    table that remembers where each block really starts. */
module AlignedMemory {
  import opened Wrappers

  // a 32-bit compiler: addresses and sizes are computed modulo 2^32
  const SPACE := 0x1_0000_0000
  type Ulong = x: int | 0 <= x < SPACE

  // twice the alignment must still be an int
  const ALIGN_LIMIT := 0x4000_0000

  const MEM_ARRAY_SIZE := 20

  const ERROR_MEMORY := 1
  const ERROR_MEMARRAY_FULL := 2
  const ERROR_MEMARRAY_NFOUND := 3

  // ---------- aligned addresses ----------

  /** The number of bytes asked of malloc. */
  function Requested(nbytes: Ulong, align: nat): Ulong { (nbytes + 2 * align) % SPACE }

  predicate Multiple(a: Ulong, align: nat)
    requires align > 0
  {
    a % align == 0
  }

  function Plus(a: Ulong, n: nat): (r: Ulong)
    requires n < SPACE
    ensures r == if a + n < SPACE then a + n else a + n - SPACE
  {
    (a + n) % SPACE
  }

  /** Counting up to a multiple, past the end of the address space if need be. */
  function NextMultiple(a: Ulong, align: nat): (r: Ulong)
    requires align > 0
    ensures Multiple(r, align)
    ensures r == 0 || (a <= r && forall k :: a <= k < r ==> !Multiple(k, align))
    decreases if a == 0 then 0 else SPACE - a
  {
    if a == 0 || Multiple(a, align) then a else NextMultiple(Plus(a, 1), align)
  }

  function Adjusted(a: Ulong, align: nat): Ulong
    requires align < ALIGN_LIMIT
  {
    if align == 0 then a
    else if align == 1 then if a % 2 == 0 then Plus(a, 1) else a
    else
      var m := NextMultiple(a, align);
      if Multiple(m, align * 2) then Plus(m, align) else m
  }

  // ---------- the table ----------

  datatype Entry = Entry(trueAddr: Ulong, adjAddr: Ulong)

  function Added(table: seq<Entry>, e: Entry): seq<Entry> {
    if |table| >= MEM_ARRAY_SIZE then table else table + [e]
  }

  /** The first entry with the given adjusted address; the table's length if there is none. */
  function Find(table: seq<Entry>, adjAddr: Ulong): (i: nat)
    ensures i <= |table| && (i < |table| ==> table[i].adjAddr == adjAddr)
    ensures forall k :: 0 <= k < i ==> table[k].adjAddr != adjAddr
  {
    if table == [] || table[0].adjAddr == adjAddr then 0 else Find(table[1..], adjAddr) + 1
  }

  lemma Found(table: seq<Entry>, adjAddr: Ulong, i: nat)
    requires i <= |table| && (i < |table| ==> table[i].adjAddr == adjAddr)
    requires forall k :: 0 <= k < i ==> table[k].adjAddr != adjAddr
    ensures i == Find(table, adjAddr)
  {
  }

  function Without<T>(s: seq<T>, i: nat): seq<T>
    requires i < |s|
  {
    s[..i] + s[i + 1..]
  }

  class Allocator {
    const mem_array: array2<Ulong>
    var mem_array_ents: int
    var global_align: int

    ghost predicate Valid()
      reads this
    {
      && mem_array.Length0 == 2 && mem_array.Length1 == MEM_ARRAY_SIZE
      && 0 <= mem_array_ents <= MEM_ARRAY_SIZE
      && 0 <= global_align < ALIGN_LIMIT
    }

    ghost function Table(): (table: seq<Entry>)
      reads this, mem_array
      requires Valid()
      ensures |table| == mem_array_ents
    {
      First(mem_array_ents)
    }

    ghost function First(n: nat): (table: seq<Entry>)
      reads mem_array
      requires mem_array.Length0 == 2 && n <= mem_array.Length1
      ensures |table| == n && forall k :: 0 <= k < n ==> table[k] == Cell(k)
    {
      if n == 0 then [] else First(n - 1) + [Cell(n - 1)]
    }

    constructor (align: int)
      requires 0 <= align < ALIGN_LIMIT
      ensures Valid() && Table() == [] && global_align == align && fresh(mem_array)
    {
      mem_array := new Ulong[2, MEM_ARRAY_SIZE];
      mem_array_ents := 0;
      global_align := align;
    }

    method InitMemArray()
      requires Valid()
      modifies this
      ensures Valid() && Table() == [] && global_align == old(global_align)
    {
      mem_array_ents := 0;
    }

    method AddMemArray(true_addr: Ulong, adj_addr: Ulong) returns (rc: int)
      requires Valid()
      modifies this`mem_array_ents, mem_array
      ensures Valid()
      ensures rc == if old(|Table()|) >= 20 then -1 else 0
      ensures Table() == old(Table()) + if rc == 0 then [Entry(true_addr, adj_addr)] else []
    {
      if mem_array_ents >= MEM_ARRAY_SIZE { return -1; }
      mem_array[0, mem_array_ents] := true_addr;
      mem_array[1, mem_array_ents] := adj_addr;
      mem_array_ents := mem_array_ents + 1;
      return 0;
    }

    function Cell(k: nat): Entry
      reads mem_array
      requires k < mem_array.Length1 && mem_array.Length0 == 2
    {
      Entry(mem_array[0, k], mem_array[1, k])
    }

    /** The entries behind place i move down one place. */
    method CloseGap(i: nat)
      requires Valid() && i < mem_array_ents
      modifies mem_array
      ensures forall k :: 0 <= k < i ==> Cell(k) == old(Cell(k))
      ensures forall k :: i <= k < mem_array_ents - 1 ==> Cell(k) == old(Cell(k + 1))
    {
      var j := i;
      while j + 1 < mem_array_ents
        invariant i <= j < mem_array_ents
        invariant forall r, k :: 0 <= r < 2 && (0 <= k < i || j <= k < mem_array_ents) ==>
          mem_array[r, k] == old(mem_array[r, k])
        invariant forall r, k :: 0 <= r < 2 && i <= k < j ==> mem_array[r, k] == old(mem_array[r, k + 1])
      {
        mem_array[0, j] := mem_array[0, j + 1];
        mem_array[1, j] := mem_array[1, j + 1];
        j := j + 1;
      }
    }

    method RemoveMemArray(adj_addr: Ulong) returns (rc: int, true_addr: Ulong)
      requires Valid()
      modifies this`mem_array_ents, mem_array
      ensures Valid()
      ensures
        var table := old(Table());
        var i := Find(table, adj_addr);
        if i < |table| then rc == 0 && true_addr == table[i].trueAddr && Table() == table[..i] + table[i + 1..]
        else rc == -1 && Table() == table
    {
      ghost var table := Table();
      var i := 0;
      while i < mem_array_ents
        invariant 0 <= i <= mem_array_ents
        invariant forall k :: 0 <= k < i ==> table[k].adjAddr != adj_addr
      {
        if mem_array[1, i] == adj_addr {
          Found(table, adj_addr, i);
          true_addr := mem_array[0, i];
          CloseGap(i);
          forall k | 0 <= k < mem_array_ents - 1 ensures Cell(k) == Without(table, i)[k] {
            assert Cell(k) == old(Cell(if k < i then k else k + 1));
          }
          mem_array_ents := mem_array_ents - 1;
          assert Table() == Without(table, i);
          return 0, true_addr;
        }
        i := i + 1;
      }
      Found(table, adj_addr, i);
      return -1, 0;
    }

    /** block is what malloc returned for Requested(nbytes, global_align) bytes, zero if
        nothing. */
    method AllocateMemory(nbytes: Ulong, block: Ulong) returns (returnval: Ulong, errorcode: int)
      requires Valid()
      modifies this`mem_array_ents, mem_array
      ensures Valid()
      ensures returnval == Adjusted(block, global_align)
      ensures Table() == Added(old(Table()), Entry(block, returnval))
      ensures errorcode ==
        if old(|Table()|) >= 20 then 2 else if block == 0 then 1 else 0
    {
      errorcode := if block == 0 then ERROR_MEMORY else 0;
      var true_addr, adj_addr := block, block;
      if global_align == 0 {
        var rc := AddMemArray(true_addr, adj_addr);
        if rc != 0 { errorcode := ERROR_MEMARRAY_FULL; }
        return block, errorcode;
      }
      if global_align == 1 {
        if true_addr % 2 == 0 { adj_addr := Plus(adj_addr, 1); }
      } else {
        while !Multiple(adj_addr, global_align)
          invariant NextMultiple(adj_addr, global_align) == NextMultiple(true_addr, global_align)
          decreases if adj_addr == 0 then 0 else SPACE - adj_addr
        {
          adj_addr := Plus(adj_addr, 1);
        }
        if Multiple(adj_addr, global_align * 2) { adj_addr := Plus(adj_addr, global_align); }
      }
      returnval := adj_addr;
      var rc := AddMemArray(true_addr, adj_addr);
      if rc != 0 { errorcode := ERROR_MEMARRAY_FULL; }
    }

    /** freed is the address passed to free, if it is called. */
    method FreeMemory(mempointer: Ulong) returns (errorcode: int, freed: Option<Ulong>)
      requires Valid()
      modifies this`mem_array_ents, mem_array
      ensures Valid()
      ensures
        var table := old(Table());
        var i := Find(table, mempointer);
        if i < |table| then
          errorcode == 0 && freed == Some(table[i].trueAddr) && Table() == table[..i] + table[i + 1..]
        else errorcode == 3 && freed == None && Table() == table
    {
      var rc, true_addr := RemoveMemArray(mempointer);
      if rc != 0 { return ERROR_MEMARRAY_NFOUND, None; }
      return 0, Some(true_addr);
    }
  }
}
