/** Runs of AllocateMemory and FreeMemory over malloc and free: every block goes back to free
    under the address malloc gave. */
module AlignedHeap {
  import opened AlignedMemory
  import opened AlignedAddress

  /** A block in the caller's hands: where malloc put it, the size malloc was asked for, what
      the caller asked for at which alignment and the pointer the caller got. */
  datatype Block = Block(start: Ulong, size: Ulong, nbytes: Ulong, align: nat, ptr: Ulong)

  function NewBlock(nbytes: Ulong, align: nat, start: Ulong): Block
    requires align < ALIGN_LIMIT
  {
    Block(start, Requested(nbytes, align), nbytes, align, Adjusted(start, align))
  }

  type Positive = n: nat | n > 0 witness 1

  /** malloc gives even a request for nothing an address of its own. */
  function Extent(size: nat): Positive { if size == 0 then 1 else size }

  /** heap is malloc's own record, from start to extent. live holds the blocks the table
      knows, oldest first, and lost those returned when the table was full. given and freed
      are the addresses malloc has returned and free has been passed. */
  datatype Heap = Heap(
    table: seq<Entry>,
    heap: map<Ulong, Positive>,
    live: seq<Block>,
    lost: seq<Block>,
    given: seq<Ulong>,
    freed: seq<Ulong>)

  datatype Step =
    | Allocate(nbytes: Ulong, align: nat, start: Ulong)
    | Free(ptr: Ulong)

  const EMPTY := Heap([], map[], [], [], [], [])

  ghost predicate Clear(heap: map<Ulong, Positive>, start: nat, extent: Positive) {
    forall p: Ulong :: p in heap ==> p + heap[p] <= start || start + extent <= p
  }

  /** malloc finds room for the size asked for, wrapped or not; the alignment may differ from
      call to call. Any pointer may be passed to FreeMemory. */
  ghost predicate Enabled(s: Heap, step: Step) {
    match step
    case Allocate(nbytes, align, start) =>
      && align < ALIGN_LIMIT
      && 0 < start && start + Extent(Requested(nbytes, align)) <= SPACE
      && Clear(s.heap, start, Extent(Requested(nbytes, align)))
    case Free(ptr) => true
  }

  function Granted(s: Heap, b: Block): Heap {
    var s' := s.(heap := s.heap[b.start := Extent(b.size)], given := s.given + [b.start],
                 table := Added(s.table, Entry(b.start, b.ptr)));
    if |s.table| >= MEM_ARRAY_SIZE then s'.(lost := s.lost + [b]) else s'.(live := s.live + [b])
  }

  function Apply(s: Heap, step: Step): Heap
    requires step.Allocate? ==> step.align < ALIGN_LIMIT
  {
    match step
    case Allocate(nbytes, align, start) =>
      Granted(s, NewBlock(nbytes, align, start))
    case Free(ptr) =>
      var i := Find(s.table, ptr);
      if i >= |s.table| || i >= |s.live| then s
      else
        var address := s.table[i].trueAddr;
        s.(heap := s.heap - {address}, freed := s.freed + [address],
           table := Without(s.table, i), live := Without(s.live, i))
  }

  ghost predicate Run(s: Heap, steps: seq<Step>, s': Heap)
    decreases |steps|
  {
    if steps == [] then s' == s
    else Enabled(s, steps[0]) && Run(Apply(s, steps[0]), steps[1..], s')
  }

  // ---------- what every step keeps ----------

  predicate Formed(b: Block) {
    && b.align < ALIGN_LIMIT && b == NewBlock(b.nbytes, b.align, b.start)
    && 0 < b.start && b.start + Extent(b.size) <= SPACE
  }

  ghost predicate Recorded(heap: map<Ulong, Positive>, b: Block) {
    b.start in heap && heap[b.start] == Extent(b.size) && Formed(b)
  }

  ghost predicate AllRecorded(heap: map<Ulong, Positive>, bs: seq<Block>) {
    && (forall i :: 0 <= i < |bs| ==> Recorded(heap, bs[i]))
    && (forall i, j :: 0 <= i < j < |bs| ==> bs[i].start != bs[j].start)
  }

  ghost predicate Apart(heap: map<Ulong, Positive>) {
    forall p: Ulong, q: Ulong :: p in heap && q in heap && p < q ==> p + heap[p] <= q
  }

  ghost predicate TableMatches(table: seq<Entry>, live: seq<Block>) {
    && |table| == |live| <= MEM_ARRAY_SIZE
    && forall k :: 0 <= k < |live| ==> table[k] == Entry(live[k].start, live[k].ptr)
  }

  function Starts(bs: seq<Block>): multiset<Ulong> {
    if bs == [] then multiset{} else Starts(bs[..|bs| - 1]) + multiset{bs[|bs| - 1].start}
  }

  ghost predicate Placed(heap: map<Ulong, Positive>, live: seq<Block>, lost: seq<Block>) {
    && Apart(heap) && AllRecorded(heap, live) && AllRecorded(heap, lost)
    && forall i, j :: 0 <= i < |live| && 0 <= j < |lost| ==> live[i].start != lost[j].start
  }

  ghost predicate Accounted(s: Heap) {
    && multiset(s.given) == multiset(s.freed) + Starts(s.live) + Starts(s.lost)
    && forall p: Ulong :: p in s.heap ==> p in Starts(s.live) + Starts(s.lost)
  }

  ghost predicate Inv(s: Heap) {
    TableMatches(s.table, s.live) && Placed(s.heap, s.live, s.lost) && Accounted(s)
  }

  lemma StillRecorded(heap: map<Ulong, Positive>, start: Ulong, extent: Positive, bs: seq<Block>)
    requires AllRecorded(heap, bs) && Clear(heap, start, extent)
    ensures AllRecorded(heap[start := extent], bs) && start !in heap
    ensures forall i :: 0 <= i < |bs| ==> bs[i].start != start
  {
    forall i | 0 <= i < |bs| ensures Recorded(heap[start := extent], bs[i]) && bs[i].start != start {
      assert Recorded(heap, bs[i]);
    }
  }

  lemma StartsBack(bs: seq<Block>, b: Block)
    ensures Starts(bs + [b]) == Starts(bs) + multiset{b.start}
  {
    assert (bs + [b])[..|bs|] == bs;
  }

  lemma {:induction false} StartsWithout(bs: seq<Block>, i: nat)
    requires i < |bs|
    ensures Starts(bs) == Starts(Without(bs, i)) + multiset{bs[i].start}
    decreases |bs|
  {
    var n := |bs| - 1;
    if i < n {
      StartsWithout(bs[..n], i);
      assert Without(bs, i) == Without(bs[..n], i) + [bs[n]];
      StartsBack(Without(bs[..n], i), bs[n]);
    } else {
      assert Without(bs, i) == bs[..n];
    }
  }

  lemma PlacedNext(heap: map<Ulong, Positive>, live: seq<Block>, lost: seq<Block>, b: Block)
    requires Placed(heap, live, lost) && Formed(b) && Clear(heap, b.start, Extent(b.size))
    ensures Placed(heap[b.start := Extent(b.size)], live + [b], lost)
    ensures Placed(heap[b.start := Extent(b.size)], live, lost + [b])
  {
    StillRecorded(heap, b.start, Extent(b.size), live);
    StillRecorded(heap, b.start, Extent(b.size), lost);
  }

  lemma AllocateKeeps(s: Heap, nbytes: Ulong, align: nat, start: Ulong)
    requires Inv(s) && Enabled(s, Allocate(nbytes, align, start))
    ensures Inv(Apply(s, Allocate(nbytes, align, start)))
  {
    GrantKeeps(s, NewBlock(nbytes, align, start));
  }

  lemma GrantKeeps(s: Heap, b: Block)
    requires Inv(s) && Formed(b) && Clear(s.heap, b.start, Extent(b.size))
    ensures Inv(Granted(s, b))
  {
    if |s.table| >= MEM_ARRAY_SIZE { LoseKeeps(s, b, Granted(s, b)); } else { KeepKeeps(s, b, Granted(s, b)); }
  }

  lemma LoseKeeps(s: Heap, b: Block, s': Heap)
    requires Inv(s) && Formed(b) && Clear(s.heap, b.start, Extent(b.size))
    requires s'.heap == s.heap[b.start := Extent(b.size)] && s'.table == s.table
    requires s'.given == s.given + [b.start] && s'.freed == s.freed
    requires s'.live == s.live && s'.lost == s.lost + [b]
    ensures Inv(s')
  {
    PlacedNext(s.heap, s.live, s.lost, b);
    LoseNext(s, b, s');
  }

  lemma KeepKeeps(s: Heap, b: Block, s': Heap)
    requires Inv(s) && Formed(b) && Clear(s.heap, b.start, Extent(b.size)) && |s.table| < MEM_ARRAY_SIZE
    requires s'.heap == s.heap[b.start := Extent(b.size)] && s'.table == s.table + [Entry(b.start, b.ptr)]
    requires s'.given == s.given + [b.start] && s'.freed == s.freed
    requires s'.live == s.live + [b] && s'.lost == s.lost
    ensures Inv(s')
  {
    KeepPlaced(s, b, s');
    KeepTable(s, b, s');
    KeepNext(s, b, s');
  }

  lemma KeepPlaced(s: Heap, b: Block, s': Heap)
    requires Placed(s.heap, s.live, s.lost) && Formed(b) && Clear(s.heap, b.start, Extent(b.size))
    requires s'.heap == s.heap[b.start := Extent(b.size)]
    requires s'.live == s.live + [b] && s'.lost == s.lost
    ensures Placed(s'.heap, s'.live, s'.lost)
  {
    PlacedNext(s.heap, s.live, s.lost, b);
  }

  lemma KeepTable(s: Heap, b: Block, s': Heap)
    requires TableMatches(s.table, s.live) && |s.table| < MEM_ARRAY_SIZE
    requires s'.table == s.table + [Entry(b.start, b.ptr)] && s'.live == s.live + [b]
    ensures TableMatches(s'.table, s'.live)
  {
  }

  lemma KeepNext(s: Heap, b: Block, s': Heap)
    requires Accounted(s) && s'.heap.Keys == s.heap.Keys + {b.start}
    requires s'.given == s.given + [b.start] && s'.freed == s.freed
    requires s'.live == s.live + [b] && s'.lost == s.lost
    ensures Accounted(s')
  {
    StartsBack(s.live, b);
    assert multiset(s'.given) == multiset(s.given) + multiset{b.start};
  }

  lemma LoseNext(s: Heap, b: Block, s': Heap)
    requires Accounted(s) && s'.heap.Keys == s.heap.Keys + {b.start}
    requires s'.given == s.given + [b.start] && s'.freed == s.freed
    requires s'.live == s.live && s'.lost == s.lost + [b]
    ensures Accounted(s')
  {
    StartsBack(s.lost, b);
    assert multiset(s'.given) == multiset(s.given) + multiset{b.start};
  }

  lemma FreeKeeps(s: Heap, ptr: Ulong)
    requires Inv(s)
    ensures Inv(Apply(s, Free(ptr)))
  {
    var i := Find(s.table, ptr);
    if i < |s.live| { ReleaseKeeps(s, i, Apply(s, Free(ptr))); }
  }

  lemma ReleaseKeeps(s: Heap, i: nat, s': Heap)
    requires Inv(s) && i < |s.live|
    requires s' == s.(heap := s.heap - {s.live[i].start}, freed := s.freed + [s.live[i].start],
                      table := Without(s.table, i), live := Without(s.live, i))
    ensures Inv(s')
  {
    TableWithout(s.table, s.live, i);
    PlacedWithout(s.heap, s.live, s.lost, i);
    AccountedWithout(s, i, s');
  }

  lemma TableWithout(table: seq<Entry>, live: seq<Block>, i: nat)
    requires TableMatches(table, live) && i < |live|
    ensures TableMatches(Without(table, i), Without(live, i))
  {
  }

  lemma AccountedWithout(s: Heap, i: nat, s': Heap)
    requires Accounted(s) && i < |s.live| && s'.heap.Keys == s.heap.Keys - {s.live[i].start}
    requires s'.given == s.given && s'.freed == s.freed + [s.live[i].start]
    requires s'.live == Without(s.live, i) && s'.lost == s.lost
    ensures Accounted(s')
  {
    StartsWithout(s.live, i);
    assert multiset(s'.freed) == multiset(s.freed) + multiset{s.live[i].start};
  }

  lemma PlacedWithout(heap: map<Ulong, Positive>, live: seq<Block>, lost: seq<Block>, i: nat)
    requires Placed(heap, live, lost) && i < |live|
    ensures Placed(heap - {live[i].start}, Without(live, i), lost)
  {
    var heap', live' := heap - {live[i].start}, Without(live, i);
    RecordedWithout(heap, live, i);
    forall k | 0 <= k < |lost| ensures Recorded(heap', lost[k]) {
      assert Recorded(heap, lost[k]);
    }
    forall k | 0 <= k < |live'| ensures live'[k] == live[if k < i then k else k + 1] { }
  }

  lemma RecordedWithout(heap: map<Ulong, Positive>, bs: seq<Block>, i: nat)
    requires AllRecorded(heap, bs) && i < |bs|
    ensures AllRecorded(heap - {bs[i].start}, Without(bs, i))
  {
    var bs' := Without(bs, i);
    forall k | 0 <= k < |bs'| ensures Recorded(heap - {bs[i].start}, bs'[k]) {
      assert bs'[k] == bs[if k < i then k else k + 1];
      assert Recorded(heap, bs[if k < i then k else k + 1]);
    }
  }

  lemma {:induction false} RunKeeps(s: Heap, steps: seq<Step>, s': Heap)
    requires Inv(s) && Run(s, steps, s')
    ensures Inv(s')
    decreases |steps|
  {
    if steps != [] {
      match steps[0] {
        case Allocate(nbytes, align, start) => AllocateKeeps(s, nbytes, align, start);
        case Free(ptr) => FreeKeeps(s, ptr);
      }
      RunKeeps(Apply(s, steps[0]), steps[1..], s');
    }
  }

  // ---------- over every run ----------

  ghost predicate Reachable(s: Heap) { exists steps :: Run(EMPTY, steps, s) }

  lemma ReachableInv(s: Heap)
    requires Reachable(s)
    ensures Inv(s)
  {
    var steps :| Run(EMPTY, steps, s);
    RunKeeps(EMPTY, steps, s);
  }

  /** On any other pointer, even one of a block the table had no room for, nothing is freed. */
  lemma FreeRefusesOthers(s: Heap, ptr: Ulong)
    requires Reachable(s) && forall k :: 0 <= k < |s.live| ==> s.live[k].ptr != ptr
    ensures Find(s.table, ptr) == |s.table| && Apply(s, Free(ptr)) == s
  {
    ReachableInv(s);
  }

  /** free has been passed each address as often as malloc gave it, except for the blocks
      still out; the table lists the live blocks, oldest first. */
  lemma EveryBlockOnce(s: Heap)
    requires Reachable(s)
    ensures multiset(s.given) == multiset(s.freed) + Starts(s.live) + Starts(s.lost)
    ensures |s.table| == |s.live| <= 20
    ensures forall k :: 0 <= k < |s.live| ==> s.table[k] == Entry(s.live[k].start, s.live[k].ptr)
    ensures s.heap.Keys == set p | p in Starts(s.live) + Starts(s.lost)
  {
    ReachableInv(s);
    forall p | p in Starts(s.live) + Starts(s.lost) ensures p in s.heap {
      if p in Starts(s.live) { StartsOnRecord(s.heap, s.live, p); } else { StartsOnRecord(s.heap, s.lost, p); }
    }
  }

  /** A block joins the end of the table while that has fewer than twenty entries, and is lost
      to it otherwise. */
  lemma AllocateRegisters(s: Heap, nbytes: Ulong, align: nat, start: Ulong)
    requires Reachable(s) && Enabled(s, Allocate(nbytes, align, start))
    ensures
      var s', b := Apply(s, Allocate(nbytes, align, start)), NewBlock(nbytes, align, start);
      && b.start == start && b.nbytes == nbytes && b.ptr == Adjusted(start, align)
      && s'.given == s.given + [start] && s'.freed == s.freed
      && s'.live == s.live + (if |s.live| < 20 then [b] else [])
      && s'.lost == s.lost + (if |s.live| < 20 then [] else [b])
  {
    ReachableInv(s);
  }

  lemma {:induction false} StartsOnRecord(heap: map<Ulong, Positive>, bs: seq<Block>, p: Ulong)
    requires AllRecorded(heap, bs) && p in Starts(bs)
    ensures p in heap
    decreases |bs|
  {
    var n := |bs| - 1;
    assert Recorded(heap, bs[n]);
    if p != bs[n].start {
      assert forall i :: 0 <= i < n ==> bs[..n][i] == bs[i];
      StartsOnRecord(heap, bs[..n], p);
    }
  }

  // ---------- runs without wrapped sizes ----------

  /** The size asked of malloc is the sum that AllocateMemory forms. */
  predicate Unwrapped(b: Block) { b.nbytes + 2 * b.align < SPACE }

  lemma UnwrappedInside(b: Block)
    requires Formed(b) && Unwrapped(b)
    ensures b.start <= b.ptr < b.start + Extent(b.size) && b.ptr + b.nbytes <= b.start + Extent(b.size)
  {
    CallerInsideExactlyWithoutWrap(b.start, b.nbytes, b.align);
    if b.align > 0 { AdjustedIsOddMultiple(b.start, b.align); }
  }

  /** Blocks that malloc keeps apart have different pointers, and their callers' bytes do not
      overlap. */
  lemma PointersDiffer(heap: map<Ulong, Positive>, a: Block, b: Block)
    requires Apart(heap) && Recorded(heap, a) && Recorded(heap, b) && a.start != b.start
    requires Unwrapped(a) && Unwrapped(b)
    ensures a.ptr != b.ptr
    ensures a.ptr + a.nbytes <= b.ptr || b.ptr + b.nbytes <= a.ptr
  {
    UnwrappedInside(a);
    UnwrappedInside(b);
  }

  /** FreeMemory on the pointer of live block k calls free with the address malloc gave for
      that block, which malloc has on record, and takes exactly that block off the table. */
  ghost predicate FreesOwn(s: Heap, k: nat)
    requires k < |s.live| == |s.table|
  {
    var b, s' := s.live[k], Apply(s, Free(s.live[k].ptr));
    && b.start in s.heap && s'.heap == s.heap - {b.start}
    && s'.freed == s.freed + [b.start]
    && s'.live == s.live[..k] + s.live[k + 1..] && s'.table == s.table[..k] + s.table[k + 1..]
    && s'.lost == s.lost && s'.given == s.given
  }

  lemma FirstFreesOwn(s: Heap, k: nat)
    requires Inv(s) && k < |s.live| && forall i :: 0 <= i < k ==> s.live[i].ptr != s.live[k].ptr
    ensures FreesOwn(s, k)
  {
    forall i | 0 <= i < k ensures s.table[i].adjAddr != s.live[k].ptr {
      assert s.table[i] == Entry(s.live[i].start, s.live[i].ptr);
    }
    Found(s.table, s.live[k].ptr, k);
    assert Recorded(s.heap, s.live[k]);
  }

  /** A block frees its own address if its size and those of the blocks before it on the
      table did not wrap. */
  lemma FreeGetsItsBlock(s: Heap, k: nat)
    requires Reachable(s) && k < |s.live| && forall i :: 0 <= i <= k ==> Unwrapped(s.live[i])
    ensures |s.live| == |s.table| && FreesOwn(s, k)
  {
    ReachableInv(s);
    forall i | 0 <= i < k ensures s.live[i].ptr != s.live[k].ptr {
      assert Recorded(s.heap, s.live[i]) && Recorded(s.heap, s.live[k]);
      PointersDiffer(s.heap, s.live[i], s.live[k]);
    }
    FirstFreesOwn(s, k);
  }

  /** The bytes handed out for two blocks whose sizes did not wrap never overlap. */
  lemma CallersApart(s: Heap, i: nat, j: nat)
    requires Reachable(s) && i < j < |s.live + s.lost|
    requires Unwrapped((s.live + s.lost)[i]) && Unwrapped((s.live + s.lost)[j])
    ensures
      var a, b := (s.live + s.lost)[i], (s.live + s.lost)[j];
      a.ptr != b.ptr && (a.ptr + a.nbytes <= b.ptr || b.ptr + b.nbytes <= a.ptr)
  {
    ReachableInv(s);
    var a, b := (s.live + s.lost)[i], (s.live + s.lost)[j];
    assert Recorded(s.heap, a) && Recorded(s.heap, b);
    PointersDiffer(s.heap, a, b);
  }
}
