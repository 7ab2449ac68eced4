/** What goes wrong, and exactly when, if the size asked of malloc wraps around: for every
    request, over all runs that make no other. */
module AlignedSharing {
  import opened Arithmetic
  import opened AlignedMemory
  import opened AlignedAddress
  import opened AlignedHeap

  ghost predicate OnlyRequests(steps: seq<Step>, nbytes: Ulong, align: nat) {
    forall k :: 0 <= k < |steps| && steps[k].Allocate? ==> steps[k].nbytes == nbytes && steps[k].align == align
  }

  ghost predicate AllOf(bs: seq<Block>, nbytes: Ulong, align: nat) {
    forall i :: 0 <= i < |bs| ==> bs[i].nbytes == nbytes && bs[i].align == align
  }

  lemma {:induction false} RunOnly(s: Heap, steps: seq<Step>, s': Heap, nbytes: Ulong, align: nat)
    requires Run(s, steps, s') && OnlyRequests(steps, nbytes, align)
    requires AllOf(s.live, nbytes, align) && AllOf(s.lost, nbytes, align)
    ensures AllOf(s'.live, nbytes, align) && AllOf(s'.lost, nbytes, align)
    decreases |steps|
  {
    if steps != [] { RunOnly(Apply(s, steps[0]), steps[1..], s', nbytes, align); }
  }

  // ---------- overlapping bytes ----------

  /** No two callers' bytes overlap. */
  ghost predicate Separate(bs: seq<Block>) {
    forall i, j :: 0 <= i < j < |bs| ==>
      bs[i].ptr + bs[i].nbytes <= bs[j].ptr || bs[j].ptr + bs[j].nbytes <= bs[i].ptr
  }

  ghost predicate AlwaysSeparate(nbytes: Ulong, align: nat) {
    forall steps, s :: Run(EMPTY, steps, s) && OnlyRequests(steps, nbytes, align) ==> Separate(s.live + s.lost)
  }

  lemma TwoBlocks(nbytes: Ulong, align: nat, first: Ulong, second: Ulong) returns (steps: seq<Step>, s: Heap)
    requires align < ALIGN_LIMIT && 0 < first && first + Extent(Requested(nbytes, align)) <= second
    requires second + Extent(Requested(nbytes, align)) <= SPACE
    ensures Run(EMPTY, steps, s) && OnlyRequests(steps, nbytes, align)
    ensures s.live == [NewBlock(nbytes, align, first), NewBlock(nbytes, align, second)] && s.lost == []
    ensures s.freed == [] && |s.table| == 2
    ensures s.table[0] == Entry(first, Adjusted(first, align)) && s.table[1] == Entry(second, Adjusted(second, align))
  {
    var s1 := Granted(EMPTY, NewBlock(nbytes, align, first));
    s := Granted(s1, NewBlock(nbytes, align, second));
    steps := [Allocate(nbytes, align, first), Allocate(nbytes, align, second)];
    assert Run(s, [], s);
    assert steps[1..] == [Allocate(nbytes, align, second)] && steps[1..][1..] == [];
    assert Enabled(s1, steps[1]) && Run(s1, steps[1..], s);
  }

  lemma ThreeTimes(p: nat)
    requires p > 0
    ensures p % (2 * p) == p && 3 * p % (2 * p) == p
  {
    DivModUnique(p, 2 * p, 0, p);
    DivModUnique(3 * p, 2 * p, 1, p);
  }

  /** Bytes handed out never overlap, in any run of one request, exactly when its size does
      not wrap. */
  lemma SeparateExactlyWithoutWrap(nbytes: Ulong, align: nat)
    requires align < ALIGN_LIMIT
    ensures AlwaysSeparate(nbytes, align) <==> nbytes + 2 * align < SPACE
  {
    if nbytes + 2 * align < SPACE {
      forall steps, s | Run(EMPTY, steps, s) && OnlyRequests(steps, nbytes, align)
        ensures Separate(s.live + s.lost)
      {
        RunOnly(EMPTY, steps, s, nbytes, align);
        forall i, j | 0 <= i < j < |s.live + s.lost|
          ensures var a, b := (s.live + s.lost)[i], (s.live + s.lost)[j];
                  a.ptr + a.nbytes <= b.ptr || b.ptr + b.nbytes <= a.ptr
        {
          CallersApart(s, i, j);
        }
      }
    } else {
      SomeOverlap(nbytes, align);
    }
  }

  /** Two such blocks side by side from address 1 on get pointers at most 2 * align apart. */
  lemma SideBySide(extent: nat, align: nat)
    requires 0 < align < ALIGN_LIMIT && 0 < extent < 2 * align
    ensures Adjusted(1, align) == align
    ensures Adjusted(1 + extent, align) == if extent < align then align else 3 * align
  {
    ThreeTimes(align);
    AdjustedTo(1, align, align);
    AdjustedTo(1 + extent, if extent < align then align else 3 * align, align);
  }

  lemma SomeOverlap(nbytes: Ulong, align: nat)
    requires align < ALIGN_LIMIT && nbytes + 2 * align >= SPACE
    ensures !AlwaysSeparate(nbytes, align)
  {
    var e := Extent(Requested(nbytes, align));
    SideBySide(e, align);
    var steps, s := TwoBlocks(nbytes, align, 1, 1 + e);
    Overlapping(s.live[0], s.live[1], s.live + s.lost);
  }

  lemma Overlapping(a: Block, b: Block, bs: seq<Block>)
    requires bs == [a, b] && a.ptr <= b.ptr < a.ptr + a.nbytes && b.nbytes > 0
    ensures !Separate(bs)
  {
    assert bs[0] == a && bs[1] == b;
  }

  // ---------- shared pointers ----------

  /** A caller's test: the size wraps, and two blocks of what is left of it fit between
      odd multiples of the alignment. */
  predicate CanShare(nbytes: Ulong, align: nat) {
    var e := Extent(Requested(nbytes, align));
    nbytes + 2 * align >= SPACE && (e < align || align + 1 + 2 * e <= SPACE)
  }

  /** With alignments up to a fifth of the address space the test is the wrap alone. */
  lemma CanShareMeansWrap(nbytes: Ulong, align: nat)
    requires 5 * align <= SPACE
    ensures CanShare(nbytes, align) <==> nbytes + 2 * align >= SPACE
  {
  }

  ghost predicate AllFreeOwn(s: Heap) {
    |s.live| == |s.table| && forall k :: 0 <= k < |s.live| ==> FreesOwn(s, k)
  }

  ghost predicate AlwaysFreeOwn(nbytes: Ulong, align: nat) {
    forall steps, s :: Run(EMPTY, steps, s) && OnlyRequests(steps, nbytes, align) ==> AllFreeOwn(s)
  }

  /** Every block goes back to free under its own address, in any run of one request,
      exactly when two blocks of that request cannot share a pointer. */
  lemma FreesOwnExactlyUnlessShared(nbytes: Ulong, align: nat)
    requires align < ALIGN_LIMIT
    ensures AlwaysFreeOwn(nbytes, align) <==> !CanShare(nbytes, align)
  {
    if CanShare(nbytes, align) {
      SomeWrongFree(nbytes, align);
    } else {
      forall steps, s | Run(EMPTY, steps, s) && OnlyRequests(steps, nbytes, align) ensures AllFreeOwn(s) {
        RunOnly(EMPTY, steps, s, nbytes, align);
        ReachableInv(s);
        NoneShared(s, nbytes, align);
      }
    }
  }

  lemma NoneShared(s: Heap, nbytes: Ulong, align: nat)
    requires Inv(s) && AllOf(s.live, nbytes, align) && align < ALIGN_LIMIT && !CanShare(nbytes, align)
    ensures AllFreeOwn(s)
  {
    forall k | 0 <= k < |s.live| ensures FreesOwn(s, k) {
      forall i | 0 <= i < k ensures s.live[i].ptr != s.live[k].ptr {
        assert Recorded(s.heap, s.live[i]) && Recorded(s.heap, s.live[k]);
        OwnPointers(s.heap, s.live[i], s.live[k]);
      }
      FirstFreesOwn(s, k);
    }
  }

  lemma OwnPointers(heap: map<Ulong, Positive>, a: Block, b: Block)
    requires Apart(heap) && Recorded(heap, a) && Recorded(heap, b) && a.start != b.start
    requires a.nbytes == b.nbytes && a.align == b.align && !CanShare(a.nbytes, a.align)
    ensures a.ptr != b.ptr
  {
    if Unwrapped(a) {
      PointersDiffer(heap, a, b);
    } else if a.ptr == b.ptr {
      var low, high := if a.start < b.start then a.start else b.start, if a.start < b.start then b.start else a.start;
      SharingNeedsRoom(low, high, Extent(a.size), a.align);
    }
  }

  lemma NoWrapNearEnd(a: Ulong, ptr: Ulong, align: nat)
    requires 0 < align < ALIGN_LIMIT && a + align <= SPACE
    requires ptr == Adjusted(a, align) && ptr % (2 * align) == align
    ensures a <= ptr
  {
    if align > 1 {
      var c := MultipleNear(a, align);
      StopsBy(a, c, align);
      var m := NextMultiple(a, align);
      if m % (2 * align) == 0 && m + align >= SPACE { NoneInside(m, ptr, align); }
    }
  }

  lemma NoneInside(m: nat, x: nat, p: nat)
    requires p > 0 && m % (2 * p) == 0 && x % (2 * p) == p && m < SPACE
    ensures m + p != x + SPACE
  {
    var q: int, q': int := m / (2 * p), x / (2 * p);
    assert m == q * (2 * p) && x == q' * (2 * p) + p;
    assert m - x + p == (q - q') * (2 * p);
    Ordered(q - q', q, 2 * p);
  }

  /** Blocks no smaller than the alignment that share a pointer leave room for one another. */
  lemma SharingNeedsRoom(a: Ulong, b: Ulong, extent: nat, align: nat)
    requires 0 < align < ALIGN_LIMIT && 0 < a && a + extent <= b && b + extent <= SPACE
    requires Adjusted(a, align) == Adjusted(b, align)
    ensures extent < align || (extent < 2 * align && align + 1 + 2 * extent <= SPACE)
  {
    if extent >= align {
      var ptr := Adjusted(a, align);
      AdjustedIsOddMultiple(a, align);
      NoWrapNearEnd(b, ptr, align);
      OddAbove(ptr, align);
    }
  }

  lemma OddAbove(x: nat, p: nat)
    requires p > 0 && x % (2 * p) == p && x > p
    ensures x >= 3 * p
  {
    var q := x / (2 * p);
    assert x == q * (2 * p) + p;
    assert q != 0;
    Ordered(1, q, 2 * p);
  }

  lemma SomeWrongFree(nbytes: Ulong, align: nat)
    requires align < ALIGN_LIMIT && CanShare(nbytes, align)
    ensures !AlwaysFreeOwn(nbytes, align)
  {
    var e := Extent(Requested(nbytes, align));
    var first, ptr := if e < align then 1 else align + 1, if e < align then align else 3 * align;
    var second := if e < align then align else first + e;
    var steps, s := TwoBlocks(nbytes, align, first, second);
    ThreeTimes(align);
    AdjustedTo(first, ptr, align);
    AdjustedTo(second, ptr, align);
    SecondFreesFirst(s, s.live[0], s.live[1]);
    assert !AllFreeOwn(s);
  }

  lemma SecondFreesFirst(s: Heap, a: Block, b: Block)
    requires s.live == [a, b] && |s.table| == 2 && s.freed == []
    requires s.table[0] == Entry(a.start, b.ptr) && a.start != b.start
    ensures Apply(s, Free(b.ptr)).freed == [a.start] && !FreesOwn(s, 1)
  {
    Found(s.table, b.ptr, 0);
  }

  /** At the default alignment 8, with malloc's blocks at multiples of 8: two requests of
      2^32 - 16 bytes ask malloc for nothing and are put at 16 and 24. Both callers get 24,
      and whichever is freed first, free is passed 16. */
  lemma WrongBlockFreed() returns (steps: seq<Step>, s: Heap)
    ensures Run(EMPTY, steps, s) && OnlyRequests(steps, 0xffff_fff0, 8)
    ensures |s.live| == 2 && s.live[0].start == 16 && s.live[1].start == 24
    ensures s.live[0].ptr == s.live[1].ptr == 24 && Apply(s, Free(24)).freed == [16]
  {
    steps, s := TwoBlocks(0xffff_fff0, 8, 16, 24);
    AdjustedTo(16, 24, 8);
    AdjustedTo(24, 24, 8);
  }
}
