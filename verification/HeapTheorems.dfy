/**
  What the heap guarantees over whole runs of kmalloc and kfree: the layout is a
  function of the set of live blocks, kfree undoes kmalloc exactly, live blocks
  stay disjoint, bytes are conserved, and a drained heap is the initial heap.
 */
module HeapTheorems {
  import opened Bytes
  import opened HeapLayout
  import opened HeapModel
  import opened Options

  // ------------------------------------------------------------- best fit, NULL

  // kmalloc fails exactly when no free region is large enough, and otherwise
  // carves from a smallest one that is.
  lemma BestFit(h: Heap, n: nat, lo: int, hi: int)
    requires Wf(h, lo, hi)
    ensures Fits(h, n) <==> exists r :: r in h.regions && r.free && r.size >= n + HDR
    ensures Fits(h, n) ==>
              && Chosen(h, n) in h.regions && Chosen(h, n).free
              && forall r :: r in h.regions && r.free && r.size >= n + HDR ==> Chosen(h, n).size <= r.size
  {
    var i := FirstFit(h.order, n + HDR);
    forall r | r in h.regions && r.free && r.size >= n + HDR
      ensures i < |h.order| && h.order[i].size <= r.size
    {
      assert r in h.order;
      var j :| 0 <= j < |h.order| && h.order[j] == r;
      assert i <= j;
    }
    if i < |h.order| { assert h.order[i] in h.order; }
  }

  // ------------------------------------------------------------ canonical layout

  ghost predicate SameLive(rs: seq<Region>, ss: seq<Region>) {
    forall r: Region {:trigger r in rs} {:trigger r in ss} :: !r.free ==> (r in rs <==> r in ss)
  }

  // Two well-formed layouts that agree on the first i regions agree on the next.
  lemma NextRegionSame(h: Heap, g: Heap, lo: int, hi: int, i: nat)
    requires Wf(h, lo, hi) && Wf(g, lo, hi) && SameLive(h.regions, g.regions)
    requires i < |h.regions| && i < |g.regions|
    requires h.regions[i].addr == g.regions[i].addr
    ensures h.regions[i] == g.regions[i]
  {
    var r, s := h.regions[i], g.regions[i];
    if !r.free {
      assert r in h.regions;
      var j :| 0 <= j < |g.regions| && g.regions[j] == r;
      SameAddr(g.regions, lo, hi, i, j);
    } else if !s.free {
      assert s in g.regions;
      var j :| 0 <= j < |h.regions| && h.regions[j] == s;
      SameAddr(h.regions, lo, hi, i, j);
    } else {
      FreeNotShorter(h, g, lo, hi, i);
      FreeNotShorter(g, h, lo, hi, i);
    }
  }

  lemma FreeNotShorter(h: Heap, g: Heap, lo: int, hi: int, i: nat)
    requires Wf(h, lo, hi) && Wf(g, lo, hi) && SameLive(h.regions, g.regions)
    requires i < |h.regions| && i < |g.regions|
    requires h.regions[i].addr == g.regions[i].addr && h.regions[i].free && g.regions[i].free
    ensures h.regions[i].End() >= g.regions[i].End()
  {
    Bounds(h.regions, lo, hi, i);
    Bounds(g.regions, lo, hi, i);
    if h.regions[i].End() < g.regions[i].End() {
      var next := h.regions[i + 1];
      assert !Mergeable(h.regions[i], next);
      assert next in g.regions;
      var j :| 0 <= j < |g.regions| && g.regions[j] == next;
      if j < i { Ascending(g.regions, lo, hi, j, i); }
      if i < j { Ascending(g.regions, lo, hi, i, j); }
    }
  }

  ghost predicate SamePrefix(rs: seq<Region>, ss: seq<Region>, i: nat) {
    && i <= |rs| && i <= |ss|
    && forall j :: 0 <= j < i ==> rs[j] == ss[j]
  }

  lemma NextStartSame(rs: seq<Region>, ss: seq<Region>, lo: int, hi: int, i: nat)
    requires Tiles(rs, lo, hi) && Tiles(ss, lo, hi)
    requires SamePrefix(rs, ss, i) && i < |rs|
    ensures i < |ss| && rs[i].addr == ss[i].addr
  {
    if i > 0 {
      Bounds(rs, lo, hi, i - 1);
      Bounds(ss, lo, hi, i - 1);
      assert rs[i].addr == rs[i - 1].End();
      assert ss[i].addr == ss[i - 1].End();
    }
  }

  lemma {:induction false} PrefixSame(h: Heap, g: Heap, lo: int, hi: int, i: nat)
    requires Wf(h, lo, hi) && Wf(g, lo, hi) && SameLive(h.regions, g.regions)
    requires i <= |h.regions|
    ensures SamePrefix(h.regions, g.regions, i)
    decreases i
  {
    if i > 0 {
      PrefixSame(h, g, lo, hi, i - 1);
      NextStartSame(h.regions, g.regions, lo, hi, i - 1);
      NextRegionSame(h, g, lo, hi, i - 1);
    }
  }

  // The physical layout is determined by which blocks are live: however the
  // heap got here, coalescing has left no trace of the order of operations.
  lemma LayoutCanonical(h: Heap, g: Heap, lo: int, hi: int)
    requires Wf(h, lo, hi) && Wf(g, lo, hi)
    requires SameLive(h.regions, g.regions)
    ensures h.regions == g.regions
  {
    PrefixSame(h, g, lo, hi, |h.regions|);
    PrefixSame(g, h, lo, hi, |g.regions|);
  }

  // ------------------------------------------------------- kfree undoes kmalloc

  lemma InsertThenWithout(order: seq<Region>, r: Region)
    requires r !in order
    ensures Without(Insert(order, r), r) == order
  {
    var i := FirstFit(order, r.size);
    var res := Insert(order, r);
    assert res[i] == r;
    forall k | 0 <= k < |res| && k != i ensures res[k] != r { InsertAt(order, r, k); }
    assert IndexOf(res, r) == i;
    assert Remove(res, i) == order;
  }

  lemma RemoveAt(order: seq<Region>, i: nat, j: nat)
    requires i < |order| && j < |order| - 1
    ensures Remove(order, i)[j] == order[if j < i then j else j + 1]
  {}

  lemma PutBack(order: seq<Region>, i: nat)
    requires i < |order|
    ensures Remove(order, i)[..i] + [order[i]] + Remove(order, i)[i..] == order
  {
    assert Remove(order, i)[..i] == order[..i];
    assert Remove(order, i)[i..] == order[i + 1..];
  }

  lemma ReinsertAt(order: seq<Region>, i: nat)
    requires Sorted(order) && i < |order|
    requires forall j :: 0 <= j < i ==> order[j].size < order[i].size
    ensures Insert(Remove(order, i), order[i]) == order
  {
    var rest := Remove(order, i);
    if i < |rest| { RemoveAt(order, i, i); }
    forall j | 0 <= j < i ensures rest[j].size < order[i].size { RemoveAt(order, i, j); }
    FirstFitIs(rest, order[i].size, i);
    PutBack(order, i);
  }

  // Taking a first fit out of the list and putting it back leaves the list
  // as it was, even among regions of equal size.
  lemma RemoveThenInsert(order: seq<Region>, need: int)
    requires Sorted(order) && FirstFit(order, need) < |order|
    ensures var i := FirstFit(order, need);
            Insert(Remove(order, i), order[i]) == order
  {
    ReinsertAt(order, FirstFit(order, need));
  }

  lemma SpliceBack(rs: seq<Region>, k: nat, x: Region, y: Region)
    requires k < |rs|
    ensures var m := Splice(rs, k, k + 1, [x, y]);
            && |m| == |rs| + 1 && m[k] == x && m[k + 1] == y
            && (k + 2 < |m| ==> m[k + 2] == rs[k + 1])
            && Splice(m, k, k + 2, [rs[k]]) == rs
  {
    var m := Splice(rs, k, k + 1, [x, y]);
    assert m[..k] == rs[..k] && m[k + 2..] == rs[k + 1..];
    assert rs == rs[..k] + [rs[k]] + rs[k + 1..];
  }

  lemma MallocThenFreeOrder(h: Heap, n: nat, lo: int, hi: int)
    requires Wf(h, lo, hi) && Fits(h, n) && Chosen(h, n) in h.regions
    ensures var r := Chosen(h, n);
            Insert(Without(Malloc(h, n).order, Kept(r, n)), r) == h.order
  {
    var i, r := FirstFit(h.order, n + HDR), Chosen(h, n);
    RemoveKeeps(h.order, i);
    InsertThenWithout(Remove(h.order, i), Kept(r, n));
    RemoveThenInsert(h.order, n + HDR);
  }

  // Freeing a block that follows a free region p and precedes none.
  lemma FreeSplit(rs: seq<Region>, o: seq<Region>, k: nat, p: Region, u: Region)
    requires k + 1 < |rs| && rs[k] == p && p.free && (k + 2 < |rs| ==> !rs[k + 2].free)
    requires u == Region(p.addr, rs[k + 1].End() - HDR - p.addr, true)
    ensures Free(Heap(rs, o), k + 1) == Heap(Splice(rs, k, k + 2, [u]), Insert(Without(o, p), u))
  {}

  // Cutting a block off region k and freeing it again.
  lemma CarveThenFree(rs: seq<Region>, k: nat, n: nat, cut: seq<Region>, o: seq<Region>)
    requires k < |rs| && rs[k].free && (k + 1 < |rs| ==> !rs[k + 1].free)
    requires cut == Splice(rs, k, k + 1, [Kept(rs[k], n), Carved(rs[k], n)])
    ensures k + 1 < |cut| && cut[k + 1] == Carved(rs[k], n)
    ensures Free(Heap(cut, o), k + 1) == Heap(rs, Insert(Without(o, Kept(rs[k], n)), rs[k]))
  {
    SpliceBack(rs, k, Kept(rs[k], n), Carved(rs[k], n));
    FreeSplit(cut, o, k, Kept(rs[k], n), rs[k]);
  }

  // kfree of what kmalloc(n) returned gives back exactly the heap from before:
  // the same regions and sizes and the same free-list order.
  lemma MallocThenFree(h: Heap, n: nat, lo: int, hi: int) returns (k: nat)
    requires Wf(h, lo, hi) && Fits(h, n)
    ensures Chosen(h, n) in h.regions
    ensures k + 1 < |Malloc(h, n).regions| && Malloc(h, n).regions[k + 1] == Carved(Chosen(h, n), n)
    ensures Free(Malloc(h, n), k + 1) == h
  {
    ChosenRegion(h, n, lo, hi);
    k := IndexOf(h.regions, Chosen(h, n));
    var cut, o := Malloc(h, n).regions, Malloc(h, n).order;
    CarveThenFree(h.regions, k, n, cut, o);
    MallocThenFreeOrder(h, n, lo, hi);
    assert Malloc(h, n) == Heap(cut, o);
  }

  // ------------------------------------------------------ conservation, draining

  function Extent(rs: seq<Region>): int {
    if rs == [] then 0 else HDR + rs[0].size + Extent(rs[1..])
  }

  lemma {:induction false} BytesConserved(rs: seq<Region>, lo: int, hi: int)
    requires Tiles(rs, lo, hi)
    ensures Extent(rs) == hi - lo
    decreases |rs|
  {
    if |rs| > 1 {
      assert rs[1].addr == rs[0].End();
      assert Tiles(rs[1..], rs[0].End(), hi);
      BytesConserved(rs[1..], rs[0].End(), hi);
    } else {
      assert rs[1..] == [];
    }
  }

  lemma TwoRegionsOneLive(h: Heap, lo: int, hi: int)
    requires Wf(h, lo, hi) && |h.regions| > 1
    ensures exists r :: r in h.regions && !r.free
  {
    assert !Mergeable(h.regions[0], h.regions[1]);
    assert h.regions[1] in h.regions;
  }

  lemma FirstTwoDiffer(order: seq<Region>)
    requires Distinct(order) && |order| >= 2
    ensures order[0] != order[1]
  {
    assert order[0].addr != order[1].addr;
  }

  lemma OnlyMember(order: seq<Region>, r: Region)
    requires Distinct(order)
    requires forall x :: x in order <==> x == r
    ensures order == [r]
  {
    assert r in order;
    forall i | 0 <= i < |order| ensures order[i] == r { assert order[i] in order; }
    if |order| >= 2 { FirstTwoDiffer(order); }
  }

  lemma Drained(h: Heap, lo: int, hi: int)
    requires Wf(h, lo, hi)
    requires forall r :: r in h.regions ==> r.free
    ensures h == Init(lo, hi)
  {
    if |h.regions| > 1 { TwoRegionsOneLive(h, lo, hi); }
    assert h.regions == [h.regions[0]];
    OnlyMember(h.order, h.regions[0]);
  }

  // ------------------------------------------------------------------------ runs

  // What callers do: take a block, store a byte at an offset of a block they hold,
  // give a block back.
  datatype Op = Alloc(n: nat) | Store(ptr: int, off: nat, value: byte) | Release(ptr: int)

  // The heap together with what its callers know: the size of every pointer
  // kmalloc has returned and kfree has not taken back.
  datatype World = World(heap: Heap, live: map<int, nat>)

  function BlockAt(ptr: int, n: nat): Region { Region(ptr - HDR, n, false) }

  // None: the operation is not one the callers may make (a bad store or free), or
  // the heap has lost track of its blocks.
  ghost function Step(w: World, op: Op): Option<World> {
    match op
    case Alloc(n) =>
      if !Fits(w.heap, n) then Some(w)
      else if Chosen(w.heap, n) !in w.heap.regions then None
      else Some(World(Malloc(w.heap, n), w.live[Carved(Chosen(w.heap, n), n).Payload() := n]))
    case Store(ptr, off, _) => if ptr in w.live && off < w.live[ptr] then Some(w) else None
    case Release(ptr) =>
      if ptr !in w.live then None
      else
        var b := BlockAt(ptr, w.live[ptr]);
        if b !in w.heap.regions || IndexOf(w.heap.regions, b) == 0 then None
        else Some(World(Free(w.heap, IndexOf(w.heap.regions, b)), w.live - {ptr}))
  }

  ghost function Run(w: World, ops: seq<Op>): Option<World>
    decreases |ops|
  {
    if ops == [] then Some(w)
    else match Step(w, ops[0]) case None => None case Some(w') => Run(w', ops[1..])
  }

  // A caller stores only into what it holds, and frees only that.
  ghost predicate LegalOp(w: World, op: Op) {
    && (op.Store? ==> op.ptr in w.live && op.off < w.live[op.ptr])
    && (op.Release? ==> op.ptr in w.live)
  }

  // Every operation is legal in the state it is applied to.
  ghost predicate LegalRun(w: World, ops: seq<Op>)
    decreases |ops|
  {
    ops == [] ||
    (LegalOp(w, ops[0]) && (Step(w, ops[0]).Some? ==> LegalRun(Step(w, ops[0]).value, ops[1..])))
  }

  // The live table and the allocated regions are the same blocks.
  ghost predicate Tracked(rs: seq<Region>, live: map<int, nat>) {
    && (forall r {:trigger r in rs} :: r in rs && !r.free ==> r.Payload() in live && live[r.Payload()] == r.size)
    && (forall p :: p in live ==> BlockAt(p, live[p]) in rs)
  }

  ghost predicate Good(w: World, lo: int, hi: int) {
    Wf(w.heap, lo, hi) && Tracked(w.heap.regions, w.live)
  }

  // No live block starts where kmalloc puts the new one.
  lemma CarvedFresh(w: World, n: nat, lo: int, hi: int)
    requires Good(w, lo, hi) && Fits(w.heap, n)
    ensures Carved(Chosen(w.heap, n), n).Payload() !in w.live
  {
    ChosenRegion(w.heap, n, lo, hi);
    var p := Carved(Chosen(w.heap, n), n).Payload();
    if p in w.live {
      RegionsDisjoint(w.heap, lo, hi, BlockAt(p, w.live[p]), Chosen(w.heap, n));
    }
  }

  // The live table follows the carve of blk from r.
  lemma AllocTracked(rs: seq<Region>, rs': seq<Region>, live: map<int, nat>, r: Region, kept: Region, blk: Region)
    requires Tracked(rs, live) && r.free && kept.free && !blk.free && blk.size >= 0 && blk.Payload() !in live
    requires forall x :: x in rs' <==> (x in rs && x != r) || x == kept || x == blk
    ensures Tracked(rs', live[blk.Payload() := blk.size])
  {
    var live' := live[blk.Payload() := blk.size];
    forall p | p in live' ensures BlockAt(p, live'[p]) in rs' {
      if p == blk.Payload() {
        assert BlockAt(p, blk.size) == blk;
      } else {
        assert BlockAt(p, live[p]) in rs;
      }
    }
    forall x {:trigger x in rs'} | x in rs' && !x.free ensures x.Payload() in live' && live'[x.Payload()] == x.size {
      if x != blk { assert x in rs; }
    }
  }

  lemma AllocStep(w: World, n: nat, lo: int, hi: int)
    requires Good(w, lo, hi) && Fits(w.heap, n)
    ensures Chosen(w.heap, n) in w.heap.regions
    ensures Wf(Malloc(w.heap, n), lo, hi)
    ensures Tracked(Malloc(w.heap, n).regions, w.live[Carved(Chosen(w.heap, n), n).Payload() := n])
  {
    MallocWf(w.heap, n, lo, hi);
    ChosenRegion(w.heap, n, lo, hi);
    assert Tracked(Malloc(w.heap, n).regions, w.live[Carved(Chosen(w.heap, n), n).Payload() := n]) by {
      var r := Chosen(w.heap, n);
      MallocMembers(w.heap, n, lo, hi);
      CarvedFresh(w, n, lo, hi);
      AllocTracked(w.heap.regions, Malloc(w.heap, n).regions, w.live, r, Kept(r, n), Carved(r, n));
    }
  }

  lemma ReleaseTracked(w: World, k: nat, lo: int, hi: int)
    requires Good(w, lo, hi) && 0 < k < |w.heap.regions| && !w.heap.regions[k].free
    ensures Tracked(Free(w.heap, k).regions, w.live - {w.heap.regions[k].Payload()})
  {
    var h, b := w.heap, w.heap.regions[k];
    var rs, live := Free(h, k).regions, w.live - {b.Payload()};
    FreeRegions(h, k, lo, hi);
    UnifiedMembers(h.regions, k);
    forall r | r in rs && !r.free ensures r.Payload() in live && live[r.Payload()] == r.size {
      RegionsDisjoint(h, lo, hi, r, b);
    }
    forall p | p in live ensures BlockAt(p, live[p]) in rs {
      assert BlockAt(p, live[p]).Payload() == p;
    }
  }

  lemma ReleaseStep(w: World, ptr: int, lo: int, hi: int)
    requires Good(w, lo, hi) && ptr in w.live
    ensures var b := BlockAt(ptr, w.live[ptr]);
            && b in w.heap.regions && IndexOf(w.heap.regions, b) > 0
            && Wf(Free(w.heap, IndexOf(w.heap.regions, b)), lo, hi)
            && Tracked(Free(w.heap, IndexOf(w.heap.regions, b)).regions, w.live - {ptr})
  {
    var k := IndexOf(w.heap.regions, BlockAt(ptr, w.live[ptr]));
    FreeWf(w.heap, k, lo, hi);
    ReleaseTracked(w, k, lo, hi);
  }

  // Every step a caller may take succeeds and keeps the whole invariant.
  lemma StepGood(w: World, op: Op, lo: int, hi: int)
    requires Good(w, lo, hi) && LegalOp(w, op)
    ensures Step(w, op).Some? && Good(Step(w, op).value, lo, hi)
  {
    match op
    case Alloc(n) => if Fits(w.heap, n) { AllocStep(w, n, lo, hi); }
    case Store(_, _, _) =>
    case Release(ptr) => ReleaseStep(w, ptr, lo, hi);
  }

  ghost function Boot(lo: int, hi: int): World { World(Init(lo, hi), map[]) }

  // Every legal run succeeds and keeps the whole invariant.
  lemma {:induction false} RunGood(w: World, ops: seq<Op>, lo: int, hi: int)
    requires Good(w, lo, hi) && LegalRun(w, ops)
    ensures Run(w, ops).Some? && Good(Run(w, ops).value, lo, hi)
    decreases |ops|
  {
    if ops != [] {
      StepGood(w, ops[0], lo, hi);
      RunGood(Step(w, ops[0]).value, ops[1..], lo, hi);
    }
  }

  // A run succeeds exactly if every operation is legal where it is applied.
  lemma {:induction false} RunDefinedIff(w: World, ops: seq<Op>, lo: int, hi: int)
    requires Good(w, lo, hi)
    ensures Run(w, ops).Some? <==> LegalRun(w, ops)
    decreases |ops|
  {
    if ops != [] && LegalOp(w, ops[0]) {
      StepGood(w, ops[0], lo, hi);
      RunDefinedIff(Step(w, ops[0]).value, ops[1..], lo, hi);
    }
  }

  // Over any run from boot: live blocks lie inside the heap, are pairwise
  // disjoint together with their headers, headers and payloads add up to the
  // whole heap, and when everything has been freed, in whatever order, the heap
  // is the initial single region again.
  lemma AnyRun(ops: seq<Op>, lo: int, hi: int)
    requires lo + HDR <= hi && LegalRun(Boot(lo, hi), ops)
    ensures Run(Boot(lo, hi), ops).Some?
    ensures var w := Run(Boot(lo, hi), ops).value;
            && Wf(w.heap, lo, hi)
            && (forall p :: p in w.live ==> lo + HDR <= p - HDR && p + w.live[p] <= hi)
            && (forall p, q :: p in w.live && q in w.live && p < q ==> p + w.live[p] <= q - HDR)
            && Extent(w.heap.regions) == hi - lo
            && (w.live == map[] ==> w.heap == Init(lo, hi))
  {
    InitWf(lo, hi);
    RunGood(Boot(lo, hi), ops, lo, hi);
    var w := Run(Boot(lo, hi), ops).value;
    BytesConserved(w.heap.regions, lo, hi);
    forall p | p in w.live ensures lo + HDR <= p - HDR && p + w.live[p] <= hi {
      var b := BlockAt(p, w.live[p]);
      RegionsDisjoint(w.heap, lo, hi, b, w.heap.regions[0]);
    }
    forall p, q | p in w.live && q in w.live && p < q ensures p + w.live[p] <= q - HDR {
      var b, c := BlockAt(p, w.live[p]), BlockAt(q, w.live[q]);
      RegionsDisjoint(w.heap, lo, hi, b, c);
    }
    if w.live == map[] { Drained(w.heap, lo, hi); }
  }

  // Two runs that leave the same blocks live leave the same physical layout.
  lemma RunsConverge(ops: seq<Op>, ops': seq<Op>, w: World, w': World, lo: int, hi: int)
    requires lo + HDR <= hi && Run(Boot(lo, hi), ops) == Some(w) && Run(Boot(lo, hi), ops') == Some(w')
    requires w.live == w'.live
    ensures w.heap.regions == w'.heap.regions
  {
    InitWf(lo, hi);
    RunDefinedIff(Boot(lo, hi), ops, lo, hi);
    RunDefinedIff(Boot(lo, hi), ops', lo, hi);
    RunGood(Boot(lo, hi), ops, lo, hi);
    RunGood(Boot(lo, hi), ops', lo, hi);
    SameTable(w, w', lo, hi);
  }

  lemma SameTable(w: World, w': World, lo: int, hi: int)
    requires Good(w, lo, hi) && Good(w', lo, hi) && w.live == w'.live
    ensures w.heap.regions == w'.heap.regions
  {
    LayoutCanonical(w.heap, w'.heap, lo, hi);
  }

  // ------------------------------------------------------- 32-bit wrap-around

  // kmalloc's own arithmetic on unsigned 32-bit words, applied to a region that
  // passed its size test: the new block stays inside the region exactly when
  // `size + 12` does not wrap; when it wraps, the new header always spills over
  // the end of the region.
  lemma CarveFitsIffNoWrap(r: Region, n: int)
    requires 0 <= n < WORD
    requires 0 <= r.addr && 0 <= r.size && r.End() < WORD
    requires r.size >= Wrap(n + HDR)
    ensures var kept := Wrap(r.size - n - HDR);
            var hd := Wrap(r.addr + kept + HDR);
            && (r.Payload() <= hd && hd + HDR + n <= r.End() <==> n + HDR < WORD)
            && (n + HDR >= WORD ==> hd + HDR > r.End())
            && (n + HDR < WORD ==> kept == Kept(r, n).size && hd == Carved(r, n).addr)
  {
    WrapIs(n + HDR);
    WrapIs(r.size - n - HDR);
    WrapIs(r.addr + Wrap(r.size - n - HDR) + HDR);
  }

  lemma WrapIs(x: int)
    requires -WORD <= x < 2 * WORD
    ensures Wrap(x) == if x < 0 then x + WORD else if x < WORD then x else x - WORD
  {}

  // The initial heap can serve a request exactly if it has room for the block, its
  // header and the header of the free region that stays below it, 12 bytes each.
  lemma BootFits(lo: int, hi: int, n: nat)
    requires lo + HDR <= hi
    ensures Fits(Init(lo, hi), n) <==> n + 24 <= hi - lo
  {
    FirstFitNone(Init(lo, hi).order, n + HDR);
    assert Init(lo, hi).order[0] in Init(lo, hi).order;
  }

  // The wrap is there to be met: in the initial heap a request for WORD - 12 bytes
  // passes the size test, and its header lands at the end of the heap.
  lemma WrapAtBoot(lo: int, hi: int)
    requires 0 <= lo && lo + HDR <= hi < WORD
    ensures var r, n := Init(lo, hi).regions[0], WORD - HDR;
            && r.size >= Wrap(n + HDR)
            && Wrap(r.addr + Wrap(r.size - n - HDR) + HDR) == hi
  {}
}
