// Sizes shared by the heap's value model and its byte-level implementation.
module HeapLayout {
  // sizeof(struct RegionHeader)
  const HDR := 12
  // unsigned arithmetic is modulo this
  const WORD := 0x1_0000_0000

  // What an unsigned 32-bit operation leaves of x.
  function Wrap(x: int): int { x % WORD }
}

/**
  The kernel heap as a value: the physical regions in address order, and the
  free regions in the order in which the linked list from `index_head` visits
  them.  `Malloc` and `Free` are what `kmalloc` and `kfree` do to that value;
  the class in KernelHeap.dfy is proved to compute exactly these functions on
  raw bytes.
 */
module HeapModel {
  import opened HeapLayout

  datatype Region = Region(addr: int, size: int, free: bool) {
    function End(): int { addr + HDR + size }
    function Payload(): int { addr + HDR }
  }

  datatype Heap = Heap(regions: seq<Region>, order: seq<Region>)

  // ---------------------------------------------------------------- invariant

  // The regions lie end to end and fill [lo, hi) exactly.
  ghost predicate Tiles(rs: seq<Region>, lo: int, hi: int) {
    && |rs| > 0
    && rs[0].addr == lo
    && rs[|rs| - 1].End() == hi
    && (forall i :: 0 <= i < |rs| ==> rs[i].size >= 0)
    && (forall i, j :: 0 <= i && j == i + 1 && j < |rs| ==> rs[j].addr == rs[i].End())
  }

  ghost predicate Mergeable(x: Region, y: Region) { x.free && y.free }

  ghost predicate NoAdjacentFree(rs: seq<Region>) {
    forall i, j :: 0 <= i && j == i + 1 && j < |rs| ==> !Mergeable(rs[i], rs[j])
  }

  ghost predicate Sorted(order: seq<Region>) {
    forall i, j :: 0 <= i < j < |order| ==> order[i].size <= order[j].size
  }

  ghost predicate Distinct(order: seq<Region>) {
    forall i, j :: 0 <= i < j < |order| ==> order[i].addr != order[j].addr
  }

  ghost predicate HoldsFree(order: seq<Region>, rs: seq<Region>) {
    forall r {:trigger r in order} {:trigger r in rs} :: r in order <==> r in rs && r.free
  }

  ghost predicate Wf(h: Heap, lo: int, hi: int) {
    && Tiles(h.regions, lo, hi)
    && h.regions[0].free
    && NoAdjacentFree(h.regions)
    && Sorted(h.order)
    && Distinct(h.order)
    && HoldsFree(h.order, h.regions)
  }

  lemma {:induction false} Ascending(rs: seq<Region>, lo: int, hi: int, i: int, j: int)
    requires Tiles(rs, lo, hi)
    requires 0 <= i < j < |rs|
    ensures rs[i].End() <= rs[j].addr
    decreases j
  {
    assert rs[j].addr == rs[j - 1].End();
    if i < j - 1 {
      Ascending(rs, lo, hi, i, j - 1);
    }
  }

  // Every region lies inside the heap.
  lemma Bounds(rs: seq<Region>, lo: int, hi: int, i: int)
    requires Tiles(rs, lo, hi)
    requires 0 <= i < |rs|
    ensures lo <= rs[i].addr && rs[i].End() <= hi
    ensures i + 1 < |rs| ==> rs[i].End() < hi
    ensures i + 1 == |rs| <==> rs[i].End() >= hi
  {
    if 0 < i { Ascending(rs, lo, hi, 0, i); }
    if i < |rs| - 1 { Ascending(rs, lo, hi, i, |rs| - 1); }
  }

  // An address names at most one region.
  lemma SameAddr(rs: seq<Region>, lo: int, hi: int, i: int, j: int)
    requires Tiles(rs, lo, hi)
    requires 0 <= i < |rs| && 0 <= j < |rs| && rs[i].addr == rs[j].addr
    ensures i == j
  {
    if i < j { Ascending(rs, lo, hi, i, j); }
    if j < i { Ascending(rs, lo, hi, j, i); }
  }

  // The payloads and headers of two different regions never overlap.
  lemma RegionsDisjoint(h: Heap, lo: int, hi: int, a: Region, b: Region)
    requires Wf(h, lo, hi)
    requires a in h.regions && b in h.regions && a != b
    ensures a.End() <= b.addr || b.End() <= a.addr
    ensures lo <= a.addr && a.Payload() <= a.End() <= hi
  {
    var i :| 0 <= i < |h.regions| && h.regions[i] == a;
    var j :| 0 <= j < |h.regions| && h.regions[j] == b;
    if i < j { Ascending(h.regions, lo, hi, i, j); } else { Ascending(h.regions, lo, hi, j, i); }
    Bounds(h.regions, lo, hi, i);
  }

  // ------------------------------------------------------- free-list functions

  // Position of the first list node of size at least `need`; |order| if none.
  function FirstFit(order: seq<Region>, need: int): (i: nat)
    ensures i <= |order|
    ensures i < |order| ==> order[i].size >= need
    ensures forall j :: 0 <= j < i ==> order[j].size < need
  {
    if order == [] || order[0].size >= need then 0 else 1 + FirstFit(order[1..], need)
  }

  lemma FirstFitIs(order: seq<Region>, need: int, i: nat)
    requires i <= |order|
    requires i < |order| ==> order[i].size >= need
    requires forall j :: 0 <= j < i ==> order[j].size < need
    ensures FirstFit(order, need) == i
  {}

  lemma FirstFitNone(order: seq<Region>, need: int)
    ensures FirstFit(order, need) == |order| <==> forall r :: r in order ==> r.size < need
  {
    if FirstFit(order, need) < |order| { assert order[FirstFit(order, need)] in order; }
  }

  function Insert(order: seq<Region>, r: Region): (res: seq<Region>) {
    var i := FirstFit(order, r.size);
    order[..i] + [r] + order[i..]
  }

  function Remove(order: seq<Region>, i: nat): (res: seq<Region>)
    requires i < |order|
  {
    order[..i] + order[i + 1..]
  }

  // Position of a value in a sequence that holds it.
  function IndexOf(rs: seq<Region>, r: Region): (k: nat)
    requires r in rs
    ensures k < |rs| && rs[k] == r
    ensures forall j :: 0 <= j < k ==> rs[j] != r
  {
    if rs[0] == r then 0 else 1 + IndexOf(rs[1..], r)
  }

  function Without(order: seq<Region>, r: Region): (res: seq<Region>) {
    if r in order then Remove(order, IndexOf(order, r)) else order
  }

  // Where each node of the list sits after an insertion.
  lemma InsertAt(order: seq<Region>, r: Region, j: nat)
    requires j <= |order|
    ensures var i, res := FirstFit(order, r.size), Insert(order, r);
            && |res| == |order| + 1
            && res[j] == if j < i then order[j] else if j == i then r else order[j - 1]
  {}

  lemma InsertMembers(order: seq<Region>, r: Region)
    ensures forall x :: x in Insert(order, r) <==> x in order || x == r
  {
    var i := FirstFit(order, r.size);
    assert order == order[..i] + order[i..];
  }

  lemma InsertKeeps(order: seq<Region>, r: Region)
    requires Sorted(order) && Distinct(order)
    requires forall x :: x in order ==> x.addr != r.addr
    ensures Sorted(Insert(order, r)) && Distinct(Insert(order, r))
    ensures forall x :: x in Insert(order, r) <==> x in order || x == r
  {
    InsertMembers(order, r);
    var i, res := FirstFit(order, r.size), Insert(order, r);
    forall a, b | 0 <= a < b < |res| ensures res[a].size <= res[b].size && res[a].addr != res[b].addr {
      InsertAt(order, r, a);
      InsertAt(order, r, b);
    }
  }

  lemma RemoveKeeps(order: seq<Region>, i: nat)
    requires i < |order|
    requires Sorted(order) && Distinct(order)
    ensures Sorted(Remove(order, i)) && Distinct(Remove(order, i))
    ensures forall x :: x in Remove(order, i) <==> x in order && x != order[i]
    ensures forall x :: x in Remove(order, i) ==> x.addr != order[i].addr
  {
    var res := Remove(order, i);
    assert forall a :: 0 <= a < |res| ==> res[a] == order[if a < i then a else a + 1];
    forall x ensures x in res <==> x in order && x != order[i] {
      if x in order && x != order[i] {
        var k :| 0 <= k < |order| && order[k] == x;
        assert res[if k < i then k else k - 1] == x;
      }
    }
  }

  lemma WithoutKeeps(order: seq<Region>, r: Region)
    requires Sorted(order) && Distinct(order)
    ensures Sorted(Without(order, r)) && Distinct(Without(order, r))
    ensures forall x :: x in Without(order, r) <==> x in order && x != r
  {
    if r in order { RemoveKeeps(order, IndexOf(order, r)); }
  }

  // ------------------------------------------------------------ the operations

  function Init(lo: int, hi: int): Heap {
    var r := Region(lo, hi - lo - HDR, true);
    Heap([r], [r])
  }

  // What kmalloc leaves of the chosen region, and the block it cuts off its tail.
  function Kept(r: Region, n: int): Region { Region(r.addr, r.size - n - HDR, true) }
  function Carved(r: Region, n: int): Region { Region(r.addr + r.size - n, n, false) }

  function Splice(rs: seq<Region>, a: nat, b: nat, mid: seq<Region>): (res: seq<Region>)
    requires a <= b <= |rs|
  {
    rs[..a] + mid + rs[b..]
  }

  ghost predicate Fits(h: Heap, n: int) {
    FirstFit(h.order, n + HDR) < |h.order|
  }

  // The region kmalloc(n) chooses.
  function Chosen(h: Heap, n: int): (r: Region)
    requires Fits(h, n)
    ensures r in h.order && r.size >= n + HDR
  {
    h.order[FirstFit(h.order, n + HDR)]
  }

  function Malloc(h: Heap, n: int): (res: Heap)
    requires Fits(h, n)
    requires Chosen(h, n) in h.regions
  {
    var r := Chosen(h, n);
    var k := IndexOf(h.regions, r);
    Heap(Splice(h.regions, k, k + 1, [Kept(r, n), Carved(r, n)]),
         Insert(Remove(h.order, FirstFit(h.order, n + HDR)), Kept(r, n)))
  }

  // First and one-past-last index of the run of regions that freeing block k unifies.
  function From(rs: seq<Region>, k: nat): (a: nat)
    requires 0 < k < |rs|
  {
    if rs[k - 1].free then k - 1 else k
  }

  function Upto(rs: seq<Region>, k: nat): (b: nat)
    requires k < |rs|
  {
    if k + 1 < |rs| && rs[k + 1].free then k + 2 else k + 1
  }

  function Unified(rs: seq<Region>, k: nat): Region
    requires 0 < k < |rs|
  {
    var a := From(rs, k);
    Region(rs[a].addr, rs[Upto(rs, k) - 1].End() - HDR - rs[a].addr, true)
  }

  // The free list after the neighbours that are unified have been unlinked.
  function Unlinked(h: Heap, k: nat): seq<Region>
    requires 0 < k < |h.regions|
  {
    var rs := h.regions;
    var o := if rs[k - 1].free then Without(h.order, rs[k - 1]) else h.order;
    if k + 1 < |rs| && rs[k + 1].free then Without(o, rs[k + 1]) else o
  }

  function Free(h: Heap, k: nat): (res: Heap)
    requires 0 < k < |h.regions|
  {
    Heap(Splice(h.regions, From(h.regions, k), Upto(h.regions, k), [Unified(h.regions, k)]),
         Insert(Unlinked(h, k), Unified(h.regions, k)))
  }

  // ------------------------------------------------- the invariant is preserved

  lemma InitWf(lo: int, hi: int)
    requires lo + HDR <= hi
    ensures Wf(Init(lo, hi), lo, hi)
  {}

  // Where each region sits after a splice.
  lemma SpliceAt(rs: seq<Region>, a: nat, b: nat, mid: seq<Region>, i: nat)
    requires a <= b <= |rs| && i < a + |mid| + |rs| - b
    ensures var res := Splice(rs, a, b, mid);
            && |res| == a + |mid| + |rs| - b
            && res[i] == if i < a then rs[i] else if i < a + |mid| then mid[i - a] else rs[i - |mid| - a + b]
  {}

  lemma SpliceTiles(rs: seq<Region>, a: nat, b: nat, mid: seq<Region>, lo: int, hi: int)
    requires Tiles(rs, lo, hi)
    requires a < b <= |rs|
    requires Tiles(mid, rs[a].addr, rs[b - 1].End())
    ensures Tiles(Splice(rs, a, b, mid), lo, hi)
  {
    var res, m := Splice(rs, a, b, mid), |mid|;
    SpliceAt(rs, a, b, mid, 0);
    SpliceAt(rs, a, b, mid, |res| - 1);
    forall i | 0 <= i < |res| ensures res[i].size >= 0 { SpliceAt(rs, a, b, mid, i); }
    forall i, j | 0 <= i && j == i + 1 && j < |res| ensures res[j].addr == res[i].End() {
      SpliceAt(rs, a, b, mid, i);
      SpliceAt(rs, a, b, mid, j);
      if j == a { assert rs[a].addr == rs[a - 1].End(); }
      if j == a + m { assert rs[b].addr == rs[b - 1].End(); }
    }
  }

  lemma SpliceNoAdjacent(rs: seq<Region>, a: nat, b: nat, mid: seq<Region>)
    requires a < b <= |rs| && |mid| > 0
    requires NoAdjacentFree(rs) && NoAdjacentFree(mid)
    requires a > 0 ==> !Mergeable(rs[a - 1], mid[0])
    requires b < |rs| ==> !Mergeable(mid[|mid| - 1], rs[b])
    ensures NoAdjacentFree(Splice(rs, a, b, mid))
  {
    var res := Splice(rs, a, b, mid);
    forall i, j | 0 <= i && j == i + 1 && j < |res| ensures !Mergeable(res[i], res[j]) {
      SpliceAt(rs, a, b, mid, i);
      SpliceAt(rs, a, b, mid, j);
    }
  }

  // Each region occurs once.
  lemma OccursOnce(rs: seq<Region>, lo: int, hi: int, a: nat, b: nat, r: Region)
    requires Tiles(rs, lo, hi) && a < b <= |rs| && r in rs[a..b]
    ensures r !in rs[..a] && r !in rs[b..]
  {
    var i :| a <= i < b && rs[i] == r;
    forall j | 0 <= j < |rs| && !(a <= j < b) ensures rs[j] != r {
      if rs[j].addr == r.addr { SameAddr(rs, lo, hi, i, j); }
    }
  }

  // A splice swaps exactly the members rs[a..b] for those of mid.
  lemma SpliceMembers(rs: seq<Region>, a: nat, b: nat, mid: seq<Region>, lo: int, hi: int)
    requires Tiles(rs, lo, hi)
    requires a < b <= |rs|
    ensures forall r :: r in Splice(rs, a, b, mid) <==> (r in rs && r !in rs[a..b]) || r in mid
  {
    forall r ensures r in Splice(rs, a, b, mid) <==> (r in rs && r !in rs[a..b]) || r in mid {
      ThreeParts(rs, a, b, r);
      if r in rs[a..b] { OccursOnce(rs, lo, hi, a, b, r); }
    }
  }

  lemma ThreeParts(rs: seq<Region>, a: nat, b: nat, r: Region)
    requires a <= b <= |rs|
    ensures r in rs <==> r in rs[..a] || r in rs[a..b] || r in rs[b..]
  {
    if r in rs {
      var i :| 0 <= i < |rs| && rs[i] == r;
      if i < a { assert rs[..a][i] == r; } else if i < b { assert rs[a..b][i - a] == r; } else { assert rs[b..][i - b] == r; }
    }
  }

  // Where the chosen region sits among the physical regions.
  lemma ChosenRegion(h: Heap, n: int, lo: int, hi: int)
    requires Wf(h, lo, hi) && n >= 0 && Fits(h, n)
    ensures Chosen(h, n) in h.regions && Chosen(h, n).free
    ensures var k := IndexOf(h.regions, Chosen(h, n));
            k + 1 < |h.regions| ==> !h.regions[k + 1].free
  {
    assert Chosen(h, n) in h.order;
    var k := IndexOf(h.regions, Chosen(h, n));
    if k + 1 < |h.regions| {
      assert !(h.regions[k].free && h.regions[k + 1].free);
    }
  }

  lemma MallocMembers(h: Heap, n: int, lo: int, hi: int)
    requires Wf(h, lo, hi) && n >= 0 && Fits(h, n)
    requires Chosen(h, n) in h.regions
    ensures forall r :: r in Malloc(h, n).regions <==>
                (r in h.regions && r != Chosen(h, n)) || r == Kept(Chosen(h, n), n) || r == Carved(Chosen(h, n), n)
  {
    var rs, r := h.regions, Chosen(h, n);
    var k := IndexOf(rs, r);
    SpliceMembers(rs, k, k + 1, [Kept(r, n), Carved(r, n)], lo, hi);
    assert rs[k..k + 1] == [r];
  }

  lemma MallocRegions(h: Heap, n: int, lo: int, hi: int)
    requires Wf(h, lo, hi) && n >= 0 && Fits(h, n)
    requires Chosen(h, n) in h.regions
    ensures Tiles(Malloc(h, n).regions, lo, hi)
    ensures Malloc(h, n).regions[0].free
    ensures NoAdjacentFree(Malloc(h, n).regions)
  {
    ChosenRegion(h, n, lo, hi);
    var rs, r := h.regions, Chosen(h, n);
    var k := IndexOf(rs, r);
    var mid := [Kept(r, n), Carved(r, n)];
    assert Tiles(mid, r.addr, r.End());
    SpliceTiles(rs, k, k + 1, mid, lo, hi);
    if k > 0 { assert !Mergeable(rs[k - 1], rs[k]); }
    SpliceNoAdjacent(rs, k, k + 1, mid);
  }

  lemma MallocOrder(h: Heap, n: int, lo: int, hi: int)
    requires Wf(h, lo, hi) && n >= 0 && Fits(h, n)
    requires Chosen(h, n) in h.regions
    ensures Sorted(Malloc(h, n).order) && Distinct(Malloc(h, n).order)
    ensures forall r :: r in Malloc(h, n).order <==>
                (r in h.order && r != Chosen(h, n)) || r == Kept(Chosen(h, n), n)
  {
    var i := FirstFit(h.order, n + HDR);
    RemoveKeeps(h.order, i);
    InsertKeeps(Remove(h.order, i), Kept(Chosen(h, n), n));
  }

  lemma MallocWf(h: Heap, n: int, lo: int, hi: int)
    requires Wf(h, lo, hi) && n >= 0 && Fits(h, n)
    ensures Chosen(h, n) in h.regions
    ensures Wf(Malloc(h, n), lo, hi)
  {
    ChosenRegion(h, n, lo, hi);
    MallocRegions(h, n, lo, hi);
    MallocMembers(h, n, lo, hi);
    MallocOrder(h, n, lo, hi);
    var res := Malloc(h, n);
    forall x ensures x in res.order <==> x in res.regions && x.free {
      assert x in h.order <==> x in h.regions && x.free;
    }
  }

  // The run of regions unified by freeing block k.
  lemma UnifiedRun(h: Heap, k: nat, lo: int, hi: int)
    requires Wf(h, lo, hi) && 0 < k < |h.regions| && !h.regions[k].free
    ensures var rs, a, b := h.regions, From(h.regions, k), Upto(h.regions, k);
            && Tiles([Unified(rs, k)], rs[a].addr, rs[b - 1].End())
            && (a > 0 ==> !rs[a - 1].free) && (b < |rs| ==> !rs[b].free)
  {
    var rs, a, b := h.regions, From(h.regions, k), Upto(h.regions, k);
    if a < b - 1 { Ascending(rs, lo, hi, a, b - 1); }
    if a < k && a > 0 { assert !Mergeable(rs[a - 1], rs[a]); }
    if b > k + 1 && b < |rs| { assert !Mergeable(rs[b - 1], rs[b]); }
  }

  lemma UnifiedMembers(rs: seq<Region>, k: nat)
    requires 0 < k < |rs|
    ensures var a, b := From(rs, k), Upto(rs, k);
            forall x :: x in rs[a..b] <==>
                x == rs[k] || (rs[k - 1].free && x == rs[k - 1]) || (k + 1 < |rs| && rs[k + 1].free && x == rs[k + 1])
  {
    var a, b := From(rs, k), Upto(rs, k);
    assert rs[a..b] == rs[a..k] + [rs[k]] + rs[k + 1..b];
    assert rs[a..k] == if a < k then [rs[k - 1]] else [];
    assert rs[k + 1..b] == if k + 1 < b then [rs[k + 1]] else [];
  }

  lemma FreeRegions(h: Heap, k: nat, lo: int, hi: int)
    requires Wf(h, lo, hi) && 0 < k < |h.regions| && !h.regions[k].free
    ensures Tiles(Free(h, k).regions, lo, hi)
    ensures Free(h, k).regions[0].free
    ensures NoAdjacentFree(Free(h, k).regions)
    ensures forall r :: r in Free(h, k).regions <==>
                (r in h.regions && r !in h.regions[From(h.regions, k)..Upto(h.regions, k)]) || r == Unified(h.regions, k)
  {
    var rs, a, b, u := h.regions, From(h.regions, k), Upto(h.regions, k), Unified(h.regions, k);
    UnifiedRun(h, k, lo, hi);
    SpliceTiles(rs, a, b, [u], lo, hi);
    SpliceNoAdjacent(rs, a, b, [u]);
    SpliceMembers(rs, a, b, [u], lo, hi);
  }

  lemma UnlinkedKeeps(h: Heap, k: nat, lo: int, hi: int)
    requires Wf(h, lo, hi) && 0 < k < |h.regions| && !h.regions[k].free
    ensures Sorted(Unlinked(h, k)) && Distinct(Unlinked(h, k))
    ensures forall r :: r in Unlinked(h, k) <==>
                r in h.order && r !in h.regions[From(h.regions, k)..Upto(h.regions, k)]
  {
    var rs := h.regions;
    UnifiedMembers(rs, k);
    var o := if rs[k - 1].free then Without(h.order, rs[k - 1]) else h.order;
    WithoutKeeps(h.order, rs[k - 1]);
    if k + 1 < |rs| { WithoutKeeps(o, rs[k + 1]); }
    assert rs[k] !in h.order;
  }

  lemma AddrDiffers(rs: seq<Region>, lo: int, hi: int, r: Region, j: nat)
    requires Tiles(rs, lo, hi) && r in rs && j < |rs| && r != rs[j]
    ensures r.addr != rs[j].addr
  {
    var i :| 0 <= i < |rs| && rs[i] == r;
    if r.addr == rs[j].addr { SameAddr(rs, lo, hi, i, j); }
  }

  // A live block is not on the list.
  lemma BlockNotListed(h: Heap, k: nat, lo: int, hi: int)
    requires Wf(h, lo, hi) && k < |h.regions| && !h.regions[k].free
    ensures forall r :: r in h.order ==> r.addr != h.regions[k].addr
  {
    forall r | r in h.order ensures r.addr != h.regions[k].addr {
      AddrDiffers(h.regions, lo, hi, r, k);
    }
  }

  // What stays on the list lies outside the run being unified.
  lemma UnlinkedApart(h: Heap, k: nat, lo: int, hi: int)
    requires Wf(h, lo, hi) && 0 < k < |h.regions| && !h.regions[k].free
    ensures forall r :: r in Unlinked(h, k) ==>
              && r.addr != h.regions[From(h.regions, k)].addr && r.addr != h.regions[k].addr
              && (k + 1 < Upto(h.regions, k) ==> r.addr != h.regions[k + 1].addr)
  {
    UnlinkedKeeps(h, k, lo, hi);
    UnifiedMembers(h.regions, k);
    var rs, a, b := h.regions, From(h.regions, k), Upto(h.regions, k);
    forall r | r in Unlinked(h, k)
      ensures r.addr != rs[a].addr && r.addr != rs[k].addr && (k + 1 < b ==> r.addr != rs[k + 1].addr)
    {
      AddrDiffers(rs, lo, hi, r, a);
      AddrDiffers(rs, lo, hi, r, k);
      AddrDiffers(rs, lo, hi, r, b - 1);
    }
  }

  // The unified region is ready to be put on the list.
  lemma UnlinkedFresh(h: Heap, k: nat, lo: int, hi: int)
    requires Wf(h, lo, hi) && 0 < k < |h.regions| && !h.regions[k].free
    ensures Sorted(Unlinked(h, k)) && Distinct(Unlinked(h, k))
    ensures Unified(h.regions, k).addr == h.regions[From(h.regions, k)].addr
    ensures forall r :: r in Unlinked(h, k) ==> r.addr != Unified(h.regions, k).addr
  {
    UnlinkedKeeps(h, k, lo, hi);
    UnlinkedApart(h, k, lo, hi);
  }

  lemma FreeOrder(h: Heap, k: nat, lo: int, hi: int)
    requires Wf(h, lo, hi) && 0 < k < |h.regions| && !h.regions[k].free
    ensures Sorted(Free(h, k).order) && Distinct(Free(h, k).order)
    ensures forall r :: r in Free(h, k).order <==>
                (r in h.order && r !in h.regions[From(h.regions, k)..Upto(h.regions, k)]) || r == Unified(h.regions, k)
  {
    UnlinkedKeeps(h, k, lo, hi);
    UnlinkedFresh(h, k, lo, hi);
    InsertKeeps(Unlinked(h, k), Unified(h.regions, k));
  }

  lemma FreeWf(h: Heap, k: nat, lo: int, hi: int)
    requires Wf(h, lo, hi) && 0 < k < |h.regions| && !h.regions[k].free
    ensures Wf(Free(h, k), lo, hi)
  {
    FreeRegions(h, k, lo, hi);
    FreeOrder(h, k, lo, hi);
    var res := Free(h, k);
    forall x ensures x in res.order <==> x in res.regions && x.free {
      assert x in h.order <==> x in h.regions && x.free;
    }
  }
}
