/**
  kernel/malloc.c on the bytes of the heap.  Each method follows the C function
  of the same name statement by statement; pointers are addresses and NULL is 0.
 */
module KernelHeap {
  import opened Bytes
  import opened HeapLayout
  import opened HeaderMemory
  import opened HeapModel

  // -------------------------------------- what the headers in memory represent

  function NodeAt(order: seq<Region>, i: int): int {
    if 0 <= i < |order| then order[i].addr else 0
  }

  // The list from `head` visits exactly `order`.
  ghost predicate ListRep(hs: map<int, Header>, head: int, order: seq<Region>) {
    && head == NodeAt(order, 0)
    && (forall i :: 0 <= i < |order| ==>
          && order[i].addr > 0 && order[i].addr in hs
          && hs[order[i].addr].size == order[i].size
          && hs[order[i].addr].kind == REGION_FREE)
    && (forall i, j {:trigger order[i], NodeAt(order, j)} :: 0 <= i < |order| && j == i + 1 ==>
          hs[order[i].addr].link == NodeAt(order, j))
  }

  ghost predicate Named(rs: seq<Region>, a: int) {
    exists i :: 0 <= i < |rs| && rs[i].addr == a
  }

  function KindOf(r: Region): int { if r.free then REGION_FREE else REGION_ALLOC }

  // The headers are those of `rs`; an allocated one points to its physical
  // predecessor.
  ghost predicate RegionsRep(hs: map<int, Header>, rs: seq<Region>) {
    && (forall a {:trigger Named(rs, a)} :: a in hs ==> Named(rs, a))
    && (forall i :: 0 <= i < |rs| ==>
          && rs[i].addr in hs
          && hs[rs[i].addr].size == rs[i].size && hs[rs[i].addr].kind == KindOf(rs[i]))
    && (forall i, j :: 0 <= i && j == i + 1 && j < |rs| && !rs[j].free ==> hs[rs[j].addr].link == rs[i].addr)
  }

  // hs' differs from hs only in links of free headers.
  ghost predicate FreeLinksOnly(hs: map<int, Header>, hs': map<int, Header>) {
    && hs'.Keys == hs.Keys
    && forall a :: a in hs ==>
         && hs'[a].kind == hs[a].kind && hs'[a].size == hs[a].size
         && (hs[a].kind == REGION_ALLOC ==> hs'[a] == hs[a])
  }

  lemma ListRepAgrees(hs: map<int, Header>, hs': map<int, Header>, head: int, order: seq<Region>)
    requires ListRep(hs, head, order)
    requires forall r :: r in order ==> r.addr in hs' && hs'[r.addr] == hs[r.addr]
    ensures ListRep(hs', head, order)
  {}

  // Unlinking node i: one link (or the head) now skips it.
  lemma ListRepRemove(hs: map<int, Header>, hs': map<int, Header>, head': int, order: seq<Region>, i: nat)
    requires i < |order| && Distinct(order) && ListRep(hs, NodeAt(order, 0), order)
    requires i == 0 ==> hs' == hs && head' == NodeAt(order, 1)
    requires i > 0 ==>
               && head' == NodeAt(order, 0)
               && hs' == hs[order[i - 1].addr := hs[order[i - 1].addr].(link := NodeAt(order, i + 1))]
    ensures ListRep(hs', head', Remove(order, i))
  {
    var res := Remove(order, i);
    assert forall k :: 0 <= k < |res| ==> res[k] == order[if k < i then k else k + 1];
    forall a, b | 0 <= a < |res| && b == a + 1 ensures hs'[res[a].addr].link == NodeAt(res, b) {
      var a0 := if a < i then a else a + 1;
      assert hs[order[a0].addr].link == NodeAt(order, a0 + 1);
      if i > 0 && a != i - 1 { assert order[a0].addr != order[i - 1].addr; }
    }
  }

  // The headers after r has been linked in before node i.
  ghost predicate LinkedIn(hs: map<int, Header>, hs': map<int, Header>, head': int, order: seq<Region>, i: nat, r: Region)
    requires i <= |order| && r.addr in hs && forall k :: 0 <= k < |order| ==> order[k].addr in hs
  {
    if i == 0 then head' == r.addr && hs' == hs[r.addr := hs[r.addr].(link := NodeAt(order, i))]
    else
      && head' == NodeAt(order, 0)
      && var mid := hs[order[i - 1].addr := hs[order[i - 1].addr].(link := r.addr)];
         hs' == mid[r.addr := mid[r.addr].(link := NodeAt(order, i))]
  }

  // One node of the old list, after the insertion.
  lemma LinkedInOld(hs: map<int, Header>, hs': map<int, Header>, head': int, order: seq<Region>, i: nat, r: Region, k: nat)
    requires i <= |order| && k < |order| && Distinct(order) && ListRep(hs, NodeAt(order, 0), order) && r.addr in hs
    requires order[k].addr != r.addr && LinkedIn(hs, hs', head', order, i, r)
    ensures var x := order[k];
            && x.addr in hs' && hs'[x.addr].size == x.size && hs'[x.addr].kind == REGION_FREE
            && hs'[x.addr].link == if k + 1 == i then r.addr else NodeAt(order, k + 1)
  {
    assert hs[order[k].addr].link == NodeAt(order, k + 1);
    if i > 0 && k != i - 1 { assert order[k].addr != order[i - 1].addr; }
  }

  // Linking r in before node i.
  lemma ListRepInsert(hs: map<int, Header>, hs': map<int, Header>, head': int, order: seq<Region>, i: nat, r: Region)
    requires i <= |order| && Distinct(order) && ListRep(hs, NodeAt(order, 0), order)
    requires r.addr > 0 && r.addr in hs && hs[r.addr].size == r.size && hs[r.addr].kind == REGION_FREE
    requires forall x :: x in order ==> x.addr != r.addr
    requires LinkedIn(hs, hs', head', order, i, r)
    ensures ListRep(hs', head', order[..i] + [r] + order[i..])
  {
    var res := order[..i] + [r] + order[i..];
    forall k | 0 <= k < |order| ensures order[k].addr != r.addr { assert order[k] in order; }
    assert hs'[r.addr] == hs[r.addr].(link := NodeAt(order, i)) by {
      if i > 0 { assert order[i - 1].addr != r.addr; }
    }
    forall a | 0 <= a < |res|
      ensures res[a].addr > 0 && res[a].addr in hs' && hs'[res[a].addr].size == res[a].size
      ensures hs'[res[a].addr].kind == REGION_FREE && hs'[res[a].addr].link == NodeAt(res, a + 1)
    {
      if a < i { LinkedInOld(hs, hs', head', order, i, r, a); }
      if a > i { LinkedInOld(hs, hs', head', order, i, r, a - 1); }
    }
  }

  // ------------------------------------- the headers after kmalloc and kfree

  // Only the size of the header of r has changed, and links of free headers.
  ghost predicate Shrunk(hs: map<int, Header>, hs': map<int, Header>, r: Region, n: int) {
    && hs'.Keys == hs.Keys
    && forall a :: a in hs ==>
         && hs'[a].kind == hs[a].kind && hs'[a].size == (if a == r.addr then Kept(r, n).size else hs[a].size)
         && (hs[a].kind == REGION_ALLOC ==> hs'[a] == hs[a])
  }

  lemma ShrunkAfter(hs: map<int, Header>, hs1: map<int, Header>, hs': map<int, Header>, r: Region, n: int)
    requires FreeLinksOnly(hs, hs1) && Shrunk(hs1, hs', r, n)
    ensures Shrunk(hs, hs', r, n)
  {
    assert forall a :: a in hs <==> a in hs1;
  }

  // The headers kmalloc leaves in memory once the new block has been cut.
  ghost predicate Carving(hs: map<int, Header>, hs3: map<int, Header>, hs': map<int, Header>, rs: seq<Region>, k: nat, n: int)
    requires k < |rs|
  {
    var r := rs[k];
    var hd := Carved(r, n).addr;
    && Shrunk(hs, hs3, r, n) && r.addr in hs3
    && var mid := hs3[hd := Header(REGION_ALLOC, n, r.addr)];
       if k + 1 < |rs| then
         rs[k + 1].addr in mid && hs' == mid[rs[k + 1].addr := mid[rs[k + 1].addr].(link := hd)]
       else hs' == mid
  }

  lemma CarvingNames(hs: map<int, Header>, hs3: map<int, Header>, hs': map<int, Header>, rs: seq<Region>, k: nat, n: int)
    requires k < |rs| && RegionsRep(hs, rs) && Carving(hs, hs3, hs', rs, k, n)
    ensures var res := Splice(rs, k, k + 1, [Kept(rs[k], n), Carved(rs[k], n)]);
            forall a :: a in hs' ==> Named(res, a)
  {
    var r, res := rs[k], Splice(rs, k, k + 1, [Kept(rs[k], n), Carved(rs[k], n)]);
    forall a | a in hs' ensures Named(res, a) {
      if a == Carved(r, n).addr {
        assert res[k + 1].addr == a;
      } else {
        assert Named(rs, a);
        var i :| 0 <= i < |rs| && rs[i].addr == a;
        assert res[if i <= k then i else i + 1].addr == a;
      }
    }
  }

  lemma RegionsDistinct(rs: seq<Region>, lo: int, hi: int)
    requires Tiles(rs, lo, hi)
    ensures Distinct(rs)
  {
    forall i, j | 0 <= i < j < |rs| ensures rs[i].addr != rs[j].addr { Ascending(rs, lo, hi, i, j); }
  }

  // Region addresses are distinct, and none is the new block's.
  lemma CarvingFresh(rs: seq<Region>, k: nat, n: int, lo: int, hi: int)
    requires Tiles(rs, lo, hi) && k < |rs| && n >= 0 && rs[k].size >= n + HDR
    ensures Distinct(rs)
    ensures forall i :: 0 <= i < |rs| ==> rs[i].addr != Carved(rs[k], n).addr
  {
    RegionsDistinct(rs, lo, hi);
    forall i | 0 <= i < |rs| ensures rs[i].addr != Carved(rs[k], n).addr {
      if i < k { Ascending(rs, lo, hi, i, k); }
      if k < i { Ascending(rs, lo, hi, k, i); }
    }
  }

  // The header of an old region other than the chosen one, after kmalloc.
  lemma CarvingOther(hs: map<int, Header>, hs3: map<int, Header>, hs': map<int, Header>, rs: seq<Region>, k: nat, n: int, i: nat)
    requires k < |rs| && i < |rs| && i != k && Distinct(rs) && rs[i].addr != Carved(rs[k], n).addr
    requires k + 1 < |rs| ==> !rs[k + 1].free
    requires RegionsRep(hs, rs) && Carving(hs, hs3, hs', rs, k, n)
    ensures rs[i].addr in hs' && hs'[rs[i].addr].size == rs[i].size && hs'[rs[i].addr].kind == KindOf(rs[i])
    ensures !rs[i].free ==>
              hs'[rs[i].addr].link == if i == k + 1 then Carved(rs[k], n).addr else hs[rs[i].addr].link
  {
    assert rs[i].addr != rs[k].addr;
    if k + 1 < |rs| && i != k + 1 { assert rs[i].addr != rs[k + 1].addr; }
  }

  lemma CarvingNew(hs: map<int, Header>, hs3: map<int, Header>, hs': map<int, Header>, rs: seq<Region>, k: nat, n: int)
    requires k < |rs| && Distinct(rs) && rs[k].free
    requires forall i :: 0 <= i < |rs| ==> rs[i].addr != Carved(rs[k], n).addr
    requires RegionsRep(hs, rs) && Carving(hs, hs3, hs', rs, k, n)
    ensures rs[k].addr in hs' && hs'[rs[k].addr].size == Kept(rs[k], n).size && hs'[rs[k].addr].kind == REGION_FREE
    ensures var hd := Carved(rs[k], n).addr; hd in hs' && hs'[hd] == Header(REGION_ALLOC, n, rs[k].addr)
  {
    if k + 1 < |rs| { assert rs[k].addr != rs[k + 1].addr; }
  }

  lemma CarvingRep(hs: map<int, Header>, hs3: map<int, Header>, hs': map<int, Header>, rs: seq<Region>, k: nat, n: int, lo: int, hi: int)
    requires Tiles(rs, lo, hi) && k < |rs| && rs[k].free && (k + 1 < |rs| ==> !rs[k + 1].free)
    requires n >= 0 && rs[k].size >= n + HDR
    requires RegionsRep(hs, rs) && Carving(hs, hs3, hs', rs, k, n)
    ensures RegionsRep(hs', Splice(rs, k, k + 1, [Kept(rs[k], n), Carved(rs[k], n)]))
  {
    var r, blk := rs[k], Carved(rs[k], n);
    var res := Splice(rs, k, k + 1, [Kept(r, n), blk]);
    CarvingNames(hs, hs3, hs', rs, k, n);
    CarvingFresh(rs, k, n, lo, hi);
    CarvingNew(hs, hs3, hs', rs, k, n);
    forall i | 0 <= i < |res|
      ensures res[i].addr in hs' && hs'[res[i].addr].size == res[i].size && hs'[res[i].addr].kind == KindOf(res[i])
    {
      if i < k { CarvingOther(hs, hs3, hs', rs, k, n, i); }
      if i > k + 1 { CarvingOther(hs, hs3, hs', rs, k, n, i - 1); }
    }
    forall i, j | 0 <= i && j == i + 1 && j < |res| && !res[j].free ensures hs'[res[j].addr].link == res[i].addr {
      if j < k {
        CarvingOther(hs, hs3, hs', rs, k, n, j);
        assert hs[rs[j].addr].link == rs[i].addr;
      } else if j > k + 1 {
        CarvingOther(hs, hs3, hs', rs, k, n, j - 1);
        assert hs[rs[j - 1].addr].link == rs[i - 1].addr;
      }
    }
  }

  // The headers once freed block k has been unified with its free neighbours:
  // the absorbed headers are gone, the unified one has the size of the whole
  // run, and of the others only links of free headers have changed.
  ghost predicate Merged(hs: map<int, Header>, hs': map<int, Header>, rs: seq<Region>, k: nat)
    requires 0 < k < |rs|
  {
    var a, b := From(rs, k), Upto(rs, k);
    && (forall x :: x in hs' ==> x in hs)
    && (forall x :: x in hs && x !in hs' <==> (a < k && x == rs[k].addr) || (k + 1 < b && x == rs[k + 1].addr))
    && rs[a].addr in hs'
    && hs'[rs[a].addr].size == Unified(rs, k).size && hs'[rs[a].addr].kind == REGION_FREE
    && (forall x :: x in hs' && x != rs[a].addr ==>
          && hs'[x].size == hs[x].size && hs'[x].kind == hs[x].kind
          && (hs[x].kind == REGION_ALLOC ==> hs'[x] == hs[x]))
  }

  // kfree's last store: the region after the unified one points back to it.
  ghost predicate Relinked(hs: map<int, Header>, hs': map<int, Header>, rs: seq<Region>, k: nat)
    requires 0 < k < |rs|
  {
    var a, b := From(rs, k), Upto(rs, k);
    if b < |rs| then rs[b].addr in hs && hs' == hs[rs[b].addr := hs[rs[b].addr].(link := rs[a].addr)]
    else hs' == hs
  }

  // One header has taken over the bytes of the run; the absorbed ones are gone.
  ghost predicate Grown(hs: map<int, Header>, hs': map<int, Header>, rs: seq<Region>, k: nat)
    requires 0 < k < |rs|
  {
    var a, b := From(rs, k), Upto(rs, k);
    && rs[a].addr in hs
    && hs' == hs[rs[a].addr := hs[rs[a].addr].(size := Unified(rs, k).size)]
              - ((if a < k then {rs[k].addr} else {}) + (if k + 1 < b then {rs[k + 1].addr} else {}))
  }

  // kfree's stores one after the other amount to `Merged`.
  lemma MergedCompose(hs: map<int, Header>, hs1: map<int, Header>, hs2: map<int, Header>, hs3: map<int, Header>,
                      rs: seq<Region>, k: nat)
    requires 0 < k < |rs| && Distinct(rs) && RegionsRep(hs, rs)
    requires hs1 == hs[rs[k].addr := hs[rs[k].addr].(kind := REGION_FREE)]
    requires FreeLinksOnly(hs1, hs2) && Grown(hs2, hs3, rs, k)
    ensures Merged(hs, hs3, rs, k)
  {
    var a, b := From(rs, k), Upto(rs, k);
    if a < k { assert rs[a].addr != rs[k].addr; }
    if k + 1 < b { assert rs[a].addr != rs[k + 1].addr && rs[k].addr != rs[k + 1].addr; }
    assert hs3.Keys == hs.Keys - ((if a < k then {rs[k].addr} else {}) + (if k + 1 < b then {rs[k + 1].addr} else {}));
    assert hs3[rs[a].addr].size == Unified(rs, k).size;
  }

  lemma MergedLinks(hs: map<int, Header>, hs3: map<int, Header>, hs4: map<int, Header>, rs: seq<Region>, k: nat)
    requires 0 < k < |rs| && Merged(hs, hs3, rs, k) && FreeLinksOnly(hs3, hs4)
    ensures Merged(hs, hs4, rs, k)
  {
    assert forall x :: x in hs4 <==> x in hs3;
  }

  // Growing the unified header does not disturb the list of the others.
  lemma GrownList(hs: map<int, Header>, hs': map<int, Header>, head: int, rs: seq<Region>, k: nat, order: seq<Region>)
    requires 0 < k < |rs| && Grown(hs, hs', rs, k) && ListRep(hs, head, order)
    requires forall r :: r in order ==>
               && r.addr != rs[From(rs, k)].addr && r.addr != rs[k].addr
               && (k + 1 < Upto(rs, k) ==> r.addr != rs[k + 1].addr)
    ensures ListRep(hs', head, order)
  {
    ListRepAgrees(hs, hs', head, order);
  }

  lemma MergedNames(hs: map<int, Header>, hs3: map<int, Header>, hs': map<int, Header>, rs: seq<Region>, k: nat)
    requires 0 < k < |rs| && RegionsRep(hs, rs) && Merged(hs, hs3, rs, k) && Relinked(hs3, hs', rs, k)
    ensures var res := Splice(rs, From(rs, k), Upto(rs, k), [Unified(rs, k)]);
            forall x :: x in hs' ==> Named(res, x)
  {
    var a, b := From(rs, k), Upto(rs, k);
    var res := Splice(rs, a, b, [Unified(rs, k)]);
    forall x | x in hs' ensures Named(res, x) {
      assert Named(rs, x);
      var i :| 0 <= i < |rs| && rs[i].addr == x;
      if i < a {
        assert res[i].addr == x;
      } else if i < b {
        assert res[a].addr == rs[a].addr;
      } else {
        assert res[i - b + a + 1].addr == x;
      }
    }
  }

  // The header of a region outside the unified run.
  lemma MergedOther(hs: map<int, Header>, hs3: map<int, Header>, hs': map<int, Header>, rs: seq<Region>, k: nat, i: nat)
    requires 0 < k < |rs| && i < |rs| && !(From(rs, k) <= i < Upto(rs, k)) && Distinct(rs)
    requires RegionsRep(hs, rs) && Merged(hs, hs3, rs, k) && Relinked(hs3, hs', rs, k)
    ensures rs[i].addr in hs' && hs'[rs[i].addr].size == rs[i].size && hs'[rs[i].addr].kind == KindOf(rs[i])
    ensures !rs[i].free ==>
              hs'[rs[i].addr].link == if i == Upto(rs, k) then rs[From(rs, k)].addr else hs[rs[i].addr].link
  {
    var a, b := From(rs, k), Upto(rs, k);
    assert rs[i].addr != rs[a].addr && rs[i].addr != rs[k].addr;
    if k + 1 < b { assert rs[i].addr != rs[k + 1].addr; }
    if b < |rs| && i != b { assert rs[i].addr != rs[b].addr; }
  }

  lemma MergedRep(hs: map<int, Header>, hs3: map<int, Header>, hs': map<int, Header>, rs: seq<Region>, k: nat)
    requires 0 < k < |rs| && Distinct(rs)
    requires RegionsRep(hs, rs) && Merged(hs, hs3, rs, k) && Relinked(hs3, hs', rs, k)
    ensures RegionsRep(hs', Splice(rs, From(rs, k), Upto(rs, k), [Unified(rs, k)]))
  {
    var a, b := From(rs, k), Upto(rs, k);
    var res := Splice(rs, a, b, [Unified(rs, k)]);
    MergedNames(hs, hs3, hs', rs, k);
    if b < |rs| { assert rs[b].addr != rs[a].addr; }
    forall i | 0 <= i < |res|
      ensures res[i].addr in hs' && hs'[res[i].addr].size == res[i].size && hs'[res[i].addr].kind == KindOf(res[i])
    {
      if i < a { MergedOther(hs, hs3, hs', rs, k, i); }
      if i > a { MergedOther(hs, hs3, hs', rs, k, i - a - 1 + b); }
    }
    forall i, j | 0 <= i && j == i + 1 && j < |res| && !res[j].free ensures hs'[res[j].addr].link == res[i].addr {
      if j < a {
        MergedOther(hs, hs3, hs', rs, k, j);
        assert hs[rs[j].addr].link == rs[i].addr;
      } else if j > a {
        var j0 := j - a - 1 + b;
        MergedOther(hs, hs3, hs', rs, k, j0);
        if j0 != b { assert hs[rs[j0].addr].link == rs[j0 - 1].addr; }
      }
    }
  }

  // ------------------------------------------------------ payloads are not written

  // A header store at a falls on no live payload: it is on the header of a
  // region, or inside a free region.
  ghost predicate Harmless(rs: seq<Region>, a: int) {
    || Named(rs, a)
    || exists c :: c in rs && c.free && c.Payload() <= a && a + HDR <= c.End()
  }

  lemma StoreMissesPayload(h: Heap, lo: int, hi: int, a: int, b: Region, x: int)
    requires Wf(h, lo, hi) && Harmless(h.regions, a)
    requires b in h.regions && !b.free && b.Payload() <= x < b.End()
    ensures !(a <= x < a + HDR)
  {
    if Named(h.regions, a) {
      var i :| 0 <= i < |h.regions| && h.regions[i].addr == a;
      var j :| 0 <= j < |h.regions| && h.regions[j] == b;
      if i < j { Ascending(h.regions, lo, hi, i, j); }
      if j < i { Ascending(h.regions, lo, hi, j, i); }
      assert h.regions[i].size >= 0;
    } else {
      var c :| c in h.regions && c.free && c.Payload() <= a && a + HDR <= c.End();
      RegionsDisjoint(h, lo, hi, b, c);
    }
  }

  // The bytes of block b's payload.
  ghost function PayloadOf(m: seq<byte>, lo: int, b: Region): seq<byte>
    requires lo <= b.Payload() <= b.End() <= lo + |m|
  {
    m[b.Payload() - lo..b.End() - lo]
  }

  // The payload of every live block reads the same in m and m'.
  ghost predicate PayloadsKept(rs: seq<Region>, m: seq<byte>, m': seq<byte>, lo: int) {
    && |m'| == |m|
    && forall b :: b in rs && !b.free ==>
         lo <= b.Payload() <= b.End() <= lo + |m| && PayloadOf(m', lo, b) == PayloadOf(m, lo, b)
  }

  class KernelHeap {
    const lo: int
    const hi: int
    const mem: Memory
    var indexHead: int
    ghost var h: Heap

    ghost predicate Ready()
      reads this, mem
    {
      mem.Valid() && mem.base == lo && |mem.bytes| == hi - lo && hi < WORD
    }

    ghost predicate Valid()
      reads this, mem
    {
      && Ready()
      && Wf(h, lo, hi)
      && RegionsRep(mem.headers, h.regions)
      && ListRep(mem.headers, indexHead, h.order)
    }

    // init_heap
    constructor (lo: int, hi: int)
      requires 0 < lo && lo + HDR <= hi < WORD
      ensures Valid() && fresh(mem)
      ensures this.lo == lo && this.hi == hi && h == Init(lo, hi)
    {
      this.lo, this.hi := lo, hi;
      mem := new Memory(lo, hi - lo);
      indexHead := lo;
      h := Init(lo, hi);
      new;
      mem.Create(lo, REGION_FREE, hi - lo - HDR, 0);
      InitWf(lo, hi);
      assert Named(h.regions, lo) by { assert h.regions[0].addr == lo; }
    }

    // What the bytes at a region's address say, field by field.
    lemma RegionBytes(k: nat)
      requires Valid() && k < |h.regions|
      ensures var r, m := h.regions[k], mem.bytes;
              var i := r.addr - lo;
              && 0 <= i && i + 12 <= |m| && m[i] == (if r.free then 0 else 1)
              && (m[i + 4] as int) + 256 * (m[i + 5] as int) + 65536 * (m[i + 6] as int) + 16777216 * (m[i + 7] as int) == r.size
              && (k > 0 && !r.free ==>
                    (m[i + 8] as int) + 256 * (m[i + 9] as int) + 65536 * (m[i + 10] as int) + 16777216 * (m[i + 11] as int)
                    == h.regions[k - 1].addr)
    {
      var a := h.regions[k].addr;
      assert Encodes(mem.bytes, lo, a, mem.headers[a]);
      HeaderBytes(mem.bytes, lo, a, mem.headers[a]);
      if k > 0 { assert h.regions[k - 1].addr in mem.headers; }
    }

    // ... and at a free one's: the next of the list, or 0.
    lemma ListBytes(k: nat)
      requires Valid() && k < |h.order|
      ensures indexHead == h.order[0].addr
      ensures var m, i := mem.bytes, h.order[k].addr - lo;
              && 0 <= i && i + 12 <= |m|
              && (m[i + 8] as int) + 256 * (m[i + 9] as int) + 65536 * (m[i + 10] as int) + 16777216 * (m[i + 11] as int)
                 == if k + 1 < |h.order| then h.order[k + 1].addr else 0
    {
      var a := h.order[k].addr;
      assert Encodes(mem.bytes, lo, a, mem.headers[a]);
      HeaderBytes(mem.bytes, lo, a, mem.headers[a]);
      assert mem.headers[a].link == NodeAt(h.order, k + 1);
    }

    method AddFreeRegion(prev: int, next: int, new_: int)
      requires Ready() && new_ in mem.headers && 0 <= next < WORD && 0 < new_ < WORD
      requires prev != 0 ==> prev in mem.headers
      modifies this`indexHead, mem
      ensures Ready()
      ensures mem.marked == old(mem.marked) && mem.stores <= old(mem.stores) + mem.headers.Keys
      ensures prev == 0 ==>
                && indexHead == new_
                && mem.headers == old(mem.headers)[new_ := old(mem.headers)[new_].(link := next)]
      ensures prev != 0 ==>
                && indexHead == old(indexHead)
                && var mid := old(mem.headers)[prev := old(mem.headers)[prev].(link := new_)];
                   mem.headers == mid[new_ := mid[new_].(link := next)]
    {
      if prev == 0 {
        indexHead := new_;
      } else {
        mem.SetLink(prev, new_);
      }
      mem.SetLink(new_, next);
    }

    method DelFreeRegion(prev: int, deleted: int)
      requires Ready() && (deleted != 0 ==> deleted in mem.headers)
      requires prev != 0 ==> prev in mem.headers
      modifies this`indexHead, mem
      ensures Ready()
      ensures mem.marked == old(mem.marked) && mem.stores <= old(mem.stores) + mem.headers.Keys
      ensures deleted == 0 ==> mem.headers == old(mem.headers) && indexHead == old(indexHead) && mem.bytes == old(mem.bytes)
      ensures deleted != 0 && prev == 0 ==>
                mem.headers == old(mem.headers) && indexHead == old(mem.headers)[deleted].link
      ensures deleted != 0 && prev != 0 ==>
                && indexHead == old(indexHead)
                && mem.headers == old(mem.headers)[prev := old(mem.headers)[prev].(link := old(mem.headers)[deleted].link)]
    {
      if deleted == 0 {
        return;
      }
      var next := mem.Link(deleted);
      if prev != 0 {
        mem.SetLink(prev, next);
      } else {
        indexHead := next;
      }
    }

    // Unlinks node i of the list; `prev` is the node before it, or 0.
    method Unlink(prev: int, deleted: int, ghost order: seq<Region>, ghost i: nat)
      requires Ready() && ListRep(mem.headers, indexHead, order) && Distinct(order)
      requires i < |order| && deleted == order[i].addr && prev == NodeAt(order, i - 1)
      modifies this`indexHead, mem
      ensures Ready() && ListRep(mem.headers, indexHead, Remove(order, i))
      ensures FreeLinksOnly(old(mem.headers), mem.headers)
      ensures mem.marked == old(mem.marked) && mem.stores <= old(mem.stores) + mem.headers.Keys
    {
      ghost var hs := mem.headers;
      assert hs[deleted].link == NodeAt(order, i + 1);
      DelFreeRegion(prev, deleted);
      ListRepRemove(hs, mem.headers, indexHead, order, i);
    }

    // The search of search_and_add_free_region: the first node not smaller than
    // r, and the node before it.
    method FindPlace(new_: int, ghost order: seq<Region>, ghost r: Region) returns (prev: int, cur: int, ghost i: nat)
      requires Ready() && ListRep(mem.headers, indexHead, order)
      requires new_ in mem.headers && mem.headers[new_].size == r.size
      ensures i == FirstFit(order, r.size) && cur == NodeAt(order, i) && prev == NodeAt(order, i - 1)
      ensures 0 <= cur < WORD && (prev != 0 ==> prev in mem.headers)
    {
      prev, cur := 0, indexHead;
      i := 0;
      while cur != 0
        invariant 0 <= i <= |order| && cur == NodeAt(order, i) && prev == NodeAt(order, i - 1)
        invariant forall j :: 0 <= j < i ==> order[j].size < r.size
        decreases |order| - i
      {
        var curSize := mem.Size(cur);
        var newSize := mem.Size(new_);
        if curSize >= newSize {
          break;
        }
        prev := cur;
        assert mem.headers[order[i].addr].link == NodeAt(order, i + 1);
        cur := mem.Link(cur);
        i := i + 1;
      }
      FirstFitIs(order, r.size, i);
      if cur != 0 { mem.InRange(cur); }
    }

    method SearchAndAddFreeRegion(new_: int, ghost order: seq<Region>, ghost r: Region)
      requires Ready() && ListRep(mem.headers, indexHead, order) && Distinct(order)
      requires r.addr == new_ && 0 < new_ < WORD && new_ in mem.headers
      requires mem.headers[new_].size == r.size && mem.headers[new_].kind == REGION_FREE
      requires forall x :: x in order ==> x.addr != new_
      modifies this`indexHead, mem
      ensures Ready() && ListRep(mem.headers, indexHead, Insert(order, r))
      ensures FreeLinksOnly(old(mem.headers), mem.headers)
      ensures mem.marked == old(mem.marked) && mem.stores <= old(mem.stores) + mem.headers.Keys
    {
      var prev, cur;
      ghost var i;
      prev, cur, i := FindPlace(new_, order, r);
      ghost var hs := mem.headers;
      AddFreeRegion(prev, cur, new_);
      ListRepInsert(hs, mem.headers, indexHead, order, i, r);
    }

    method AddAllocRegion(addr: int)
      requires Ready() && addr in mem.headers && 0 <= addr < WORD
      requires var next := addr + mem.headers[addr].size + HDR; next < hi ==> next in mem.headers
      modifies mem
      ensures Ready() && mem.marked == old(mem.marked) && mem.stores <= old(mem.stores) + mem.headers.Keys
      ensures var next := addr + old(mem.headers)[addr].size + HDR;
              mem.headers == if next < hi && old(mem.headers)[next].kind != REGION_FREE
                             then old(mem.headers)[next := old(mem.headers)[next].(link := addr)]
                             else old(mem.headers)
    {
      var size := mem.Size(addr);
      var next := addr + size + HDR;
      if next >= hi {
        return;
      }
      var kind := mem.Kind(next);
      if kind == REGION_FREE {
        return;
      }
      mem.SetLink(next, addr);
    }

    lemma LivePayloadsKept(g: Heap)
      requires Ready() && Wf(g, lo, hi)
      requires forall a :: a in mem.stores ==> Harmless(g.regions, a)
      ensures PayloadsKept(g.regions, mem.marked, mem.bytes, lo)
    {
      forall b | b in g.regions && !b.free
        ensures lo <= b.Payload() <= b.End() <= hi && PayloadOf(mem.bytes, lo, b) == PayloadOf(mem.marked, lo, b)
      {
        RegionsDisjoint(g, lo, hi, b, g.regions[0]);
        forall i | b.Payload() - lo <= i < b.End() - lo ensures mem.bytes[i] == mem.marked[i] {
          forall a | a in mem.stores ensures !(a <= lo + i < a + HDR) {
            StoreMissesPayload(g, lo, hi, a, b, lo + i);
          }
          mem.ByteKept(lo + i);
        }
      }
    }

    // The first node of the free list with room for the request, and the node
    // before it.
    method FindFit(size: int) returns (prev: int, cur: int, ghost i: nat)
      requires Valid() && 0 <= size < WORD
      ensures i == FirstFit(h.order, Wrap(size + HDR)) && cur == NodeAt(h.order, i) && prev == NodeAt(h.order, i - 1)
      ensures cur == 0 <==> forall r :: r in h.order ==> r.size < Wrap(size + HDR)
      ensures size + HDR < WORD ==> (cur == 0 <==> !Fits(h, size))
    {
      var need := Wrap(size + HDR);
      prev, cur, i := FindNeed(need);
      FirstFitNone(h.order, need);
    }

    // The search for the first free region of at least `need` bytes.
    method FindNeed(need: int) returns (prev: int, cur: int, ghost i: nat)
      requires Valid()
      ensures i == FirstFit(h.order, need) && cur == NodeAt(h.order, i) && prev == NodeAt(h.order, i - 1)
      ensures cur == 0 <==> i == |h.order|
    {
      prev, cur := 0, indexHead;
      i := 0;
      while cur != 0
        invariant 0 <= i <= |h.order| && cur == NodeAt(h.order, i) && prev == NodeAt(h.order, i - 1)
        invariant forall j :: 0 <= j < i ==> h.order[j].size < need
        decreases |h.order| - i
      {
        var curSize := mem.Size(cur);
        if curSize >= need {
          break;
        }
        prev := cur;
        assert mem.headers[h.order[i].addr].link == NodeAt(h.order, i + 1);
        cur := mem.Link(cur);
        i := i + 1;
      }
      FirstFitIs(h.order, need, i);
    }

    // Shrinks an unlisted free region by the request and puts it back where its
    // new size belongs.
    method Resize(cur: int, size: int, ghost rest: seq<Region>, ghost r: Region)
      requires Ready() && ListRep(mem.headers, indexHead, rest) && Distinct(rest)
      requires cur == r.addr && cur in mem.headers && mem.headers[cur].kind == REGION_FREE
      requires mem.headers[cur].size == r.size && 0 <= size && r.size >= size + HDR
      requires forall x :: x in rest ==> x.addr != cur
      modifies this`indexHead, mem
      ensures Ready() && ListRep(mem.headers, indexHead, Insert(rest, Kept(r, size)))
      ensures Shrunk(old(mem.headers), mem.headers, r, size)
      ensures mem.marked == old(mem.marked) && mem.stores <= old(mem.stores) + mem.headers.Keys
    {
      ghost var hs := mem.headers;
      mem.InRange(cur);
      var curSize := mem.Size(cur);
      mem.SetSize(cur, curSize - size - HDR);
      ListRepAgrees(hs, mem.headers, indexHead, rest);
      SearchAndAddFreeRegion(cur, rest, Kept(r, size));
    }

    // Takes node i off the list, shrinks it and puts it back.
    method Shrink(prev: int, cur: int, size: int, ghost i: nat)
      requires Valid() && 0 <= size && size + HDR < WORD
      requires i < |h.order| && cur == h.order[i].addr && prev == NodeAt(h.order, i - 1) && h.order[i].size >= size + HDR
      modifies this`indexHead, mem
      ensures Ready() && mem.headers.Keys == old(mem.headers).Keys
      ensures mem.marked == old(mem.marked) && mem.stores <= old(mem.stores) + mem.headers.Keys
      ensures ListRep(mem.headers, indexHead, Insert(Remove(h.order, i), Kept(h.order[i], size)))
      ensures Shrunk(old(mem.headers), mem.headers, h.order[i], size)
    {
      RemoveKeeps(h.order, i);
      ghost var hs := mem.headers;
      Unlink(prev, cur, h.order, i);
      ghost var hs1 := mem.headers;
      Resize(cur, size, Remove(h.order, i), h.order[i]);
      ShrunkAfter(hs, hs1, mem.headers, h.order[i], size);
    }

    method KMalloc(size: int) returns (p: int)
      requires Valid() && 0 <= size && size + HDR < WORD
      modifies this`indexHead, this`h, mem
      ensures Valid()
      ensures p == 0 <==> !Fits(old(h), size)
      ensures p == 0 ==> h == old(h) && indexHead == old(indexHead) && mem.bytes == old(mem.bytes)
      ensures p != 0 ==>
                && Chosen(old(h), size) in old(h).regions
                && h == Malloc(old(h), size)
                && p == Carved(Chosen(old(h), size), size).Payload()
      ensures PayloadsKept(old(h).regions, old(mem.bytes), mem.bytes, lo)
    {
      mem.Mark();
      var prev, cur;
      ghost var i;
      prev, cur, i := FindFit(size);
      if cur == 0 {
        LivePayloadsKept(h);
        return 0;
      }
      p := TakeBlock(prev, cur, size, i);
      h := Malloc(h, size);
    }

    // A caller's store into the block b it holds: the heap is as it was, and no
    // other byte changes.
    method StoreByte(ptr: int, off: nat, v: byte, ghost b: Region)
      requires Valid() && b in h.regions && !b.free && ptr == b.Payload() && off < b.size
      modifies mem
      ensures Valid() && lo <= ptr + off < hi
      ensures mem.bytes == old(mem.bytes)[ptr + off - lo := v]
    {
      RegionsDisjoint(h, lo, hi, b, h.regions[0]);
      forall a | a in mem.headers ensures !(a <= ptr + off < a + HDR) {
        assert Named(h.regions, a);
        StoreMissesPayload(h, lo, hi, a, b, ptr + off);
      }
      mem.Poke(ptr + off, v);
    }

    // kmalloc once it has found a region that is large enough.
    method TakeBlock(prev: int, cur: int, size: int, ghost i: nat) returns (p: int)
      requires Valid() && 0 <= size && size + HDR < WORD && Fits(h, size) && i == FirstFit(h.order, size + HDR)
      requires cur == h.order[i].addr && prev == NodeAt(h.order, i - 1) && mem.stores == {}
      modifies this`indexHead, mem
      ensures Ready() && p > 0
      ensures Chosen(h, size) in h.regions && p == Carved(Chosen(h, size), size).Payload()
      ensures Wf(Malloc(h, size), lo, hi)
      ensures RegionsRep(mem.headers, Malloc(h, size).regions) && ListRep(mem.headers, indexHead, Malloc(h, size).order)
      ensures PayloadsKept(h.regions, old(mem.marked), mem.bytes, lo)
    {
      ghost var hs := mem.headers;
      ChosenRegion(h, size, lo, hi);
      ghost var k := IndexOf(h.regions, h.order[i]);
      Bounds(h.regions, lo, hi, k);
      CarvedHarmless(hs, h, k, size);
      var allocHd;
      ghost var hs3;
      allocHd, hs3 := ShrinkAndCut(prev, cur, size, i, k);
      MallocDone(hs, hs3, mem.headers, indexHead, k, size);
      LivePayloadsKept(h);
      p := allocHd + HDR;
    }

    method ShrinkAndCut(prev: int, cur: int, size: int, ghost i: nat, ghost k: nat) returns (allocHd: int, ghost hs3: map<int, Header>)
      requires Valid() && 0 <= size && size + HDR < WORD
      requires i < |h.order| && cur == h.order[i].addr && prev == NodeAt(h.order, i - 1) && h.order[i].size >= size + HDR
      requires k < |h.regions| && h.regions[k] == h.order[i] && h.regions[k].free
      requires k + 1 < |h.regions| ==> !h.regions[k + 1].free
      modifies this`indexHead, mem
      ensures Ready() && mem.marked == old(mem.marked)
      ensures allocHd == Carved(h.regions[k], size).addr
      ensures Carving(old(mem.headers), hs3, mem.headers, h.regions, k, size)
      ensures ListRep(hs3, indexHead, Insert(Remove(h.order, i), Kept(h.order[i], size)))
      ensures forall a :: a in mem.stores ==> a in old(mem.stores) || a in old(mem.headers) || a == allocHd
    {
      ghost var hs := mem.headers;
      Shrink(prev, cur, size, i);
      hs3 := mem.headers;
      allocHd := CutBlock(cur, size, hs, k);
    }

    // Writes the new block's header and the next header's back link.
    method CutBlock(cur: int, size: int, ghost hs: map<int, Header>, ghost k: nat) returns (allocHd: int)
      requires Ready() && Wf(h, lo, hi) && RegionsRep(hs, h.regions)
      requires k < |h.regions| && h.regions[k].free && (k + 1 < |h.regions| ==> !h.regions[k + 1].free)
      requires cur == h.regions[k].addr && 0 <= size && h.regions[k].size >= size + HDR
      requires Shrunk(hs, mem.headers, h.regions[k], size)
      modifies mem
      ensures Ready() && mem.marked == old(mem.marked)
      ensures allocHd == Carved(h.regions[k], size).addr
      ensures Carving(hs, old(mem.headers), mem.headers, h.regions, k, size)
      ensures mem.stores <= old(mem.stores) + old(mem.headers).Keys + {allocHd}
    {
      Bounds(h.regions, lo, hi, k);
      var kept := mem.Size(cur);
      allocHd := cur + kept + HDR;
      CarvedApart(hs, h, k, size);
      mem.Create(allocHd, REGION_ALLOC, size, cur);
      if k + 1 < |h.regions| { assert h.regions[k + 1].addr == h.regions[k].End(); }
      AddAllocRegion(allocHd);
    }

    // After the cut the list is still the one `Shrink` left.
    lemma CutList(hs: map<int, Header>, hs3: map<int, Header>, hs': map<int, Header>, head: int, k: nat, n: int, order: seq<Region>)
      requires Wf(h, lo, hi) && RegionsRep(hs, h.regions)
      requires k < |h.regions| && h.regions[k].size >= n + HDR && n >= 0 && (k + 1 < |h.regions| ==> !h.regions[k + 1].free)
      requires Carving(hs, hs3, hs', h.regions, k, n) && ListRep(hs3, head, order)
      ensures ListRep(hs', head, order)
    {
      CarvedApart(hs, h, k, n);
      forall r | r in order ensures r.addr in hs' && hs'[r.addr] == hs3[r.addr] {
        assert Apart(Carved(h.regions[k], n).addr, r.addr);
      }
      ListRepAgrees(hs3, hs', head, order);
    }

    // The headers in memory after the cut represent Malloc(h, n).
    lemma MallocDone(hs: map<int, Header>, hs3: map<int, Header>, hs': map<int, Header>, head: int, k: nat, n: int)
      requires Wf(h, lo, hi) && RegionsRep(hs, h.regions) && n >= 0 && Fits(h, n)
      requires Chosen(h, n) in h.regions && k == IndexOf(h.regions, Chosen(h, n))
      requires Carving(hs, hs3, hs', h.regions, k, n)
      requires ListRep(hs3, head, Malloc(h, n).order)
      ensures Wf(Malloc(h, n), lo, hi)
      ensures RegionsRep(hs', Malloc(h, n).regions) && ListRep(hs', head, Malloc(h, n).order)
    {
      ChosenRegion(h, n, lo, hi);
      CarvingRep(hs, hs3, hs', h.regions, k, n, lo, hi);
      CutList(hs, hs3, hs', head, k, n, Malloc(h, n).order);
      MallocWf(h, n, lo, hi);
    }

    // No header in use overlaps the slot of the block being cut.
    lemma CarvedApart(hs: map<int, Header>, g: Heap, k: nat, n: int)
      requires Wf(g, lo, hi) && RegionsRep(hs, g.regions)
      requires k < |g.regions| && n >= 0 && g.regions[k].size >= n + HDR
      ensures forall b :: b in hs ==> Apart(Carved(g.regions[k], n).addr, b)
    {
      forall b | b in hs ensures Apart(Carved(g.regions[k], n).addr, b) {
        assert Named(g.regions, b);
        var i :| 0 <= i < |g.regions| && g.regions[i].addr == b;
        assert g.regions[i].size >= 0;
        if i < k { Ascending(g.regions, lo, hi, i, k); }
        if k < i { Ascending(g.regions, lo, hi, k, i); }
      }
    }

    lemma CarvedHarmless(hs: map<int, Header>, g: Heap, k: nat, n: int)
      requires RegionsRep(hs, g.regions)
      requires k < |g.regions| && g.regions[k].free && n >= 0 && g.regions[k].size >= n + HDR
      ensures forall a :: a in hs || a == Carved(g.regions[k], n).addr ==> Harmless(g.regions, a)
    {
      forall a | a in hs ensures Harmless(g.regions, a) { assert Named(g.regions, a); }
      assert g.regions[k] in g.regions;
    }

    // kfree's search for a node known to be on the list, and its removal.
    method FindAndUnlink(target: int, ghost order: seq<Region>, ghost r: Region)
      requires Ready() && ListRep(mem.headers, indexHead, order) && Distinct(order)
      requires r in order && target == r.addr
      modifies this`indexHead, mem
      ensures Ready() && ListRep(mem.headers, indexHead, Without(order, r))
      ensures FreeLinksOnly(old(mem.headers), mem.headers)
      ensures mem.marked == old(mem.marked) && mem.stores <= old(mem.stores) + mem.headers.Keys
    {
      var it1, it2 := 0, indexHead;
      ghost var i, t := 0, IndexOf(order, r);
      while it2 != target
        invariant 0 <= i <= t && it2 == NodeAt(order, i) && it1 == NodeAt(order, i - 1)
        decreases t - i
        modifies {}
      {
        assert mem.headers[order[i].addr].link == NodeAt(order, i + 1);
        it1 := it2;
        it2 := mem.Link(it2);
        i := i + 1;
      }
      assert i == t;
      Unlink(it1, it2, order, i);
    }

    // The free physical neighbours of block k; 0 for one that is not free or
    // does not exist.
    method FreeNeighbours(header: int, ghost k: nat) returns (prev: int, next: int)
      requires Valid() && 0 < k < |h.regions| && !h.regions[k].free && header == h.regions[k].addr
      ensures prev == if h.regions[k - 1].free then h.regions[k - 1].addr else 0
      ensures next == if k + 1 < |h.regions| && h.regions[k + 1].free then h.regions[k + 1].addr else 0
    {
      Bounds(h.regions, lo, hi, k);
      if k + 1 < |h.regions| { assert h.regions[k + 1].addr == h.regions[k].End(); }
      prev := mem.Link(header);
      assert prev == h.regions[k - 1].addr;
      var size := mem.Size(header);
      next := header + size + HDR;
      if next >= hi {
        next := 0;
      } else {
        var kind := mem.Kind(next);
        if kind == REGION_ALLOC {
          next := 0;
        }
      }
      var kind := mem.Kind(prev);
      if kind == REGION_ALLOC {
        prev := 0;
      }
    }

    // Takes the free neighbours of block k off the list.
    method UnlinkNeighbours(prev: int, next: int, ghost k: nat)
      requires Ready() && Wf(h, lo, hi) && 0 < k < |h.regions| && !h.regions[k].free
      requires ListRep(mem.headers, indexHead, h.order)
      requires prev == if h.regions[k - 1].free then h.regions[k - 1].addr else 0
      requires next == if k + 1 < |h.regions| && h.regions[k + 1].free then h.regions[k + 1].addr else 0
      modifies this`indexHead, mem
      ensures Ready() && ListRep(mem.headers, indexHead, Unlinked(h, k))
      ensures FreeLinksOnly(old(mem.headers), mem.headers)
      ensures mem.marked == old(mem.marked) && mem.stores <= old(mem.stores) + mem.headers.Keys
    {
      ghost var rs, o := h.regions, h.order;
      Bounds(rs, lo, hi, k - 1);
      if prev != 0 {
        assert rs[k - 1] in rs;
        FindAndUnlink(prev, o, rs[k - 1]);
        WithoutKeeps(o, rs[k - 1]);
        o := Without(o, rs[k - 1]);
      }
      if next != 0 {
        assert rs[k + 1] in rs && rs[k + 1] != rs[k - 1] by {
          Ascending(rs, lo, hi, k - 1, k + 1);
        }
        FindAndUnlink(next, o, rs[k + 1]);
      } else if k + 1 < |rs| {
        Bounds(rs, lo, hi, k + 1);
      }
    }

    // Adds up the sizes of block k and its free neighbours in the header of the
    // lowest of them; the other headers go out of use.
    method Unify(header: int, prev: int, next: int, ghost k: nat) returns (unified: int)
      requires Ready() && Wf(h, lo, hi) && 0 < k < |h.regions| && !h.regions[k].free
      requires header == h.regions[k].addr && header in mem.headers
      requires mem.headers[header].size == h.regions[k].size && mem.headers[header].kind == REGION_FREE
      requires prev == if h.regions[k - 1].free then h.regions[k - 1].addr else 0
      requires prev != 0 ==> prev in mem.headers && mem.headers[prev].size == h.regions[k - 1].size && mem.headers[prev].kind == REGION_FREE
      requires next == if k + 1 < |h.regions| && h.regions[k + 1].free then h.regions[k + 1].addr else 0
      requires next != 0 ==> next in mem.headers && mem.headers[next].size == h.regions[k + 1].size
      modifies mem
      ensures Ready() && mem.marked == old(mem.marked) && mem.stores <= old(mem.stores) + old(mem.headers).Keys
      ensures unified == h.regions[From(h.regions, k)].addr
      ensures Grown(old(mem.headers), mem.headers, h.regions, k)
    {
      UnifiedBounds(k);
      unified := header;
      if prev != 0 {
        unified := prev;
        Absorb(unified, header);
      }
      if next != 0 {
        Absorb(unified, next);
      }
    }

    // Adds a region's header and payload to the one before it.
    method Absorb(hd: int, other: int)
      requires Ready() && hd in mem.headers && other in mem.headers && hd != other
      requires 0 <= mem.headers[hd].size + HDR + mem.headers[other].size < WORD
      modifies mem
      ensures Ready() && mem.marked == old(mem.marked) && mem.stores == old(mem.stores) + {hd}
      ensures mem.headers ==
              old(mem.headers)[hd := old(mem.headers)[hd].(size := old(mem.headers)[hd].size + HDR + old(mem.headers)[other].size)] - {other}
    {
      var s := mem.Size(hd);
      var t := mem.Size(other);
      mem.SetSize(hd, s + HDR + t);
      mem.Retire(other);
    }

    lemma UnifiedBounds(k: nat)
      requires Ready() && Wf(h, lo, hi) && 0 < k < |h.regions|
      ensures h.regions[k].addr == h.regions[k - 1].End() && 0 < h.regions[k - 1].addr
      ensures h.regions[k - 1].size >= 0 && h.regions[k].size >= 0 && h.regions[k].End() < WORD
      ensures k + 1 < |h.regions| ==>
                && h.regions[k + 1].addr == h.regions[k].End() && h.regions[k + 1].size >= 0
                && h.regions[k + 1].End() < WORD
    {
      Bounds(h.regions, lo, hi, k - 1);
      Bounds(h.regions, lo, hi, k);
      if k + 1 < |h.regions| { Bounds(h.regions, lo, hi, k + 1); }
    }

    // kfree's last store.
    method Relink(unified: int, ghost hs: map<int, Header>, ghost k: nat)
      requires Ready() && Wf(h, lo, hi) && 0 < k < |h.regions| && !h.regions[k].free
      requires unified == h.regions[From(h.regions, k)].addr
      requires RegionsRep(hs, h.regions) && Merged(hs, mem.headers, h.regions, k)
      modifies mem
      ensures Ready() && mem.marked == old(mem.marked) && mem.stores <= old(mem.stores) + mem.headers.Keys
      ensures mem.headers.Keys == old(mem.headers).Keys
      ensures RegionsRep(mem.headers, Free(h, k).regions)
      ensures forall a :: a in mem.headers && old(mem.headers)[a].kind == REGION_FREE ==> mem.headers[a] == old(mem.headers)[a]
    {
      ghost var b := Upto(h.regions, k);
      RegionsDistinct(h.regions, lo, hi);
      NextKept(hs, mem.headers, k);
      Bounds(h.regions, lo, hi, b - 1);
      if b < |h.regions| { assert h.regions[b].addr == h.regions[b - 1].End(); }
      mem.InRange(unified);
      var size := mem.Size(unified);
      var next := unified + size + HDR;
      if next < hi {
        mem.SetLink(next, unified);
      }
      MergedRep(hs, old(mem.headers), mem.headers, h.regions, k);
    }

    // kfree up to the point where its free neighbours are off the list.
    method Isolate(header: int, ghost k: nat) returns (prev: int, next: int)
      requires Valid()
      requires 0 < k < |h.regions| && !h.regions[k].free && header == h.regions[k].addr
      modifies this`indexHead, mem
      ensures prev == if h.regions[k - 1].free then h.regions[k - 1].addr else 0
      ensures next == if k + 1 < |h.regions| && h.regions[k + 1].free then h.regions[k + 1].addr else 0
      ensures Ready() && ListRep(mem.headers, indexHead, Unlinked(h, k))
      ensures header in old(mem.headers)
      ensures FreeLinksOnly(old(mem.headers)[header := old(mem.headers)[header].(kind := REGION_FREE)], mem.headers)
      ensures mem.marked == old(mem.marked) && mem.stores <= old(mem.stores) + old(mem.headers).Keys
    {
      ghost var hs := mem.headers;
      prev, next := FreeNeighbours(header, k);
      mem.SetKind(header, REGION_FREE);
      BlockNotListed(h, k, lo, hi);
      ListRepAgrees(hs, mem.headers, indexHead, h.order);
      UnlinkNeighbours(prev, next, k);
    }

    // kfree up to the point where the run is one region, not yet on the list.
    method Detach(header: int, ghost k: nat) returns (unified: int)
      requires Valid()
      requires 0 < k < |h.regions| && !h.regions[k].free && header == h.regions[k].addr
      modifies this`indexHead, mem
      ensures Ready() && ListRep(mem.headers, indexHead, Unlinked(h, k))
      ensures unified == h.regions[From(h.regions, k)].addr
      ensures Merged(old(mem.headers), mem.headers, h.regions, k)
      ensures mem.marked == old(mem.marked) && mem.stores <= old(mem.stores) + old(mem.headers).Keys
    {
      ghost var hs, rs, rest := mem.headers, h.regions, Unlinked(h, k);
      ghost var hs1 := hs[header := hs[header].(kind := REGION_FREE)];
      var prev, next := Isolate(header, k);
      ghost var hs2 := mem.headers;
      unified := Unify(header, prev, next, k);
      RegionsDistinct(rs, lo, hi);
      MergedCompose(hs, hs1, hs2, mem.headers, rs, k);
      UnlinkedApart(h, k, lo, hi);
      GrownList(hs2, mem.headers, indexHead, rs, k, rest);
    }

    // Puts the unified region back on the list.
    method Relist(unified: int, ghost hs: map<int, Header>, ghost k: nat)
      requires Ready() && Wf(h, lo, hi) && 0 < k < |h.regions| && !h.regions[k].free
      requires unified == h.regions[From(h.regions, k)].addr
      requires ListRep(mem.headers, indexHead, Unlinked(h, k)) && Merged(hs, mem.headers, h.regions, k)
      modifies this`indexHead, mem
      ensures Ready() && ListRep(mem.headers, indexHead, Free(h, k).order)
      ensures Merged(hs, mem.headers, h.regions, k)
      ensures mem.marked == old(mem.marked) && mem.stores <= old(mem.stores) + mem.headers.Keys
    {
      UnlinkedFresh(h, k, lo, hi);
      mem.InRange(unified);
      SearchAndAddFreeRegion(unified, Unlinked(h, k), Unified(h.regions, k));
      MergedLinks(hs, old(mem.headers), mem.headers, h.regions, k);
    }

    // k: which region `ptr` is the payload of.
    method KFree(ptr: int, ghost k: nat)
      requires Valid()
      requires 0 < k < |h.regions| && !h.regions[k].free && ptr == h.regions[k].Payload()
      modifies this`indexHead, this`h, mem
      ensures Valid() && h == Free(old(h), k)
      ensures PayloadsKept(old(h).regions, old(mem.bytes), mem.bytes, lo)
    {
      mem.Mark();
      ghost var hs := mem.headers;
      var unified := Detach(ptr - HDR, k);
      Relist(unified, hs, k);
      ghost var hs4 := mem.headers;
      Relink(unified, hs, k);
      ListRepAgrees(hs4, mem.headers, indexHead, Free(h, k).order);
      FreeWf(h, k, lo, hi);
      LivePayloadsKept(h);
      h := Free(h, k);
    }

    // The region after the unified run is allocated and still has its header.
    lemma NextKept(hs: map<int, Header>, hs4: map<int, Header>, k: nat)
      requires Wf(h, lo, hi) && 0 < k < |h.regions| && !h.regions[k].free && Distinct(h.regions)
      requires RegionsRep(hs, h.regions) && Merged(hs, hs4, h.regions, k)
      ensures var b := Upto(h.regions, k);
              b < |h.regions| ==> h.regions[b].addr in hs4 && hs4[h.regions[b].addr].kind == REGION_ALLOC
    {
      var rs, a, b := h.regions, From(h.regions, k), Upto(h.regions, k);
      UnifiedRun(h, k, lo, hi);
      if b < |rs| {
        assert rs[a].addr != rs[b].addr && rs[k].addr != rs[b].addr;
        if k + 1 < b { assert rs[k + 1].addr != rs[b].addr; }
      }
    }
  }
}
