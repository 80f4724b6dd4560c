/**
  Whole runs of kmalloc and kfree on the bytes of the heap.
 */
module HeapRuns {
  import opened Bytes
  import opened HeapLayout
  import opened HeapModel
  import opened Options
  import opened HeapTheorems
  import opened KernelHeap

  // A block's bytes after the stores that the operations make into it.
  function Applied(ops: seq<Op>, p: int, s: seq<byte>): (r: seq<byte>)
    ensures |r| == |s|
    decreases |ops|
  {
    if ops == [] then s
    else
      var op := ops[0];
      Applied(ops[1..], p, if op.Store? && op.ptr == p && op.off < |s| then s[op.off := op.value] else s)
  }

  // The callers' blocks that a sequence of operations does not free keep their
  // place, their size and every byte of their payload that their holders do not
  // overwrite themselves.
  ghost predicate BlocksIntact(w: World, ops: seq<Op>, live: map<int, nat>, m: seq<byte>, m': seq<byte>, lo: int) {
    && |m'| == |m|
    && forall p :: p in w.live && Release(p) !in ops ==>
         && p in live && live[p] == w.live[p]
         && lo <= p <= p + w.live[p] <= lo + |m|
         && PayloadOf(m', lo, BlockAt(p, w.live[p])) == Applied(ops, p, PayloadOf(m, lo, BlockAt(p, w.live[p])))
  }

  // No request is so large that size + 12 wraps.
  ghost predicate Bounded(ops: seq<Op>) {
    forall op :: op in ops && op.Alloc? ==> op.n + HDR < WORD
  }

  // An operation keeps every live block but the one it frees.
  lemma StaysLive(w: World, op: Op, w': World, p: int, lo: int, hi: int)
    requires Good(w, lo, hi) && LegalOp(w, op) && Step(w, op) == Some(w')
    requires p in w.live && op != Release(p)
    ensures p in w'.live && w'.live[p] == w.live[p]
  {
    if op.Alloc? && Fits(w.heap, op.n) { CarvedFresh(w, op.n, lo, hi); }
  }

  lemma StaysPut(w: World, m: seq<byte>, m': seq<byte>, p: int, lo: int, hi: int)
    requires Good(w, lo, hi) && |m| == hi - lo && PayloadsKept(w.heap.regions, m, m', lo)
    requires p in w.live
    ensures |m'| == |m| && lo <= p <= p + w.live[p] <= lo + |m|
    ensures PayloadOf(m', lo, BlockAt(p, w.live[p])) == PayloadOf(m, lo, BlockAt(p, w.live[p]))
  {
    assert BlockAt(p, w.live[p]) in w.heap.regions;
  }

  lemma LiveIntact(w: World, op: Op, w': World, m: seq<byte>, m': seq<byte>, lo: int, hi: int)
    requires Good(w, lo, hi) && LegalOp(w, op) && Step(w, op) == Some(w') && !op.Store?
    requires |m| == hi - lo && PayloadsKept(w.heap.regions, m, m', lo)
    ensures BlocksIntact(w, [op], w'.live, m, m', lo)
  {
    forall p | p in w.live && Release(p) !in [op]
      ensures p in w'.live && w'.live[p] == w.live[p]
      ensures lo <= p <= p + w.live[p] <= lo + |m|
      ensures PayloadOf(m', lo, BlockAt(p, w.live[p])) == Applied([op], p, PayloadOf(m, lo, BlockAt(p, w.live[p])))
    {
      assert op in [op];
      StaysLive(w, op, w', p, lo, hi);
      StaysPut(w, m, m', p, lo, hi);
      AppliedOne(op, p, PayloadOf(m, lo, BlockAt(p, w.live[p])));
    }
  }

  // A store changes one byte of its own block and none of any other.
  lemma StoreIntact(w: World, op: Op, m: seq<byte>, m': seq<byte>, lo: int, hi: int)
    requires Good(w, lo, hi) && LegalOp(w, op) && op.Store? && |m| == hi - lo
    requires lo <= op.ptr + op.off < hi && m' == m[op.ptr + op.off - lo := op.value]
    ensures BlocksIntact(w, [op], w.live, m, m', lo)
  {
    forall p | p in w.live
      ensures lo <= p <= p + w.live[p] <= lo + |m|
      ensures PayloadOf(m', lo, BlockAt(p, w.live[p])) == Applied([op], p, PayloadOf(m, lo, BlockAt(p, w.live[p])))
    {
      LiveInside(w, p, lo, hi);
      PayloadAfterStore(w, op, m, p, lo, hi);
    }
  }

  lemma PayloadAfterStore(w: World, op: Op, m: seq<byte>, p: int, lo: int, hi: int)
    requires Good(w, lo, hi) && LegalOp(w, op) && op.Store? && |m| == hi - lo
    requires lo <= op.ptr + op.off < hi && p in w.live && lo <= p <= p + w.live[p] <= hi
    ensures var b := BlockAt(p, w.live[p]);
            PayloadOf(m[op.ptr + op.off - lo := op.value], lo, b) == Applied([op], p, PayloadOf(m, lo, b))
  {
    AppliedOne(op, p, PayloadOf(m, lo, BlockAt(p, w.live[p])));
    if p == op.ptr {
      OwnStore(m, p - lo, w.live[p], op.off, op.value);
    } else {
      RegionsDisjoint(w.heap, lo, hi, BlockAt(p, w.live[p]), BlockAt(op.ptr, w.live[op.ptr]));
      OtherStore(m, p - lo, w.live[p], op.ptr + op.off - lo, op.value);
    }
  }

  lemma AppliedOne(op: Op, p: int, s: seq<byte>)
    ensures Applied([op], p, s) == if op.Store? && op.ptr == p && op.off < |s| then s[op.off := op.value] else s
  {}

  lemma OwnStore(m: seq<byte>, i: nat, n: nat, off: nat, v: byte)
    requires i + n <= |m| && off < n
    ensures m[i + off := v][i..i + n] == m[i..i + n][off := v]
  {}

  lemma OtherStore(m: seq<byte>, i: nat, n: nat, x: nat, v: byte)
    requires i + n <= |m| && x < |m| && !(i <= x < i + n)
    ensures m[x := v][i..i + n] == m[i..i + n]
  {}

  lemma LiveInside(w: World, p: int, lo: int, hi: int)
    requires Good(w, lo, hi) && p in w.live
    ensures lo <= p <= p + w.live[p] <= hi
  {
    RegionsDisjoint(w.heap, lo, hi, BlockAt(p, w.live[p]), w.heap.regions[0]);
  }

  // One request.
  method PerformAlloc(kh: KernelHeap, n: nat, ghost w: World) returns (ghost w': World)
    requires kh.Valid() && w.heap == kh.h && Good(w, kh.lo, kh.hi) && n + HDR < WORD
    modifies kh, kh.mem
    ensures kh.Valid() && Step(w, Alloc(n)) == Some(w') && w'.heap == kh.h && Good(w', kh.lo, kh.hi)
    ensures BlocksIntact(w, [Alloc(n)], w'.live, old(kh.mem.bytes), kh.mem.bytes, kh.lo)
  {
    StepGood(w, Alloc(n), kh.lo, kh.hi);
    w' := Step(w, Alloc(n)).value;
    var _ := kh.KMalloc(n);
    LiveIntact(w, Alloc(n), w', old(kh.mem.bytes), kh.mem.bytes, kh.lo, kh.hi);
  }

  // One free.
  method PerformRelease(kh: KernelHeap, ptr: int, ghost w: World) returns (ghost w': World)
    requires kh.Valid() && w.heap == kh.h && Good(w, kh.lo, kh.hi) && ptr in w.live
    modifies kh, kh.mem
    ensures kh.Valid() && Step(w, Release(ptr)) == Some(w') && w'.heap == kh.h && Good(w', kh.lo, kh.hi)
    ensures BlocksIntact(w, [Release(ptr)], w'.live, old(kh.mem.bytes), kh.mem.bytes, kh.lo)
  {
    ReleaseStep(w, ptr, kh.lo, kh.hi);
    w' := Step(w, Release(ptr)).value;
    kh.KFree(ptr, IndexOf(kh.h.regions, BlockAt(ptr, w.live[ptr])));
    LiveIntact(w, Release(ptr), w', old(kh.mem.bytes), kh.mem.bytes, kh.lo, kh.hi);
  }

  // One store.
  method PerformStore(kh: KernelHeap, ptr: int, off: nat, v: byte, ghost w: World)
    requires kh.Valid() && w.heap == kh.h && Good(w, kh.lo, kh.hi) && ptr in w.live && off < w.live[ptr]
    modifies kh.mem
    ensures kh.Valid() && w.heap == kh.h
    ensures BlocksIntact(w, [Store(ptr, off, v)], w.live, old(kh.mem.bytes), kh.mem.bytes, kh.lo)
  {
    ghost var m := kh.mem.bytes;
    kh.StoreByte(ptr, off, v, BlockAt(ptr, w.live[ptr]));
    StoreIntact(w, Store(ptr, off, v), m, kh.mem.bytes, kh.lo, kh.hi);
  }

  // One operation of a caller.
  method Perform1(kh: KernelHeap, op: Op, ghost w: World) returns (ghost w': World)
    requires kh.Valid() && w.heap == kh.h && Good(w, kh.lo, kh.hi) && LegalOp(w, op) && Bounded([op])
    modifies kh, kh.mem
    ensures kh.Valid() && Step(w, op) == Some(w') && w'.heap == kh.h && Good(w', kh.lo, kh.hi)
    ensures BlocksIntact(w, [op], w'.live, old(kh.mem.bytes), kh.mem.bytes, kh.lo)
  {
    match op {
      case Alloc(n) =>
        assert op in [op];
        w' := PerformAlloc(kh, n, w);
      case Store(ptr, off, v) =>
        PerformStore(kh, ptr, off, v, w);
        w' := w;
      case Release(ptr) =>
        w' := PerformRelease(kh, ptr, w);
    }
  }

  lemma AppliedStep(op: Op, ops: seq<Op>, p: int, s: seq<byte>)
    ensures Applied([op] + ops, p, s) == Applied(ops, p, Applied([op], p, s))
  {
    assert ([op] + ops)[1..] == ops;
  }

  lemma IntactTrans(w: World, op: Op, w1: World, ops: seq<Op>, live: map<int, nat>, m: seq<byte>, m1: seq<byte>, m2: seq<byte>, lo: int)
    requires BlocksIntact(w, [op], w1.live, m, m1, lo) && BlocksIntact(w1, ops, live, m1, m2, lo)
    ensures BlocksIntact(w, [op] + ops, live, m, m2, lo)
  {
    forall p | p in w.live && Release(p) !in [op] + ops
      ensures p in live && live[p] == w.live[p]
      ensures lo <= p <= p + w.live[p] <= lo + |m|
      ensures PayloadOf(m2, lo, BlockAt(p, w.live[p])) == Applied([op] + ops, p, PayloadOf(m, lo, BlockAt(p, w.live[p])))
    {
      assert Release(p) !in [op] && Release(p) !in ops;
      AppliedStep(op, ops, p, PayloadOf(m, lo, BlockAt(p, w.live[p])));
    }
  }

  // Any run the callers may make: the code reaches the state the model predicts,
  // and a block that stays allocated holds what its holder stored there.
  method Perform(kh: KernelHeap, ops: seq<Op>, ghost w: World) returns (ghost w': World)
    requires kh.Valid() && w.heap == kh.h && Good(w, kh.lo, kh.hi) && Bounded(ops)
    requires LegalRun(w, ops)
    modifies kh, kh.mem
    ensures kh.Valid() && Run(w, ops) == Some(w') && w'.heap == kh.h && Good(w', kh.lo, kh.hi)
    ensures BlocksIntact(w, ops, w'.live, old(kh.mem.bytes), kh.mem.bytes, kh.lo)
    decreases |ops|
  {
    if ops == [] {
      w' := w;
      NothingDone(w, kh.mem.bytes, kh.lo, kh.hi);
    } else {
      var op, rest := ops[0], ops[1..];
      assert ops == [op] + rest;
      ghost var m := kh.mem.bytes;
      ghost var w1 := Perform1(kh, op, w);
      ghost var m1 := kh.mem.bytes;
      w' := Perform(kh, rest, w1);
      IntactTrans(w, op, w1, rest, w'.live, m, m1, kh.mem.bytes, kh.lo);
    }
  }

  lemma NothingDone(w: World, m: seq<byte>, lo: int, hi: int)
    requires Good(w, lo, hi) && |m| == hi - lo
    ensures BlocksIntact(w, [], w.live, m, m, lo)
  {
    forall p | p in w.live ensures lo <= p <= p + w.live[p] <= hi { LiveInside(w, p, lo, hi); }
  }
}
