/**
  The physical frame bitmap of kernel/frame.c, one bit per frame, with
  first_clr_bit of kernel/common.c.
 */
module Frames {
  import opened Options

  const FRAME_SIZE := 4096

  // 1 << i
  function Mask(i: int): bv8
    requires 0 <= i < 8
  {
    match i
    case 0 => 1 case 1 => 2 case 2 => 4 case 3 => 8
    case 4 => 16 case 5 => 32 case 6 => 64 case _ => 128
  }

  predicate BitSet(b: bv8, i: int)
    requires 0 <= i < 8
  {
    b & Mask(i) != 0
  }

  predicate Busy(bm: seq<bv8>, f: int)
    requires 0 <= f < |bm| * 8
  {
    BitSet(bm[f / 8], f % 8)
  }

  ghost function BusyFrames(bm: seq<bv8>): set<int> {
    set f | 0 <= f < |bm| * 8 && Busy(bm, f)
  }

  lemma MaskBits(b: bv8, i: int, j: int)
    requires 0 <= i < 8 && 0 <= j < 8
    ensures BitSet(b | Mask(i), j) == (i == j || BitSet(b, j))
    ensures BitSet(b & !Mask(i), j) == (i != j && BitSet(b, j))
  {}

  // Frame f is bit f % 8, counted from the lowest, of byte f / 8.
  lemma BusyBit(bm: seq<bv8>, f: int)
    requires 0 <= f < |bm| * 8
    ensures Busy(bm, f) <==> (bm[f / 8] >> (f % 8)) & 1 == 1
  {
    BitSetShift(bm[f / 8], f % 8);
  }

  lemma BitSetShift(b: bv8, i: int)
    requires 0 <= i < 8
    ensures BitSet(b, i) <==> (b >> i) & 1 == 1
  {}

  lemma FullByte(b: bv8)
    ensures b == 0xFF <==> forall i :: 0 <= i < 8 ==> BitSet(b, i)
  {
    if forall i :: 0 <= i < 8 ==> BitSet(b, i) {
      assert BitSet(b, 0) && BitSet(b, 1) && BitSet(b, 2) && BitSet(b, 3);
      assert BitSet(b, 4) && BitSet(b, 5) && BitSet(b, 6) && BitSet(b, 7);
    }
  }

  // first_clr_bit, from bit i on; -1 if there is none.
  function FirstClear(b: bv8, i: int): (r: int)
    requires 0 <= i <= 8
    ensures r == -1 || i <= r < 8
    ensures r >= 0 ==> !BitSet(b, r)
    ensures forall k :: i <= k < (if r == -1 then 8 else r) ==> BitSet(b, k)
    decreases 8 - i
  {
    if i == 8 then -1 else if !BitSet(b, i) then i else FirstClear(b, i + 1)
  }

  lemma MaskShift(i: int)
    requires 0 <= i < 7
    ensures Mask(i) << 1 == Mask(i + 1)
  {}

  lemma ClearBitExists(b: bv8)
    requires b != 0xFF
    ensures 0 <= FirstClear(b, 0) < 8
  {
    FullByte(b);
  }

  // One round of first_clr_bit's loop.
  method TestBit(b: bv8, i: int, pat: bv8) returns (clear: bool, next: bv8)
    requires 0 <= i < 8 && pat == Mask(i)
    ensures clear == !BitSet(b, i) && (i < 7 ==> next == Mask(i + 1))
  {
    if i < 7 { MaskShift(i); }
    clear, next := pat & b == 0, pat << 1;
  }

  method FirstClrBit(b: bv8) returns (r: int)
    ensures r == FirstClear(b, 0)
  {
    var i, pat: bv8 := 0, 1;
    while i < 8
      invariant 0 <= i <= 8 && (i < 8 ==> pat == Mask(i)) && FirstClear(b, i) == FirstClear(b, 0)
    {
      var clear;
      clear, pat := TestBit(b, i, pat);
      if clear {
        return i;
      }
      i := i + 1;
    }
    return -1;
  }

  // min_addr rounded up to a frame number.
  function FirstFrame(minAddr: int): int {
    if minAddr % FRAME_SIZE != 0 then (minAddr - minAddr % FRAME_SIZE + FRAME_SIZE) / FRAME_SIZE
    else minAddr / FRAME_SIZE
  }

  // Frames below this lie wholly below max_addr.
  function FrameLimit(maxAddr: int): int { maxAddr / FRAME_SIZE }

  // The frames of a search are those that lie wholly inside [min_addr, max_addr).
  lemma RangeFrames(minAddr: int, maxAddr: int, f: int)
    ensures FirstFrame(minAddr) <= f < FrameLimit(maxAddr) <==> minAddr <= f * 4096 && f * 4096 + 4096 <= maxAddr
  {}

  // get_idle_frame_addr from frame number f on: None when the kernel stops for
  // lack of frames, 0 when the frame it finds does not fit.
  function Idle(bm: seq<bv8>, f: int, maxAddr: int): (r: Option<int>)
    requires 0 <= f && maxAddr <= |bm| * 8 * FRAME_SIZE
    decreases maxAddr - f * FRAME_SIZE
  {
    if f * FRAME_SIZE >= maxAddr then None
    else if bm[f / 8] != 0xFF then
      var a := (f + FirstClear(bm[f / 8], 0)) * FRAME_SIZE;
      if a + FRAME_SIZE > maxAddr then Some(0) else Some(a)
    else Idle(bm, f + 8, maxAddr)
  }

  // The least idle frame in [f, n); n if there is none.
  function LowestIdle(bm: seq<bv8>, f: int, n: int): (r: int)
    requires 0 <= f && n <= |bm| * 8
    ensures f <= r <= n || n < f
    ensures f <= r < n ==> !Busy(bm, r)
    ensures forall k :: f <= k < r && k < n ==> Busy(bm, k)
    decreases n - f
  {
    if f >= n then n else if !Busy(bm, f) then f else LowestIdle(bm, f + 1, n)
  }

  // What the callers want: the lowest idle frame of the range, or a failure
  // exactly when there is none.
  ghost predicate Correct(bm: seq<bv8>, f: int, maxAddr: int)
    requires 0 <= f && 0 <= maxAddr <= |bm| * 8 * FRAME_SIZE
  {
    var n := FrameLimit(maxAddr);
    var low := LowestIdle(bm, f, n);
    if f <= low < n then low > 0 && Idle(bm, f, maxAddr) == Some(low * FRAME_SIZE)
    else Idle(bm, f, maxAddr) in {None, Some(0)}
  }

  // A byte that starts at frame f tells about frames f .. f + 7.
  lemma ByteFrames(bm: seq<bv8>, f: int, n: int)
    requires 0 <= f < n <= |bm| * 8 && f % 8 == 0
    ensures bm[f / 8] == 0xFF ==> LowestIdle(bm, f, n) == LowestIdle(bm, if f + 8 <= n then f + 8 else n, n)
    ensures bm[f / 8] != 0xFF ==>
              var g := f + FirstClear(bm[f / 8], 0);
              f <= g < f + 8 && LowestIdle(bm, f, n) == if g < n then g else n
  {
    var b := bm[f / 8];
    FullByte(b);
    var end := if f + 8 <= n then f + 8 else n;
    forall k | f <= k < end ensures Busy(bm, k) == BitSet(b, k - f) { assert k / 8 == f / 8 && k % 8 == k - f; }
    if b == 0xFF {
      SkipBusy(bm, f, end, n);
    } else {
      var g := f + FirstClear(b, 0);
      SkipBusy(bm, f, if g < n then g else n, n);
    }
  }

  lemma {:induction false} SkipBusy(bm: seq<bv8>, f: int, g: int, n: int)
    requires 0 <= f <= g <= n <= |bm| * 8 && forall k :: f <= k < g ==> Busy(bm, k)
    ensures LowestIdle(bm, f, n) == LowestIdle(bm, g, n)
    decreases g - f
  {
    if f < g { SkipBusy(bm, f + 1, g, n); }
  }

  lemma FoundInByte(bm: seq<bv8>, f: int, maxAddr: int)
    requires 0 < f < FrameLimit(maxAddr) && f % 8 == 0 && 0 <= maxAddr <= |bm| * 8 * FRAME_SIZE && bm[f / 8] != 0xFF
    ensures Correct(bm, f, maxAddr)
  {
    ByteFrames(bm, f, FrameLimit(maxAddr));
    ClearBitExists(bm[f / 8]);
  }

  // Starting at a byte boundary above frame 0 the search is right for every bitmap.
  lemma {:induction false} AlignedCorrect(bm: seq<bv8>, f: int, maxAddr: int)
    requires 0 < f && f % 8 == 0 && 0 <= maxAddr <= |bm| * 8 * FRAME_SIZE
    ensures Correct(bm, f, maxAddr)
    decreases maxAddr - f * FRAME_SIZE
  {
    var n := FrameLimit(maxAddr);
    if f < n {
      if bm[f / 8] == 0xFF {
        ByteFrames(bm, f, n);
        AlignedCorrect(bm, f + 8, maxAddr);
      } else {
        FoundInByte(bm, f, maxAddr);
      }
    } else if f * FRAME_SIZE < maxAddr && bm[f / 8] == 0xFF {
      assert Idle(bm, f, maxAddr) == Idle(bm, f + 8, maxAddr);
    }
  }

  // The bitmap in which frame f alone is idle.
  function OnlyIdle(bytes: nat, f: int): (bm: seq<bv8>)
    requires 0 <= f < bytes * 8
    ensures |bm| == bytes
  {
    seq(bytes, _ => 0xFF)[f / 8 := 0xFF & !Mask(f % 8)]
  }

  // Anywhere else it misses that frame: the bit offset is counted from the start
  // of the byte but added to the address of frame f.
  lemma UnalignedWrong(bytes: nat, f: int, maxAddr: int)
    requires 0 <= f < FrameLimit(maxAddr) && maxAddr <= bytes * 8 * FRAME_SIZE
    requires f % 8 != 0 || f == 0
    ensures !Correct(OnlyIdle(bytes, f), f, maxAddr)
  {
    var bm := OnlyIdle(bytes, f);
    var b := 0xFF & !Mask(f % 8);
    forall j | 0 <= j < 8 ensures BitSet(b, j) == (j != f % 8) { MaskBits(0xFF, f % 8, j); FullByte(0xFF); }
    assert FirstClear(b, 0) == f % 8;
    FullByte(b);
    assert !Busy(bm, f);
  }

  // For a range that holds a frame, the search finds the lowest idle frame in
  // every bitmap if and only if it starts at a byte boundary above frame 0.
  lemma CorrectIffAligned(bytes: nat, f: int, maxAddr: int)
    requires 0 <= f < FrameLimit(maxAddr) && maxAddr <= bytes * 8 * FRAME_SIZE
    ensures (forall bm: seq<bv8> {:trigger Correct(bm, f, maxAddr)} :: |bm| == bytes ==> Correct(bm, f, maxAddr))
            <==> f > 0 && f % 8 == 0
  {
    if f > 0 && f % 8 == 0 {
      forall bm: seq<bv8> | |bm| == bytes ensures Correct(bm, f, maxAddr) { AlignedCorrect(bm, f, maxAddr); }
    } else {
      UnalignedWrong(bytes, f, maxAddr);
    }
  }

  // FRAME_BSET and FRAME_BCLR
  function SetFrame(bm: seq<bv8>, f: int): (r: seq<bv8>)
    requires 0 <= f < |bm| * 8
  {
    bm[f / 8 := bm[f / 8] | Mask(f % 8)]
  }

  function ClrFrame(bm: seq<bv8>, f: int): (r: seq<bv8>)
    requires 0 <= f < |bm| * 8
  {
    bm[f / 8 := bm[f / 8] & !Mask(f % 8)]
  }

  lemma SamePlace(f: int, g: int)
    ensures f / 8 == g / 8 && f % 8 == g % 8 <==> f == g
  {}

  lemma SetByteAt(bm: seq<bv8>, i: int, p: int, j: int, q: int)
    requires 0 <= i < |bm| && 0 <= j < |bm| && 0 <= p < 8 && 0 <= q < 8
    ensures BitSet(bm[i := bm[i] | Mask(p)][j], q) == ((i == j && p == q) || BitSet(bm[j], q))
  {
    MaskBits(bm[i], p, q);
  }

  lemma ClrByteAt(bm: seq<bv8>, i: int, p: int, j: int, q: int)
    requires 0 <= i < |bm| && 0 <= j < |bm| && 0 <= p < 8 && 0 <= q < 8
    ensures BitSet(bm[i := bm[i] & !Mask(p)][j], q) == (!(i == j && p == q) && BitSet(bm[j], q))
  {
    MaskBits(bm[i], p, q);
  }

  lemma SetFrameAt(bm: seq<bv8>, f: int, g: int)
    requires 0 <= f < |bm| * 8 && 0 <= g < |bm| * 8
    ensures Busy(SetFrame(bm, f), g) == (g == f || Busy(bm, g))
  {
    SamePlace(f, g);
    SetByteAt(bm, f / 8, f % 8, g / 8, g % 8);
  }

  lemma ClrFrameAt(bm: seq<bv8>, f: int, g: int)
    requires 0 <= f < |bm| * 8 && 0 <= g < |bm| * 8
    ensures Busy(ClrFrame(bm, f), g) == (g != f && Busy(bm, g))
  {
    SamePlace(f, g);
    ClrByteAt(bm, f / 8, f % 8, g / 8, g % 8);
  }

  // Setting or clearing a bit adds or removes exactly one busy frame.
  lemma SetFrameBusy(bm: seq<bv8>, f: int)
    requires 0 <= f < |bm| * 8
    ensures BusyFrames(SetFrame(bm, f)) == BusyFrames(bm) + {f}
    ensures BusyFrames(ClrFrame(bm, f)) == BusyFrames(bm) - {f}
  {
    assert BusyFrames(SetFrame(bm, f)) == BusyFrames(bm) + {f} by {
      forall g | 0 <= g < |bm| * 8 ensures Busy(SetFrame(bm, f), g) == (g == f || Busy(bm, g)) { SetFrameAt(bm, f, g); }
    }
    assert BusyFrames(ClrFrame(bm, f)) == BusyFrames(bm) - {f} by {
      forall g | 0 <= g < |bm| * 8 ensures Busy(ClrFrame(bm, f), g) == (g != f && Busy(bm, g)) { ClrFrameAt(bm, f, g); }
    }
  }

  // The result of the search, in terms of the set of busy frames.
  ghost predicate LowestOf(busy: set<int>, lo: int, n: int, r: Option<int>) {
    if r == None || r == Some(0) then forall f :: lo <= f < n ==> f in busy
    else
      var f := r.value / FRAME_SIZE;
      r.value == f * FRAME_SIZE && lo <= f < n && f !in busy && forall g :: lo <= g < f ==> g in busy
  }

  // Aligned or not, a returned frame lies below max_addr.
  lemma {:induction false} IdleInRange(bm: seq<bv8>, f: int, maxAddr: int)
    requires 0 <= f && maxAddr <= |bm| * 8 * FRAME_SIZE
    ensures var r := Idle(bm, f, maxAddr);
            r.Some? ==> r.value == 0 || (r.value % FRAME_SIZE == 0 && f * FRAME_SIZE <= r.value && r.value + FRAME_SIZE <= maxAddr)
    decreases maxAddr - f * FRAME_SIZE
  {
    if f * FRAME_SIZE < maxAddr {
      if bm[f / 8] == 0xFF { IdleInRange(bm, f + 8, maxAddr); } else { ClearBitExists(bm[f / 8]); }
    }
  }

  lemma CorrectIsLowest(bm: seq<bv8>, lo: int, maxAddr: int)
    requires 0 <= lo && 0 <= maxAddr <= |bm| * 8 * FRAME_SIZE && Correct(bm, lo, maxAddr)
    ensures LowestOf(BusyFrames(bm), lo, FrameLimit(maxAddr), Idle(bm, lo, maxAddr))
  {
    var n := FrameLimit(maxAddr);
    var low := LowestIdle(bm, lo, n);
    assert forall k :: lo <= k < low && k < n ==> Busy(bm, k);
  }

  // ------------------------------------------------------------------------ runs

  datatype FrameOp = Take(minAddr: int, maxAddr: int) | Give(addr: int)

  // The frame a successful alloc_frame has returned.
  predicate Granted(op: FrameOp, r: Option<int>, f: int) {
    op.Take? && r.Some? && r.value > 0 && r.value / FRAME_SIZE == f
  }

  // A set of frames after one call with result r.
  ghost function After(frames: set<int>, op: FrameOp, r: Option<int>): set<int> {
    match op
    case Take(_, _) => if r.Some? && r.value > 0 then frames + {r.value / FRAME_SIZE} else frames
    case Give(addr) => frames - {addr / FRAME_SIZE}
  }

  ghost function AfterAll(frames: set<int>, ops: seq<FrameOp>, rs: seq<Option<int>>): set<int>
    requires |ops| == |rs|
    decreases |ops|
  {
    if ops == [] then frames else AfterAll(After(frames, ops[0], rs[0]), ops[1..], rs[1..])
  }

  // A run in which every alloc_frame returns the lowest frame of its range that is
  // not busy at that moment.
  ghost predicate Trace(busy: set<int>, ops: seq<FrameOp>, rs: seq<Option<int>>)
    decreases |ops|
  {
    && |rs| == |ops|
    && (ops != [] ==>
          && (ops[0].Take? ==> LowestOf(busy, FirstFrame(ops[0].minAddr), FrameLimit(ops[0].maxAddr), rs[0]))
          && Trace(After(busy, ops[0], rs[0]), ops[1..], rs[1..]))
  }

  // Only frames that the callers hold are given back.
  ghost predicate GivesHeld(held: set<int>, ops: seq<FrameOp>, rs: seq<Option<int>>)
    requires |ops| == |rs|
    decreases |ops|
  {
    ops != [] ==>
      && (ops[0].Give? ==> ops[0].addr / FRAME_SIZE in held)
      && GivesHeld(After(held, ops[0], rs[0]), ops[1..], rs[1..])
  }

  lemma GrantNotBusy(busy: set<int>, op: FrameOp, r: Option<int>, f: int)
    requires op.Take? && LowestOf(busy, FirstFrame(op.minAddr), FrameLimit(op.maxAddr), r) && Granted(op, r, f)
    ensures f !in busy
  {}

  // Over any run the busy frames are those that were busy before and the frames
  // held, and the two never meet.
  lemma {:induction false} BusyIsHeld(reserved: set<int>, held: set<int>, ops: seq<FrameOp>, rs: seq<Option<int>>)
    requires Trace(reserved + held, ops, rs) && reserved !! held && GivesHeld(held, ops, rs)
    ensures AfterAll(reserved + held, ops, rs) == reserved + AfterAll(held, ops, rs)
    ensures reserved !! AfterAll(held, ops, rs)
    decreases |ops|
  {
    if ops != [] {
      var op, r := ops[0], rs[0];
      if op.Take? && r.Some? && r.value > 0 { GrantNotBusy(reserved + held, op, r, r.value / FRAME_SIZE); }
      assert After(reserved + held, op, r) == reserved + After(held, op, r);
      BusyIsHeld(reserved, After(held, op, r), ops[1..], rs[1..]);
    }
  }

  // A busy frame is not granted before it has been given back.
  lemma {:induction false} GivenBackFirst(busy: set<int>, ops: seq<FrameOp>, rs: seq<Option<int>>, f: int, j: nat)
    requires Trace(busy, ops, rs) && f in busy && j < |ops| && Granted(ops[j], rs[j], f)
    ensures exists k :: 0 <= k < j && ops[k].Give? && ops[k].addr / FRAME_SIZE == f
    decreases |ops|
  {
    var op, r := ops[0], rs[0];
    if j == 0 {
      GrantNotBusy(busy, op, r, f);
    } else if op.Give? && op.addr / FRAME_SIZE == f {
      assert ops[0] == op;
    } else {
      GivenBackFirst(After(busy, op, r), ops[1..], rs[1..], f, j - 1);
      var k :| 0 <= k < j - 1 && ops[1..][k].Give? && ops[1..][k].addr / FRAME_SIZE == f;
      assert ops[k + 1] == ops[1..][k];
    }
  }

  // No frame is granted twice without having been given back in between.
  lemma {:induction false} NoDoubleGrant(busy: set<int>, ops: seq<FrameOp>, rs: seq<Option<int>>, i: nat, j: nat, f: int)
    requires Trace(busy, ops, rs) && i < j < |ops| && Granted(ops[i], rs[i], f) && Granted(ops[j], rs[j], f)
    ensures exists k :: i < k < j && ops[k].Give? && ops[k].addr / FRAME_SIZE == f
    decreases |ops|
  {
    var busy', ops', rs' := After(busy, ops[0], rs[0]), ops[1..], rs[1..];
    if i == 0 {
      GivenBackFirst(busy', ops', rs', f, j - 1);
      var k :| 0 <= k < j - 1 && ops'[k].Give? && ops'[k].addr / FRAME_SIZE == f;
      assert ops[k + 1] == ops'[k];
    } else {
      NoDoubleGrant(busy', ops', rs', i - 1, j - 1, f);
      var k :| i - 1 < k < j - 1 && ops'[k].Give? && ops'[k].addr / FRAME_SIZE == f;
      assert ops[k + 1] == ops'[k];
    }
  }

  class FrameMap {
    const bitmap: array<bv8>

    constructor (bytes: nat)
      ensures bitmap.Length == bytes && fresh(bitmap) && BusyFrames(bitmap[..]) == {}
    {
      bitmap := new bv8[bytes](_ => 0);
      new;
      forall f | 0 <= f < bytes * 8 ensures !Busy(bitmap[..], f) { assert bitmap[..][f / 8] == 0; }
    }

    method FrameStatus(addr: int) returns (r: int)
      requires 0 <= addr < bitmap.Length * 8 * FRAME_SIZE
      ensures r == if addr / FRAME_SIZE in BusyFrames(bitmap[..]) then 1 else 0
      ensures r == if (bitmap[addr / 4096 / 8] >> (addr / 4096 % 8)) & 1 == 1 then 1 else 0
    {
      BusyBit(bitmap[..], addr / 4096);
      var f := addr / FRAME_SIZE;
      r := if bitmap[f / 8] & Mask(f % 8) != 0 then 1 else 0;
    }

    method GetIdleFrameAddr(minAddr: int, maxAddr: int) returns (r: Option<int>)
      requires 0 <= minAddr && 0 <= maxAddr <= bitmap.Length * 8 * FRAME_SIZE
      ensures r == Idle(bitmap[..], FirstFrame(minAddr), maxAddr)
    {
      var lo := minAddr;
      if lo % FRAME_SIZE != 0 {
        lo := lo - lo % FRAME_SIZE + FRAME_SIZE;
      }
      r := SearchFrom(lo / FRAME_SIZE, maxAddr);
    }

    method SearchFrom(start: int, maxAddr: int) returns (r: Option<int>)
      requires 0 <= start && 0 <= maxAddr <= bitmap.Length * 8 * FRAME_SIZE
      ensures r == Idle(bitmap[..], start, maxAddr)
    {
      var idx := start;
      var addr := idx * FRAME_SIZE;
      while addr < maxAddr
        invariant 0 <= idx && addr == idx * FRAME_SIZE
        invariant Idle(bitmap[..], idx, maxAddr) == Idle(bitmap[..], start, maxAddr)
        decreases maxAddr - addr
      {
        if bitmap[idx / 8] != 0xFF {
          var bit := FirstClrBit(bitmap[idx / 8]);
          addr := addr + bit * FRAME_SIZE;
          if addr + FRAME_SIZE > maxAddr {
            return Some(0);
          }
          return Some(addr);
        }
        addr := addr + 8 * FRAME_SIZE;
        idx := idx + 8;
      }
      return None;
    }

    // Marks the frame it returns.  In ranges that start at a byte boundary above
    // frame 0, as the kernel's do, that is the lowest idle frame of the range; 0
    // (or a halt, None) means that every frame of the range is busy.
    method AllocFrame(minAddr: int, maxAddr: int) returns (r: Option<int>)
      requires 0 <= minAddr && 0 <= maxAddr <= bitmap.Length * 8 * FRAME_SIZE
      modifies bitmap
      ensures r == Idle(old(bitmap[..]), FirstFrame(minAddr), maxAddr)
      ensures FirstFrame(minAddr) > 0 && FirstFrame(minAddr) % 8 == 0 ==>
                LowestOf(BusyFrames(old(bitmap[..])), FirstFrame(minAddr), FrameLimit(maxAddr), r)
      ensures BusyFrames(bitmap[..]) ==
              BusyFrames(old(bitmap[..])) + if r in {None, Some(0)} then {} else {r.value / FRAME_SIZE}
    {
      r := GetIdleFrameAddr(minAddr, maxAddr);
      if FirstFrame(minAddr) > 0 && FirstFrame(minAddr) % 8 == 0 {
        AlignedCorrect(bitmap[..], FirstFrame(minAddr), maxAddr);
        CorrectIsLowest(bitmap[..], FirstFrame(minAddr), maxAddr);
      }
      IdleInRange(bitmap[..], FirstFrame(minAddr), maxAddr);
      if r == None || r.value == 0 {
        return;
      }
      Mark(r.value / FRAME_SIZE);
    }

    method Mark(f: int)
      requires 0 <= f < bitmap.Length * 8
      modifies bitmap
      ensures BusyFrames(bitmap[..]) == BusyFrames(old(bitmap[..])) + {f}
    {
      ghost var bm := bitmap[..];
      SetFrameBusy(bm, f);
      bitmap[f / 8] := bitmap[f / 8] | Mask(f % 8);
      assert bitmap[..] == SetFrame(bm, f);
    }

    method ClearFrame(addr: int)
      requires 0 <= addr < bitmap.Length * 8 * FRAME_SIZE
      modifies bitmap
      ensures BusyFrames(bitmap[..]) == BusyFrames(old(bitmap[..])) - {addr / FRAME_SIZE}
    {
      var f := addr / FRAME_SIZE;
      ghost var bm := bitmap[..];
      SetFrameBusy(bm, f);
      bitmap[f / 8] := bitmap[f / 8] & !Mask(f % 8);
      assert bitmap[..] == ClrFrame(bm, f);
    }

    // The calls the kernel makes: ranges that start at a byte boundary above frame
    // 0, addresses inside the bitmap.
    predicate Served(op: FrameOp)
    {
      match op
      case Take(minAddr, maxAddr) =>
        && 0 <= minAddr && 0 <= maxAddr <= bitmap.Length * 8 * FRAME_SIZE
        && FirstFrame(minAddr) > 0 && FirstFrame(minAddr) % 8 == 0
      case Give(addr) => 0 <= addr < bitmap.Length * 8 * FRAME_SIZE
    }

    method Call(op: FrameOp) returns (r: Option<int>)
      requires Served(op)
      modifies bitmap
      ensures op.Take? ==>
                LowestOf(BusyFrames(old(bitmap[..])), FirstFrame(op.minAddr), FrameLimit(op.maxAddr), r)
      ensures BusyFrames(bitmap[..]) == After(BusyFrames(old(bitmap[..])), op, r)
    {
      match op {
        case Take(minAddr, maxAddr) =>
          IdleInRange(bitmap[..], FirstFrame(minAddr), maxAddr);
          r := AllocFrame(minAddr, maxAddr);
        case Give(addr) =>
          ClearFrame(addr);
          r := None;
      }
    }

    // Any run of alloc_frame and clear_frame: the bitmap is the set of busy frames
    // that the results account for.
    method Calls(ops: seq<FrameOp>) returns (rs: seq<Option<int>>)
      requires forall i :: 0 <= i < |ops| ==> Served(ops[i])
      modifies bitmap
      ensures Trace(BusyFrames(old(bitmap[..])), ops, rs)
      ensures BusyFrames(bitmap[..]) == AfterAll(BusyFrames(old(bitmap[..])), ops, rs)
      decreases |ops|
    {
      if ops == [] {
        return [];
      }
      var r := Call(ops[0]);
      var rest := Calls(ops[1..]);
      rs := [r] + rest;
      assert rs[1..] == rest;
    }
  }
}
