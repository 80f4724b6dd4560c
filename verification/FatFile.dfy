/**
  fat_write_file and fat_read_file.  A write links the next cluster as soon as
  the last one is full, and leaves file_size at the cursor wherever it began, so a
  write that stops inside the file cuts the file off there.
 */
module FatFile {
  import opened Arith
  import opened Bytes
  import opened FatVolume
  import opened FatChains

  // ----------------------------------------------------------- free clusters

  // Clusters the driver can allocate lie below this.
  function Limit(g: Geometry): int {
    if g.clusters <= CLUS_MAX then g.clusters else CLUS_MAX + 1
  }

  // A file can have as many clusters as it has and as are free, among those that are
  // normal and on the disk.
  lemma CapacityIs(f: FatFile)
    requires f.vol.Valid()
    ensures f.Capacity() == |f.chain| + |set c | 3 <= c <= 0xFFEF && c < f.vol.g.clusters && f.vol.fat[c] == 0|
  {
    var g, fat := f.vol.g, f.vol.fat;
    CountIsSize(fat, 3, Limit(g));
    assert FreeSet(fat, 3, Limit(g)) == set c | 3 <= c <= 0xFFEF && c < g.clusters && fat[c] == 0;
  }

  // ------------------------------------------------------- what a write changes

  // Cluster c has the entry and the bytes it had.
  ghost predicate Untouched(fat: seq<int>, data: seq<seq<byte>>, fat': seq<int>, data': seq<seq<byte>>, c: int) {
    && (0 <= c < |fat| && c < |fat'| ==> fat'[c] == fat[c])
    && (0 <= c < |data| && c < |data'| ==> data'[c] == data[c])
  }

  ghost predicate WasFree(fat: seq<int>, c: int) { 0 <= c < |fat| && fat[c] == 0 }

  // The chain has grown by clusters that were free; nothing outside it changed.
  ghost predicate Appended(fat: seq<int>, data: seq<seq<byte>>, ch: seq<int>,
                           fat': seq<int>, data': seq<seq<byte>>, ch': seq<int>) {
    && |fat'| == |fat| && |data'| == |data| && ch <= ch'
    && (forall c {:trigger Untouched(fat, data, fat', data', c)} :: c !in ch' ==> Untouched(fat, data, fat', data', c))
    && (forall i {:trigger WasFree(fat, ch'[i])} :: |ch| <= i < |ch'| ==> WasFree(fat, ch'[i]))
  }

  lemma AppendedTrans(fat: seq<int>, data: seq<seq<byte>>, ch: seq<int>,
                      fat1: seq<int>, data1: seq<seq<byte>>, ch1: seq<int>,
                      fat2: seq<int>, data2: seq<seq<byte>>, ch2: seq<int>)
    requires Appended(fat, data, ch, fat1, data1, ch1) && Appended(fat1, data1, ch1, fat2, data2, ch2)
    requires IsChain(fat1, ch1) && fat1[ch1[|ch1| - 1]] != 0
    ensures Appended(fat, data, ch, fat2, data2, ch2)
  {
    forall c | c in ch1 ensures c in ch2 {
      var i :| 0 <= i < |ch1| && ch1[i] == c;
      assert ch2[i] == c;
    }
    forall c | c !in ch2 ensures Untouched(fat, data, fat2, data2, c) {
      assert Untouched(fat, data, fat1, data1, c) && Untouched(fat1, data1, fat2, data2, c);
    }
    forall i | |ch| <= i < |ch2| ensures WasFree(fat, ch2[i]) {
      if i < |ch1| {
        assert WasFree(fat, ch1[i]) && ch2[i] == ch1[i];
      } else {
        NewWasFree(fat1, ch1, ch2[i]);
        assert Untouched(fat, data, fat1, data1, ch2[i]);
      }
    }
  }

  // A free cluster is on no chain.
  lemma NewWasFree(fat: seq<int>, ch: seq<int>, c: int)
    requires IsChain(fat, ch) && fat[ch[|ch| - 1]] != 0 && WasFree(fat, c)
    ensures c !in ch
  {
    forall k | 0 <= k < |ch| ensures ch[k] != c { ChainBusy(fat, ch, k); }
  }

  // Every other file keeps its chain and its bytes.
  lemma OtherFileKept(fat: seq<int>, data: seq<seq<byte>>, ch: seq<int>,
                      fat': seq<int>, data': seq<seq<byte>>, ch': seq<int>,
                      other: seq<int>, cb: int, bytes: seq<byte>)
    requires Appended(fat, data, ch, fat', data', ch')
    requires IsChain(fat, other) && fat[other[|other| - 1]] != 0
    requires forall c :: c in other ==> c !in ch
    requires Content(data, other, cb, bytes)
    ensures IsChain(fat', other) && fat'[other[|other| - 1]] != 0
    ensures forall c :: c in other ==> c !in ch'
    ensures Content(data', other, cb, bytes)
    ensures forall s :: Content(data', other, cb, s) && |s| == |bytes| ==> s == bytes
  {
    forall c | c in other ensures c !in ch' {
      forall i | 0 <= i < |ch'| ensures ch'[i] != c {
        if i < |ch| { assert ch'[i] == ch[i]; } else if ch'[i] == c {
          assert WasFree(fat, ch'[i]);
          NewWasFree(fat, other, c);
        }
      }
    }
    forall c | c in other ensures Untouched(fat, data, fat', data', c) {}
    forall i | 0 <= i < |other| ensures fat'[other[i]] == fat[other[i]] {
      assert Untouched(fat, data, fat', data', other[i]);
    }
    ChainKept(fat, fat', other);
    forall c | c in other && 0 <= c < |data| ensures data'[c] == data[c] {
      assert Untouched(fat, data, fat', data', c);
    }
    ContentKept(data, data', other, cb, bytes);
    forall s | Content(data', other, cb, s) && |s| == |bytes| ensures s == bytes {
      ContentUnique(data', other, cb, s, bytes);
    }
  }

  // ------------------------------------------------------ one piece of a write

  function Patch(block: seq<byte>, at: int, piece: seq<byte>): (r: seq<byte>)
    requires 0 <= at && at + |piece| <= |block|
    ensures |r| == |block|
    ensures forall i :: 0 <= i < |block| ==> r[i] == if at <= i < at + |piece| then piece[i - at] else block[i]
  {
    block[..at] + piece + block[at + |piece|..]
  }

  // The cluster and position of the next offsets up to the end of a cluster.
  lemma WithinCluster(off: int, o: int, cb: int)
    requires cb > 0 && off >= 0 && off <= o < off + cb - off % cb
    ensures o / cb == off / cb && o % cb == off % cb + (o - off)
  {
    DivMod(off, cb);
    DivIs(o, off / cb, off % cb + (o - off), cb);
  }

  lemma BeforeCluster(off: int, o: int, cb: int)
    requires cb > 0 && 0 <= o < off
    ensures o / cb < off / cb || (o / cb == off / cb && o % cb < off % cb)
  {
    DivMono(o, off, cb);
    DivMod(o, cb);
    DivMod(off, cb);
  }

  // After n more bytes the cursor is in the same cluster, or at the start of the next.
  lemma Advance(off: int, n: int, cb: int)
    requires cb > 0 && off >= 0 && 0 < n <= cb - off % cb
    ensures (off + n) % cb == 0 <==> n == cb - off % cb
    ensures (off + n) / cb == off / cb + if n == cb - off % cb then 1 else 0
  {
    DivMod(off, cb);
    if n == cb - off % cb {
      Distrib(off / cb, 1, cb);
      DivIs(off + n, off / cb + 1, 0, cb);
    } else {
      DivIs(off + n, off / cb, off % cb + n, cb);
    }
  }

  // Bytes before the piece, in the same cluster or an earlier one.
  lemma OldByteKept(data: seq<seq<byte>>, ch: seq<int>, cb: int, off: int, block: seq<byte>, o: int, b: byte)
    requires cb > 0 && 0 <= o < off && off / cb < |ch| && Holds(data, ch, cb, o, b)
    requires forall i, j :: 0 <= i < j < |ch| ==> ch[i] != ch[j]
    requires 0 <= ch[off / cb] < |data| && |block| == |data[ch[off / cb]]|
    requires forall i :: 0 <= i < off % cb && i < |block| ==> block[i] == data[ch[off / cb]][i]
    ensures Holds(data[ch[off / cb] := block], ch, cb, o, b)
  {
    BeforeCluster(off, o, cb);
    DivMod(o, cb);
  }

  // Bytes behind the piece, in the same cluster or a later one.
  lemma LaterByteKept(data: seq<seq<byte>>, ch: seq<int>, cb: int, off: int, n: int, block: seq<byte>, o: int, b: byte)
    requires cb > 0 && 0 <= off && 0 <= n <= cb - off % cb && off + n <= o && off / cb < |ch| && Holds(data, ch, cb, o, b)
    requires forall i, j :: 0 <= i < j < |ch| ==> ch[i] != ch[j]
    requires 0 <= ch[off / cb] < |data| && |block| == |data[ch[off / cb]]|
    requires forall i :: off % cb + n <= i < |block| ==> block[i] == data[ch[off / cb]][i]
    ensures Holds(data[ch[off / cb] := block], ch, cb, o, b)
  {
    if o < off + cb - off % cb {
      WithinCluster(off, o, cb);
    } else {
      BehindCluster(off, o, cb);
    }
  }

  lemma BehindCluster(off: int, o: int, cb: int)
    requires cb > 0 && off >= 0 && o >= off + cb - off % cb
    ensures o / cb > off / cb
  {
    DivMod(off, cb);
    Distrib(off / cb, 1, cb);
    DivIs(off + cb - off % cb, off / cb + 1, 0, cb);
    DivMono(off + cb - off % cb, o, cb);
  }

  lemma NewByte(data: seq<seq<byte>>, ch: seq<int>, cb: int, off: int, piece: seq<byte>, o: int)
    requires cb > 0 && 0 <= off && off / cb < |ch| && off <= o < off + |piece| && |piece| <= cb - off % cb
    requires 0 <= ch[off / cb] < |data| && |data[ch[off / cb]]| == cb
    ensures var c := ch[off / cb];
            Holds(data[c := Patch(data[c], off % cb, piece)], ch, cb, o, piece[o - off])
  {
    WithinCluster(off, o, cb);
  }

  // What the documentation of fat_write_file promises of the bytes: buf replaces
  // what was at offset off, and the file grows if buf reaches past its end.
  function Overlay(s: seq<byte>, off: int, buf: seq<byte>): (r: seq<byte>)
    requires 0 <= off <= |s|
    ensures |r| == Max(|s|, off + |buf|)
  {
    s[..off] + buf + if off + |buf| < |s| then s[off + |buf|..] else []
  }

  lemma OverlayAt(s: seq<byte>, off: int, buf: seq<byte>, o: int)
    requires 0 <= off <= |s| && 0 <= o < |Overlay(s, off, buf)|
    ensures Overlay(s, off, buf)[o] == if off <= o < off + |buf| then buf[o - off] else s[o]
  {}

  // What is left of the file under the size that fat_write_file stores.
  function Kept(s: seq<byte>, off: int, buf: seq<byte>): seq<byte>
    requires 0 <= off <= |s|
  {
    s[..off] + buf
  }

  function Max(a: int, b: int): int { if a >= b then a else b }
  function Min(a: int, b: int): int { if a <= b then a else b }

  // The code does what its documentation says exactly for the writes that reach
  // the old end of the file; every other write cuts off the bytes behind it.
  lemma PromiseKeptIff(s: seq<byte>, off: int, buf: seq<byte>)
    requires 0 <= off <= |s|
    ensures Kept(s, off, buf) == Overlay(s, off, buf)[..off + |buf|]
    ensures |Kept(s, off, buf)| == Max(|s|, off + |buf|) <==> off + |buf| >= |s|
    ensures Kept(s, off, buf) == Overlay(s, off, buf) <==> off + |buf| >= |s|
  {
    assert Kept(s, off, buf) == Overlay(s, off, buf)[..off + |buf|];
    if off + |buf| >= |s| { assert Kept(s, off, buf) == Overlay(s, off, buf); }
  }

  // One byte written over the first of two: the second is gone.
  lemma PromiseBroken()
    ensures Overlay([1, 2], 0, [3]) == [3, 2] && Kept([1, 2], 0, [3]) == [3]
  {}

  lemma OverlayMore(s: seq<byte>, off: int, buf: seq<byte>, cnt: nat, n: nat)
    requires 0 <= off <= |s| && cnt + n <= |buf|
    ensures Overlay(Overlay(s, off, buf[..cnt]), off + cnt, buf[cnt..cnt + n]) == Overlay(s, off, buf[..cnt + n])
  {}

  lemma PieceWritten(data: seq<seq<byte>>, ch: seq<int>, cb: int, s: seq<byte>, off: int, piece: seq<byte>)
    requires cb > 0 && Content(data, ch, cb, s) && 0 <= off <= |s| && off / cb < |ch|
    requires forall i, j :: 0 <= i < j < |ch| ==> ch[i] != ch[j]
    requires 0 <= ch[off / cb] < |data| && |data[ch[off / cb]]| == cb
    requires |piece| <= cb - off % cb
    ensures var c := ch[off / cb];
            Content(data[c := Patch(data[c], off % cb, piece)], ch, cb, Overlay(s, off, piece))
  {
    var c := ch[off / cb];
    var block := Patch(data[c], off % cb, piece);
    var t := Overlay(s, off, piece);
    forall o | 0 <= o < |t| ensures Holds(data[c := block], ch, cb, o, t[o]) {
      OverlayAt(s, off, piece, o);
      if off <= o < off + |piece| {
        NewByte(data, ch, cb, off, piece, o);
      } else {
        assert Holds(data, ch, cb, o, s[o]);
        if o < off {
          OldByteKept(data, ch, cb, off, block, o, s[o]);
        } else {
          LaterByteKept(data, ch, cb, off, |piece|, block, o, s[o]);
        }
      }
    }
  }

  // A chain extended at its end still holds the same bytes.
  lemma ContentExtend(data: seq<seq<byte>>, ch: seq<int>, f: int, cb: int, s: seq<byte>)
    requires Content(data, ch, cb, s)
    ensures Content(data, ch + [f], cb, s)
  {
    forall o | 0 <= o < |s| ensures Holds(data, ch + [f], cb, o, s[o]) {
      assert Holds(data, ch, cb, o, s[o]);
    }
  }

  class FatFile {
    const vol: Volume
    const start: int           // dirent->start_cluster
    const isDirectory: bool
    const writable: bool       // flag & FAT16_CTL_WRITE
    var fileSize: int          // dirent->file_size
    var byteOffset: int
    var currentCluster: int

    // The file's chain, and its bytes up to file_size.
    ghost var chain: seq<int>
    ghost var bytes: seq<byte>

    constructor (vol: Volume, start: int, isDirectory: bool, writable: bool, fileSize: int, ghost chain: seq<int>, ghost bytes: seq<byte>)
      ensures this.vol == vol && this.start == start && this.isDirectory == isDirectory && this.writable == writable
      ensures this.fileSize == fileSize && byteOffset == 0 && currentCluster == start
      ensures this.chain == chain && this.bytes == bytes
    {
      this.vol, this.start, this.isDirectory, this.writable := vol, start, isDirectory, writable;
      this.fileSize, byteOffset, currentCluster := fileSize, 0, start;
      this.chain, this.bytes := chain, bytes;
    }

    // A terminated chain whose clusters exist on the disk.
    ghost predicate Chained()
      reads this`chain, vol
    {
      && vol.Valid()
      && IsChain(vol.fat, chain) && Eof(vol.fat[chain[|chain| - 1]]) && chain[0] == start
      && (forall i :: 0 <= i < |chain| ==> chain[i] < vol.g.clusters)
    }

    // Clusters the file has or can still get.
    ghost function Capacity(): int
      reads this`chain, vol
      requires vol.Valid()
    {
      |chain| + CountFree(vol.fat, 3, Limit(vol.g))
    }

    // A write in progress: the clusters hold `bytes`, and `cluster` is the one the
    // cursor points into.
    ghost predicate Writing(cluster: int)
      reads this`chain, this`byteOffset, this`bytes, vol
    {
      && Chained()
      && 0 <= byteOffset <= |bytes| && byteOffset / vol.g.clusterBytes < |chain|
      && cluster == chain[byteOffset / vol.g.clusterBytes]
      && Content(vol.data, chain, vol.g.clusterBytes, bytes)
    }

    // A file with its cursor anywhere from its start to its end, and the cursor's
    // cluster, unless that is end-of-chain.
    ghost predicate Open()
      reads this, vol
    {
      && Chained()
      && 0 <= byteOffset <= fileSize == |bytes|
      && (!Eof(currentCluster) ==>
            byteOffset / vol.g.clusterBytes < |chain| && currentCluster == chain[byteOffset / vol.g.clusterBytes])
      && Content(vol.data, chain, vol.g.clusterBytes, bytes)
    }

    // The shape that writes at end of file keep: the cursor is at file_size, in the
    // last cluster, and that cluster has room.
    ghost predicate AtEnd()
      reads this, vol
    {
      && Open() && !Eof(currentCluster)
      && byteOffset == fileSize && |chain| == fileSize / vol.g.clusterBytes + 1
    }

    // The calls that fat_write_file does not refuse.
    ghost predicate Accepts()
      reads this`currentCluster
    {
      !isDirectory && writable && !Eof(currentCluster)
    }

    // Read the cluster, copy the piece into it, write it back.
    method StorePiece(cluster: int, piece: seq<byte>)
      requires Writing(cluster) && 0 < |piece|
      requires |piece| <= vol.g.clusterBytes - byteOffset % vol.g.clusterBytes
      modifies this`byteOffset, this`bytes, vol
      ensures Chained()
      ensures byteOffset == old(byteOffset) + |piece| && bytes == Overlay(old(bytes), old(byteOffset), piece)
      ensures Content(vol.data, chain, vol.g.clusterBytes, bytes)
      ensures vol.fat == old(vol.fat) && Appended(old(vol.fat), old(vol.data), chain, vol.fat, vol.data, chain)
    {
      var cb := vol.g.clusterBytes;
      ChainDistinct(vol.fat, chain);
      var block := vol.ReadCluster(cluster);
      PieceWritten(vol.data, chain, cb, bytes, byteOffset, piece);
      block := Patch(block, byteOffset % cb, piece);
      vol.WriteCluster(cluster, block);
      bytes := Overlay(bytes, byteOffset, piece);
      byteOffset := byteOffset + |piece|;
    }

    // A free cluster is linked behind the last one.
    method Extend(cluster: int) returns (next: int)
      requires Chained() && cluster == chain[|chain| - 1]
      requires Content(vol.data, chain, vol.g.clusterBytes, bytes)
      requires CountFree(vol.fat, 3, Limit(vol.g)) > 0
      modifies this`chain, vol
      ensures Chained() && chain == old(chain) + [next]
      ensures Content(vol.data, chain, vol.g.clusterBytes, bytes) && vol.data == old(vol.data)
      ensures Appended(old(vol.fat), old(vol.data), old(chain), vol.fat, vol.data, chain)
      ensures Capacity() == old(Capacity())
      ensures FirstFree(old(vol.fat), 3) == next < |vol.fat| && vol.fat == old(vol.fat)[cluster := next][next := 0xFFFF]
    {
      CountPositive(vol.fat, 3, Limit(vol.g));
      ghost var f := FirstFree(vol.fat, 3);
      ChainExtend(vol.fat, chain, f);
      ContentExtend(vol.data, chain, f, vol.g.clusterBytes, bytes);
      CountUpdate(vol.fat, 3, Limit(vol.g), cluster, f);
      CountUpdate(vol.fat[cluster := f], 3, Limit(vol.g), f, 0xFFFF);
      next := vol.TakeFreeCluster();
      vol.WriteFat(cluster, next);
      vol.WriteFat(next, 0xFFFF);
      chain := chain + [next];
    }

    // The step at a cluster boundary: on to the next cluster of the chain, which is
    // linked first if there is none.
    method LinkNext(cluster: int, ghost k: nat) returns (next: int)
      requires Chained() && k < |chain| && cluster == chain[k]
      requires Content(vol.data, chain, vol.g.clusterBytes, bytes)
      requires k == |chain| - 1 ==> CountFree(vol.fat, 3, Limit(vol.g)) > 0
      modifies this`chain, vol
      ensures Chained() && k + 1 < |chain| && next == chain[k + 1]
      ensures |chain| == Max(old(|chain|), k + 2)
      ensures Content(vol.data, chain, vol.g.clusterBytes, bytes) && vol.data == old(vol.data)
      ensures Appended(old(vol.fat), old(vol.data), old(chain), vol.fat, vol.data, chain)
      ensures Capacity() == old(Capacity())
      ensures k + 1 < old(|chain|) ==> vol.fat == old(vol.fat)
    {
      next := vol.GetNextCluster(cluster);
      if k + 1 < |chain| { assert Linked(vol.fat, chain, k); }
      if Eof(next) {
        next := Extend(cluster);
      }
    }

    // The file and the disk as values.
    ghost function Now(): Image
      reads this`chain, this`byteOffset, this`bytes, vol
    {
      Image(vol.fat, vol.data, chain, bytes, byteOffset)
    }

    // One round of fat_write_file's loop, for a piece that does not cross a
    // cluster boundary.
    method WritePiece(cluster: int, piece: seq<byte>) returns (next: int)
      requires Writing(cluster) && 0 < |piece|
      requires |piece| <= vol.g.clusterBytes - byteOffset % vol.g.clusterBytes
      requires (byteOffset + |piece|) / vol.g.clusterBytes < Capacity()
      modifies this`byteOffset, this`bytes, this`chain, vol
      ensures Writing(next) && Wrote(old(Now()), piece, Now(), vol.g.clusterBytes) && Capacity() == old(Capacity())
    {
      ghost var k := byteOffset / vol.g.clusterBytes;
      DivMod(byteOffset, vol.g.clusterBytes);
      RoomLeft(byteOffset, |piece|, |chain|, Capacity(), vol.g.clusterBytes);
      StorePiece(cluster, piece);
      next := cluster;
      if byteOffset % vol.g.clusterBytes == 0 {
        ghost var data1 := vol.data;
        next := LinkNext(cluster, k);
        AppendedTrans(old(vol.fat), old(vol.data), old(chain), old(vol.fat), data1, old(chain), vol.fat, vol.data, chain);
      }
    }

    // One round of the loop of a write of buf that began in state w and has stored
    // cnt bytes.
    method Round(cluster: int, buf: seq<byte>, cnt: int, ghost w: Image) returns (next: int, cnt': int)
      requires Writing(cluster) && 0 <= cnt < |buf|
      requires Wrote(w, buf[..cnt], Now(), vol.g.clusterBytes) && (w.off + |buf|) / vol.g.clusterBytes < Capacity()
      modifies this`byteOffset, this`bytes, this`chain, vol
      ensures Writing(next) && cnt < cnt' <= |buf| && Capacity() == old(Capacity())
      ensures Wrote(w, buf[..cnt'], Now(), vol.g.clusterBytes)
    {
      var cb := vol.g.clusterBytes;
      DivMod(byteOffset, cb);
      var n := if cb - byteOffset % cb <= |buf| - cnt then cb - byteOffset % cb else |buf| - cnt;
      ghost var here := Now();
      DivMono(byteOffset + n, w.off + |buf|, cb);
      next := WritePiece(cluster, buf[cnt..cnt + n]);
      WroteMore(w, here, Now(), buf, cnt, n, cb);
      cnt' := cnt + n;
    }

    // fat_write_file's loop.
    method WriteLoop(buf: seq<byte>) returns (cluster: int)
      requires Writing(currentCluster)
      requires (byteOffset + |buf|) / vol.g.clusterBytes < Capacity()
      modifies this`byteOffset, this`bytes, this`chain, vol
      ensures Writing(cluster) && Capacity() == old(Capacity())
      ensures Wrote(old(Now()), buf, Now(), vol.g.clusterBytes)
    {
      cluster := currentCluster;
      var cnt := 0;
      ghost var w, capacity := Now(), Capacity();
      WroteNothing(w, buf, vol.g.clusterBytes);
      while cnt < |buf|
        invariant 0 <= cnt <= |buf| && Writing(cluster) && Capacity() == capacity
        invariant Wrote(w, buf[..cnt], Now(), vol.g.clusterBytes)
      {
        cluster, cnt := Round(cluster, buf, cnt, w);
      }
      assert buf[..cnt] == buf;
    }

    // A write that is not refused.
    method WriteData(buf: seq<byte>)
      requires Writing(currentCluster) && fileSize == |bytes|
      requires (byteOffset + |buf|) / vol.g.clusterBytes < Capacity()
      modifies this`fileSize, this`byteOffset, this`currentCluster, this`bytes, this`chain, vol
      ensures Open() && Normal(currentCluster) && Capacity() == old(Capacity())
      ensures byteOffset == fileSize == |bytes| == old(byteOffset) + |buf|
      ensures bytes == Kept(old(bytes), old(byteOffset), buf)
      ensures Content(vol.data, chain, vol.g.clusterBytes, Overlay(old(bytes), old(byteOffset), buf))
      ensures |chain| == Max(old(|chain|), fileSize / vol.g.clusterBytes + 1)
      ensures Appended(old(vol.fat), old(vol.data), old(chain), vol.fat, vol.data, chain)
    {
      PromiseKeptIff(bytes, byteOffset, buf);
      var cluster := WriteLoop(buf);
      ContentPrefix(vol.data, chain, vol.g.clusterBytes, bytes, byteOffset);
      bytes := bytes[..byteOffset];
      fileSize := byteOffset;
      currentCluster := cluster;
      WritingIsOpen();
    }

    lemma WritingIsOpen()
      requires Writing(currentCluster) && fileSize == |bytes|
      ensures Open() && Normal(currentCluster)
    {}

    lemma OpenIsWriting()
      requires Open() && !Eof(currentCluster)
      ensures Writing(currentCluster)
    {}

    // fat_write_file.  -2: a directory, or not open for writing.  -1: the cursor is
    // past the last cluster.
    method Write(buf: seq<byte>) returns (r: int)
      requires Open()
      requires Accepts() ==> (byteOffset + |buf|) / vol.g.clusterBytes < Capacity()
      modifies this`fileSize, this`byteOffset, this`currentCluster, this`bytes, this`chain, vol
      ensures Open() && Capacity() == old(Capacity())
      ensures !old(Accepts()) ==>
                && r == (if isDirectory || !writable then -2 else -1)
                && bytes == old(bytes) && byteOffset == old(byteOffset) && chain == old(chain)
                && vol.fat == old(vol.fat) && vol.data == old(vol.data)
      ensures r == -1 <==> !isDirectory && writable && 0xFFF8 <= old(currentCluster) <= 0xFFFF
      ensures old(Accepts()) ==>
                && r == |buf| && Accepts() && byteOffset == fileSize == old(byteOffset) + |buf|
                && bytes == Kept(old(bytes), old(byteOffset), buf)
                && Content(vol.data, chain, vol.g.clusterBytes, Overlay(old(bytes), old(byteOffset), buf))
                && |chain| == Max(old(|chain|), fileSize / vol.g.clusterBytes + 1)
      ensures old(Accepts()) ==>
                (fileSize == Max(old(fileSize), old(byteOffset) + |buf|) <==> old(byteOffset) + |buf| >= old(fileSize))
      ensures Appended(old(vol.fat), old(vol.data), old(chain), vol.fat, vol.data, chain)
    {
      if isDirectory || !writable {
        return -2;
      }
      if Eof(currentCluster) {
        return -1;
      }
      OpenIsWriting();
      WriteData(buf);
      r := |buf|;
    }

    // One of several writes that began in state w.
    method WriteOne(buf: seq<byte>, ghost w: Image)
      requires Open() && Accepts()
      requires (byteOffset + |buf|) / vol.g.clusterBytes < Capacity()
      requires Appended(w.fat, w.data, w.chain, vol.fat, vol.data, chain)
      modifies this`fileSize, this`byteOffset, this`currentCluster, this`bytes, this`chain, vol
      ensures Open() && Accepts() && Capacity() == old(Capacity())
      ensures bytes == Kept(old(bytes), old(byteOffset), buf) && byteOffset == fileSize
      ensures |chain| == Max(old(|chain|), fileSize / vol.g.clusterBytes + 1)
      ensures Appended(w.fat, w.data, w.chain, vol.fat, vol.data, chain)
    {
      ghost var fat1, data1, chain1 := vol.fat, vol.data, chain;
      assert IsChain(fat1, chain1) && fat1[chain1[|chain1| - 1]] != 0;
      var _ := Write(buf);
      AppendedTrans(w.fat, w.data, w.chain, fat1, data1, chain1, vol.fat, vol.data, chain);
    }

    // Writes that begin at end of file.
    method WriteRest(bufs: seq<seq<byte>>, ghost w: Image)
      requires Open() && Accepts() && byteOffset == fileSize
      requires (byteOffset + |Joined(bufs)|) / vol.g.clusterBytes < Capacity()
      requires Appended(w.fat, w.data, w.chain, vol.fat, vol.data, chain)
      modifies this`fileSize, this`byteOffset, this`currentCluster, this`bytes, this`chain, vol
      ensures Open() && Accepts() && byteOffset == fileSize && Capacity() == old(Capacity())
      ensures bytes == old(bytes) + Joined(bufs)
      ensures |chain| == Max(old(|chain|), fileSize / vol.g.clusterBytes + 1)
      ensures Appended(w.fat, w.data, w.chain, vol.fat, vol.data, chain)
      decreases |bufs|
    {
      if bufs != [] {
        JoinedStep(bytes, bufs);
        DivMono3(byteOffset, |bufs[0]|, |Joined(bufs[1..])|, vol.g.clusterBytes);
        WriteOne(bufs[0], w);
        WriteRest(bufs[1..], w);
      }
    }

    // Any number of writes one after the other: together they are one write of all
    // the data.
    method WriteAll(bufs: seq<seq<byte>>)
      requires Open() && Accepts()
      requires (byteOffset + |Joined(bufs)|) / vol.g.clusterBytes < Capacity()
      modifies this`fileSize, this`byteOffset, this`currentCluster, this`bytes, this`chain, vol
      ensures Open() && Accepts() && Capacity() == old(Capacity())
      ensures bytes == if bufs == [] then old(bytes) else Kept(old(bytes), old(byteOffset), Joined(bufs))
      ensures bufs != [] ==>
                byteOffset == fileSize && |chain| == Max(old(|chain|), fileSize / vol.g.clusterBytes + 1)
      ensures Appended(old(vol.fat), old(vol.data), old(chain), vol.fat, vol.data, chain)
    {
      if bufs != [] {
        ghost var w := Now();
        JoinedStep(bytes[..byteOffset], bufs);
        DivMono3(byteOffset, |bufs[0]|, |Joined(bufs[1..])|, vol.g.clusterBytes);
        WriteOne(bufs[0], w);
        assert byteOffset == w.off + |bufs[0]|;
        WriteRest(bufs[1..], w);
        assert bytes == Kept(w.bytes, w.off, Joined(bufs));
        assert byteOffset == w.off + (|bufs[0]| + |Joined(bufs[1..])|);
      }
    }

    lemma EndAccepts()
      requires AtEnd()
      ensures Normal(currentCluster)
    {}

    // At end of file the data is appended, and the chain keeps one more cluster than
    // the file has full ones.
    method AppendAll(bufs: seq<seq<byte>>)
      requires AtEnd() && !isDirectory && writable
      requires (byteOffset + |Joined(bufs)|) / vol.g.clusterBytes < Capacity()
      modifies this`fileSize, this`byteOffset, this`currentCluster, this`bytes, this`chain, vol
      ensures AtEnd() && bytes == old(bytes) + Joined(bufs) && Capacity() == old(Capacity())
      ensures Appended(old(vol.fat), old(vol.data), old(chain), vol.fat, vol.data, chain)
    {
      DivMono(byteOffset, byteOffset + |Joined(bufs)|, vol.g.clusterBytes);
      EndAccepts();
      WriteRest(bufs, Now());
    }

    // ------------------------------------------------------------------ reading

    // What can be read: a regular file up to file_size, a directory up to the end
    // of its chain.
    ghost function Length(): int
      reads this`chain, this`fileSize
    {
      if isDirectory then |chain| * vol.g.clusterBytes else fileSize
    }

    // A file whose chain covers its length, with the cursor somewhere in it.
    ghost predicate Readable()
      reads this, vol
    {
      && Chained()
      && |bytes| == Length()
      && Content(vol.data, chain, vol.g.clusterBytes, bytes)
      && 0 <= byteOffset <= |bytes|
      && (byteOffset < |bytes| || isDirectory ==> InChain(chain, vol.g.clusterBytes, byteOffset, currentCluster))
    }

    // One round of fat_read_file's loop.
    method ReadPiece(cluster: int, offset: int, limit: int, out: seq<byte>, ghost from: int)
      returns (cluster': int, offset': int, out': seq<byte>)
      requires Readable() && 0 <= from <= offset < limit
      requires InChain(chain, vol.g.clusterBytes, offset, cluster) && !Eof(cluster)
      requires |out| == offset - from && Copied(out, bytes, from)
      ensures offset < offset' <= limit && InChain(chain, vol.g.clusterBytes, offset', cluster')
      ensures |out'| == offset' - from && Copied(out', bytes, from)
    {
      var cb := vol.g.clusterBytes;
      var block := vol.ReadCluster(cluster);
      NextBoundary(offset, cb);
      var next := if limit <= (offset + cb) / cb * cb then limit else (offset + cb) / cb * cb;
      var n := next - offset;
      PieceRead(vol.data, chain, cb, bytes, out, from, n);
      out' := out + block[offset % cb..offset % cb + n];
      CursorMoves(vol.fat, chain, cb, offset, n, cluster);
      cluster' := cluster;
      if next / cb != offset / cb {
        cluster' := vol.GetNextCluster(cluster);
      }
      offset' := next;
    }

    // fat_read_file's loop: copies up to `limit` or the end of the chain.
    method ReadLoop(limit: int) returns (cluster: int, offset: int, out: seq<byte>)
      requires Readable() && byteOffset < |bytes| && byteOffset <= limit
      ensures |out| == offset - byteOffset
      ensures InChain(chain, vol.g.clusterBytes, offset, cluster)
      ensures Copied(out, bytes, byteOffset)
      ensures offset == Min(limit, |chain| * vol.g.clusterBytes)
    {
      cluster, offset, out := currentCluster, byteOffset, [];
      while offset < limit && !Eof(cluster)
        invariant byteOffset <= offset <= limit && InChain(chain, vol.g.clusterBytes, offset, cluster)
        invariant |out| == offset - byteOffset && Copied(out, bytes, byteOffset)
        decreases limit - offset
      {
        cluster, offset, out := ReadPiece(cluster, offset, limit, out, byteOffset);
      }
      ChainReach(vol.fat, chain, vol.g.clusterBytes, offset, cluster);
    }

    // What a read before the end of the file copies, how much of it counts, and the
    // cluster where the copying stopped.
    method Fetch(bufSize: nat) returns (n: int, out: seq<byte>, cluster: int)
      requires Readable() && byteOffset < |bytes|
      ensures n == Min(bufSize, |bytes| - byteOffset) && n <= |out| <= bufSize
      ensures out[..n] == bytes[byteOffset..byteOffset + n]
      ensures byteOffset + n < |bytes| || isDirectory ==> InChain(chain, vol.g.clusterBytes, byteOffset + n, cluster)
      ensures var stop := Min(byteOffset + bufSize, |chain| * vol.g.clusterBytes);
              && InChain(chain, vol.g.clusterBytes, stop, cluster)
              && (InChain(chain, vol.g.clusterBytes, byteOffset + n, cluster) <==>
                  (byteOffset + n) / vol.g.clusterBytes == stop / vol.g.clusterBytes)
    {
      var offset;
      cluster, offset, out := ReadLoop(byteOffset + bufSize);
      n := offset - byteOffset;
      if !isDirectory {
        if offset >= fileSize {
          n := n - (offset - fileSize);
        }
      }
      Covered(vol.data, chain, vol.g.clusterBytes, bytes);
      CopiedPrefix(out, bytes, byteOffset, n);
      InStepIff(vol.fat, chain, vol.g.clusterBytes, offset, byteOffset + n, cluster);
    }

    // fat_read_file, except on the root directory; `out` is what is copied to the
    // caller's buffer, of which the first n bytes are the result.  -1: end of file.
    // The cluster is left where the copying stopped, which can be past the cursor.
    method Read(bufSize: nat) returns (n: int, out: seq<byte>)
      requires Readable()
      modifies this`byteOffset, this`currentCluster
      ensures Readable()
      ensures n == -1 <==> old(byteOffset) == |bytes|
      ensures n == -1 ==> out == [] && byteOffset == old(byteOffset) && currentCluster == old(currentCluster)
      ensures n != -1 ==>
                && n == Min(bufSize, |bytes| - old(byteOffset)) && n <= |out| <= bufSize
                && byteOffset == old(byteOffset) + n
                && out[..n] == bytes[old(byteOffset)..old(byteOffset) + n]
      ensures n != -1 ==>
                var stop := Min(old(byteOffset) + bufSize, |chain| * vol.g.clusterBytes);
                && InChain(chain, vol.g.clusterBytes, stop, currentCluster)
                && (InChain(chain, vol.g.clusterBytes, byteOffset, currentCluster) <==>
                    byteOffset / vol.g.clusterBytes == stop / vol.g.clusterBytes)
    {
      out := [];
      CursorNormal();
      if (!isDirectory && byteOffset >= fileSize) || Eof(currentCluster) {
        return -1, out;
      }
      var cluster;
      n, out, cluster := Fetch(bufSize);
      currentCluster := cluster;
      byteOffset := byteOffset + n;
    }

    lemma Rewound()
      requires Chained() && Content(vol.data, chain, vol.g.clusterBytes, bytes)
      requires !isDirectory && fileSize == |bytes| && byteOffset == 0 && currentCluster == start
      ensures Readable()
    {
      DivIs(0, 0, 0, vol.g.clusterBytes);
    }

    lemma CursorNormal()
      requires Readable()
      ensures byteOffset < |bytes| ==> !Eof(currentCluster)
      ensures isDirectory && byteOffset == |bytes| ==> Eof(currentCluster)
    {
      var cb := vol.g.clusterBytes;
      if byteOffset < |bytes| {
        Covered(vol.data, chain, cb, bytes);
        DivBound(byteOffset, |chain|, cb);
      } else if isDirectory {
        DivIs(byteOffset, |chain|, 0, cb);
      }
    }

    // The bytes a caller gets from one read: none at end of file.
    method ReadNext(size: nat) returns (got: seq<byte>)
      requires Readable()
      modifies this`byteOffset, this`currentCluster
      ensures Readable()
      ensures old(byteOffset) <= byteOffset <= |bytes|
      ensures byteOffset == Min(old(byteOffset) + size, |bytes|)
      ensures got == bytes[old(byteOffset)..byteOffset]
    {
      var n, out := Read(size);
      got := if n == -1 then [] else out[..n];
    }

    // Successive reads with any buffer sizes: together they return the file from
    // the cursor on, stopping at its end.
    method ReadAll(sizes: seq<nat>) returns (got: seq<byte>)
      requires Readable()
      modifies this`byteOffset, this`currentCluster
      ensures Readable()
      ensures old(byteOffset) <= byteOffset <= |bytes|
      ensures got == bytes[old(byteOffset)..byteOffset]
      ensures byteOffset == Min(old(byteOffset) + Total(sizes), |bytes|)
      decreases |sizes|
    {
      if sizes == [] {
        return [];
      }
      var head := ReadNext(sizes[0]);
      ghost var mid := byteOffset;
      var rest := ReadAll(sizes[1..]);
      SlicesJoin(bytes, old(byteOffset), mid, byteOffset);
      got := head + rest;
    }
  }

  // A reader that starts on the chain of f gets the bytes of f.
  method ReadFromStart(f: FatFile, sizes: seq<nat>) returns (got: seq<byte>)
    requires f.Open() && !f.isDirectory
    ensures got == f.bytes[..Min(Total(sizes), |f.bytes|)]
  {
    var r := new FatFile(f.vol, f.start, false, false, f.fileSize, f.chain, f.bytes);
    r.Rewound();
    got := r.ReadAll(sizes);
  }

  // What was written is what a reader gets from the start of the same chain, up to
  // the size the last write left, whatever the sizes of the writes and of the reads.
  method WriteThenRead(f: FatFile, bufs: seq<seq<byte>>, sizes: seq<nat>) returns (got: seq<byte>)
    requires f.Open() && f.Accepts()
    requires (f.byteOffset + |Joined(bufs)|) / f.vol.g.clusterBytes < f.Capacity()
    modifies f, f.vol
    ensures var all := if bufs == [] then old(f.bytes) else Kept(old(f.bytes), old(f.byteOffset), Joined(bufs));
            got == all[..Min(Total(sizes), |all|)]
  {
    f.WriteAll(bufs);
    got := ReadFromStart(f, sizes);
  }

  lemma Covered(data: seq<seq<byte>>, ch: seq<int>, cb: int, s: seq<byte>)
    requires cb > 0 && Content(data, ch, cb, s)
    ensures |s| <= |ch| * cb
  {
    if s != [] {
      var o := |s| - 1;
      assert Holds(data, ch, cb, o, s[o]);
      DivMod(o, cb);
      MulGap(o / cb, |ch|, cb);
    }
  }

  function Total(sizes: seq<nat>): (t: nat) {
    if sizes == [] then 0 else sizes[0] + Total(sizes[1..])
  }

  // `cluster` is the one that holds offset o, or end-of-chain just past the last.
  ghost predicate InChain(ch: seq<int>, cb: int, o: int, cluster: int)
    requires cb > 0
  {
    var k := o / cb;
    && 0 <= k <= |ch|
    && (k < |ch| ==> cluster == ch[k])
    && (k == |ch| ==> Eof(cluster) && o % cb == 0)
  }

  // `out` is what the file holds from offset `from` on, as far as it goes.
  ghost predicate Copied(out: seq<byte>, bytes: seq<byte>, from: int) {
    forall i, o :: 0 <= i < |out| && 0 <= o < |bytes| && o == from + i ==> out[i] == bytes[o]
  }

  lemma CopiedPrefix(out: seq<byte>, bytes: seq<byte>, from: int, n: int)
    requires Copied(out, bytes, from) && 0 <= n <= |out| && 0 <= from && from + n <= |bytes|
    ensures out[..n] == bytes[from..from + n]
  {}

  // Moving n bytes on inside a cluster, or to the start of the next one.
  lemma CursorMoves(fat: seq<int>, ch: seq<int>, cb: int, off: int, n: int, cluster: int)
    requires cb > 0 && 0 <= off && 0 < n <= cb - off % cb
    requires IsChain(fat, ch) && Eof(fat[ch[|ch| - 1]]) && InChain(ch, cb, off, cluster) && !Eof(cluster)
    ensures cluster in ch
    ensures InChain(ch, cb, off + n, if (off + n) / cb != off / cb then fat[cluster] else cluster)
  {
    Advance(off, n, cb);
    var k := off / cb;
    if k + 1 < |ch| { assert Linked(fat, ch, k); }
  }

  // Copying the next n bytes of the cluster that holds the cursor.
  lemma PieceRead(data: seq<seq<byte>>, ch: seq<int>, cb: int, bytes: seq<byte>, out: seq<byte>, from: int, n: int)
    requires cb > 0 && Content(data, ch, cb, bytes) && 0 <= from && Copied(out, bytes, from)
    requires var off := from + |out|;
             off / cb < |ch| && 0 <= ch[off / cb] < |data| && |data[ch[off / cb]]| == cb && 0 <= n <= cb - off % cb && 0 <= off % cb
    ensures var off := from + |out|;
            Copied(out + data[ch[off / cb]][off % cb..off % cb + n], bytes, from)
  {
    var off := from + |out|;
    var piece := data[ch[off / cb]][off % cb..off % cb + n];
    forall i, o | 0 <= i < |out + piece| && 0 <= o < |bytes| && o == from + i ensures (out + piece)[i] == bytes[o] {
      if i >= |out| {
        WithinCluster(off, o, cb);
        assert Holds(data, ch, cb, o, bytes[o]);
      }
    }
  }

  // A cursor never passes the end of the chain, and is there when its cluster is
  // end-of-chain.
  lemma ChainReach(fat: seq<int>, ch: seq<int>, cb: int, off: int, cluster: int)
    requires cb > 0 && 0 <= off && IsChain(fat, ch) && InChain(ch, cb, off, cluster)
    ensures off <= |ch| * cb && (Eof(cluster) ==> off == |ch| * cb)
  {
    DivMod(off, cb);
    if off / cb < |ch| { MulGap(off / cb, |ch|, cb); }
  }

  // The cluster found for one offset is the right one for another exactly if the two
  // lie in the same cluster.
  lemma InStepIff(fat: seq<int>, ch: seq<int>, cb: int, a: int, b: int, cluster: int)
    requires cb > 0 && IsChain(fat, ch) && InChain(ch, cb, a, cluster) && 0 <= b <= a
    ensures InChain(ch, cb, b, cluster) <==> b / cb == a / cb
  {
    ChainDistinct(fat, ch);
    DivMono(b, a, cb);
    DivMono(0, b, cb);
    DivIs(0, 0, 0, cb);
    if b / cb == a / cb { DivMod(a, cb); DivMod(b, cb); }
  }

  lemma NextBoundary(o: int, cb: int)
    requires cb > 0 && o >= 0
    ensures (o + cb) / cb * cb == o + cb - o % cb
    ensures 0 <= o % cb < cb
  {
    DivMod(o, cb);
    Distrib(o / cb, 1, cb);
    DivIs(o + cb, o / cb + 1, o % cb, cb);
  }

  function Joined(bufs: seq<seq<byte>>): seq<byte> {
    if bufs == [] then [] else bufs[0] + Joined(bufs[1..])
  }

  lemma JoinedStep(s: seq<byte>, bufs: seq<seq<byte>>)
    requires bufs != []
    ensures |Joined(bufs)| == |bufs[0]| + |Joined(bufs[1..])|
    ensures s + Joined(bufs) == (s + bufs[0]) + Joined(bufs[1..])
  {
    assert Joined(bufs) == bufs[0] + Joined(bufs[1..]);
  }

  lemma DivMono3(off: int, a: nat, b: nat, cb: int)
    requires cb > 0
    ensures off / cb <= (off + a) / cb <= (off + (a + b)) / cb
  {
    DivMono(off, off + a, cb);
    DivMono(off + a, off + (a + b), cb);
  }

  // A file and the disk it is on.
  datatype Image = Image(fat: seq<int>, data: seq<seq<byte>>, chain: seq<int>, bytes: seq<byte>, off: int) {
    ghost predicate Busy() { IsChain(fat, chain) && fat[chain[|chain| - 1]] != 0 }
  }

  // Image a has become b by writing buf at the cursor.
  ghost predicate Wrote(a: Image, buf: seq<byte>, b: Image, cb: int) {
    && cb > 0 && 0 <= a.off <= |a.bytes|
    && b.off == a.off + |buf| && b.bytes == Overlay(a.bytes, a.off, buf)
    && |b.chain| == Max(|a.chain|, b.off / cb + 1)
    && Appended(a.fat, a.data, a.chain, b.fat, b.data, b.chain)
  }

  lemma WroteNothing(a: Image, buf: seq<byte>, cb: int)
    requires cb > 0 && 0 <= a.off <= |a.bytes| && a.off / cb < |a.chain|
    ensures Wrote(a, buf[..0], a, cb)
  {}

  lemma WroteMore(a: Image, b: Image, c: Image, buf: seq<byte>, cnt: nat, n: nat, cb: int)
    requires cnt + n <= |buf| && Wrote(a, buf[..cnt], b, cb) && Wrote(b, buf[cnt..cnt + n], c, cb) && b.Busy()
    ensures Wrote(a, buf[..cnt + n], c, cb)
  {
    DivMono(b.off, c.off, cb);
    OverlayMore(a.bytes, a.off, buf, cnt, n);
    AppendedTrans(a.fat, a.data, a.chain, b.fat, b.data, b.chain, c.fat, c.data, c.chain);
  }

  lemma SlicesJoin(s: seq<byte>, a: nat, b: nat, c: nat)
    requires a <= b <= c <= |s|
    ensures s[a..b] + s[b..c] == s[a..c]
  {}

  // After a piece the cursor is in the same cluster, or at a boundary; if that is
  // the end of the chain, there is a free cluster as long as there is capacity left.
  lemma RoomLeft(off: int, n: int, clusters: int, capacity: int, cb: int)
    requires cb > 0 && off >= 0 && 0 < n <= cb - off % cb && clusters > off / cb && (off + n) / cb < capacity
    ensures (off + n) % cb == 0 ==> (off + n) / cb == off / cb + 1 && (off / cb + 1 == clusters ==> clusters < capacity)
    ensures (off + n) % cb != 0 ==> (off + n) / cb == off / cb
  {
    Advance(off, n, cb);
  }

  // A disk with one file of two bytes in cluster 3, opened for writing.
  method WitnessFile() returns (f: FatFile)
    ensures fresh(f) && fresh(f.vol) && f.Open() && f.Accepts() && f.vol.g.clusterBytes == 8
    ensures f.chain == [3] && f.bytes == [1, 2] && f.byteOffset == 0 && f.Capacity() >= 1
    ensures f.vol.g == Geometry(8, 1, 8, 0, 1, 1, 4)
    ensures |f.vol.sectors| == 3 && f.vol.sectors[2] == [1, 2, 0, 0, 0, 0, 0, 0]
  {
    var g := Geometry(8, 1, 8, 0, 1, 1, 4);
    var table: seq<byte> := [0xF8, 0xFF, 0xFF, 0xFF, 0xFF, 0xFF, 0xF8, 0xFF];
    var disk := [table, table, [1, 2, 0, 0, 0, 0, 0, 0]];
    var vol := new Volume(g, disk);
    WitnessDisk(vol, disk);
    f := new FatFile(vol, 3, false, true, 2, [3], [1, 2]);
  }

  lemma WitnessDisk(vol: Volume, disk: seq<seq<byte>>)
    requires vol.Valid() && vol.g == Geometry(8, 1, 8, 0, 1, 1, 4) && vol.sectors == disk && |disk| == 3
    requires disk[0] == [0xF8, 0xFF, 0xFF, 0xFF, 0xFF, 0xFF, 0xF8, 0xFF] && disk[2] == [1, 2, 0, 0, 0, 0, 0, 0]
    ensures |vol.fat| == 4 && vol.fat[3] == 0xFFF8
    ensures Content(vol.data, [3], 8, [1, 2])
  {
    vol.Layout();
    assert vol.fat[3] == EntryAt(disk, vol.g, 3);
    assert ClusterLba(vol.g, 3) == 2;
    ReadSectorsAt(disk, 8, 2, 1, 0);
    ReadSectorsAt(disk, 8, 2, 1, 1);
    var s: seq<byte> := [1, 2];
    forall o | 0 <= o < |s| ensures Holds(vol.data, [3], 8, o, s[o]) {}
  }

  // Writing one byte, which the documentation says keeps the size, halves the file;
  // the second byte is still on the disk.
  method FirstWriteCuts() returns (before: int, written: int, after: int, disk: seq<byte>)
    ensures before == 2 && written == 1 && after == 1
    ensures |disk| == 8 && disk[0] == 9 && disk[1] == 2
  {
    var f := WitnessFile();
    before := f.fileSize;
    written := f.Write([9]);
    after := f.fileSize;
    f.vol.Layout();
    disk := f.vol.sectors[2];
    FirstBytes(f);
  }

  lemma FirstBytes(f: FatFile)
    requires f.Open() && f.vol.g == Geometry(8, 1, 8, 0, 1, 1, 4) && f.chain == [3]
    requires Content(f.vol.data, f.chain, 8, Overlay([1, 2], 0, [9]))
    ensures |f.vol.sectors| > 2 && |f.vol.sectors[2]| == 8 && f.vol.sectors[2][0] == 9 && f.vol.sectors[2][1] == 2
  {
    f.vol.Layout();
    var s := Overlay([1, 2], 0, [9]);
    assert s == [9, 2];
    assert Holds(f.vol.data, [3], 8, 0, s[0]) && Holds(f.vol.data, [3], 8, 1, s[1]);
    assert ClusterLba(f.vol.g, 3) == 2;
    ReadSectorsAt(f.vol.sectors, 8, 2, 1, 0);
    ReadSectorsAt(f.vol.sectors, 8, 2, 1, 1);
  }

  // Reading past the end makes the next write through the same handle fail.
  method WriteAfterReadRefused() returns (got: seq<byte>, written: int)
    ensures got == [1, 2] && written == -1
  {
    var f := WitnessFile();
    var n, out := f.Read(8);
    got := out[..n];
    written := f.Write([9]);
  }
}
