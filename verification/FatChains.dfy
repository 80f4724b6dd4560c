/**
  Cluster chains of the FAT and the bytes of a file, as values.
 */
module FatChains {
  import opened Bytes
  import opened FatVolume

  // The entry of ch[i] holds ch[i + 1].
  ghost predicate Linked(fat: seq<int>, ch: seq<int>, i: int) {
    0 <= i && i + 1 < |ch| && 0 <= ch[i] < |fat| && fat[ch[i]] == ch[i + 1]
  }

  // ch is the chain that starts at ch[0]: each entry holds the next cluster, and
  // the last one holds no cluster number.
  ghost predicate IsChain(fat: seq<int>, ch: seq<int>) {
    && |ch| > 0
    && (forall i :: 0 <= i < |ch| ==> Normal(ch[i]) && ch[i] < |fat|)
    && (forall i {:trigger Linked(fat, ch, i)} :: 0 <= i < |ch| - 1 ==> Linked(fat, ch, i))
    && !Normal(fat[ch[|ch| - 1]])
  }

  // A chain that ends never meets itself.
  lemma {:induction false} ChainAcyclic(fat: seq<int>, ch: seq<int>, i: nat, j: nat)
    requires IsChain(fat, ch) && i < j < |ch|
    ensures ch[i] != ch[j]
    decreases |ch| - j
  {
    if ch[i] == ch[j] {
      if j + 1 < |ch| {
        ChainAcyclic(fat, ch, i + 1, j + 1);
      }
      StepSame(fat, ch, i, j);
    }
  }

  // If two positions hold the same cluster, so do the next two.
  lemma StepSame(fat: seq<int>, ch: seq<int>, i: nat, j: nat)
    requires IsChain(fat, ch) && i < j < |ch| && ch[i] == ch[j]
    ensures j + 1 < |ch| && ch[i + 1] == ch[j + 1]
  {
    assert Linked(fat, ch, i);
    if j + 1 < |ch| { assert Linked(fat, ch, j); }
  }

  lemma ChainDistinct(fat: seq<int>, ch: seq<int>)
    requires IsChain(fat, ch)
    ensures forall i, j :: 0 <= i < j < |ch| ==> ch[i] != ch[j]
  {
    forall i, j | 0 <= i < j < |ch| ensures ch[i] != ch[j] { ChainAcyclic(fat, ch, i, j); }
  }

  // A start cluster has at most one chain.
  lemma {:induction false} ChainUnique(fat: seq<int>, ch: seq<int>, ch': seq<int>)
    requires IsChain(fat, ch) && IsChain(fat, ch') && ch[0] == ch'[0]
    ensures ch == ch'
    decreases |ch|
  {
    if |ch| > 1 { assert Linked(fat, ch, 0); }
    if |ch'| > 1 { assert Linked(fat, ch', 0); }
    if |ch| > 1 && |ch'| > 1 {
      ChainTail(fat, ch);
      ChainTail(fat, ch');
      ChainUnique(fat, ch[1..], ch'[1..]);
      assert ch == [ch[0]] + ch[1..] && ch' == [ch'[0]] + ch'[1..];
    }
  }

  lemma ChainTail(fat: seq<int>, ch: seq<int>)
    requires IsChain(fat, ch) && |ch| > 1
    ensures IsChain(fat, ch[1..])
  {
    var t := ch[1..];
    forall i | 0 <= i < |t| - 1 ensures Linked(fat, t, i) { assert Linked(fat, ch, i + 1); }
  }

  // A chain none of whose entries has changed is still a chain.
  lemma ChainKept(fat: seq<int>, fat': seq<int>, ch: seq<int>)
    requires IsChain(fat, ch) && |fat'| == |fat|
    requires forall i :: 0 <= i < |ch| ==> fat'[ch[i]] == fat[ch[i]]
    ensures IsChain(fat', ch)
  {
    forall i | 0 <= i < |ch| - 1 ensures Linked(fat', ch, i) { assert Linked(fat, ch, i); }
  }

  // Chain entries are never free.
  lemma ChainBusy(fat: seq<int>, ch: seq<int>, i: nat)
    requires IsChain(fat, ch) && i < |ch| && fat[ch[|ch| - 1]] != 0
    ensures fat[ch[i]] != 0
  {
    if i + 1 < |ch| { assert Linked(fat, ch, i); }
  }

  // Linking a free cluster to the end of a chain.
  lemma ChainExtend(fat: seq<int>, ch: seq<int>, f: int)
    requires IsChain(fat, ch) && fat[ch[|ch| - 1]] != 0
    requires Normal(f) && f < |fat| && fat[f] == 0
    ensures f !in ch
    ensures IsChain(fat[ch[|ch| - 1] := f][f := 0xFFFF], ch + [f])
  {
    forall i | 0 <= i < |ch| ensures ch[i] != f { ChainBusy(fat, ch, i); }
    ChainDistinct(fat, ch);
    var fat' := fat[ch[|ch| - 1] := f][f := 0xFFFF];
    var ch' := ch + [f];
    forall i | 0 <= i < |ch'| - 1 ensures Linked(fat', ch', i) {
      if i + 1 < |ch| { assert Linked(fat, ch, i); }
    }
  }

  // ----------------------------------------------------- counting free entries

  // How many entries of fat[i..n] are free.
  function CountFree(fat: seq<int>, i: int, n: int): (k: nat)
    requires 0 <= i && n <= |fat|
    decreases n - i
  {
    if i >= n then 0 else (if fat[i] == 0 then 1 else 0) + CountFree(fat, i + 1, n)
  }

  lemma {:induction false} CountPositive(fat: seq<int>, i: int, n: int)
    requires 0 <= i && n <= |fat| && CountFree(fat, i, n) > 0
    ensures i <= FirstFree(fat, i) < n
    decreases n - i
  {
    if fat[i] != 0 { CountPositive(fat, i + 1, n); }
  }

  lemma {:induction false} CountUpdate(fat: seq<int>, i: int, n: int, c: int, v: int)
    requires 0 <= i && n <= |fat| && 0 <= c < |fat|
    ensures CountFree(fat[c := v], i, n) ==
            CountFree(fat, i, n) + if i <= c < n then (if v == 0 then 1 else 0) - (if fat[c] == 0 then 1 else 0) else 0
    decreases n - i
  {
    if i < n { CountUpdate(fat, i + 1, n, c, v); }
  }

  ghost function FreeSet(fat: seq<int>, i: int, n: int): set<int>
    requires 0 <= i && n <= |fat|
  {
    set c | i <= c < n && fat[c] == 0
  }

  lemma FreeSetStep(fat: seq<int>, i: int, n: int)
    requires 0 <= i < n <= |fat|
    ensures i !in FreeSet(fat, i + 1, n)
    ensures FreeSet(fat, i, n) == FreeSet(fat, i + 1, n) + if fat[i] == 0 then {i} else {}
  {
    forall c ensures c in FreeSet(fat, i, n) <==> c in FreeSet(fat, i + 1, n) || (c == i && fat[i] == 0) {}
  }

  lemma OneMore(s: set<int>, x: int)
    requires x !in s
    ensures |s + {x}| == |s| + 1
  {}

  // CountFree is the size of that set.
  lemma {:induction false} CountIsSize(fat: seq<int>, i: int, n: int)
    requires 0 <= i && n <= |fat|
    ensures CountFree(fat, i, n) == |FreeSet(fat, i, n)|
    decreases n - i
  {
    if i < n {
      CountIsSize(fat, i + 1, n);
      FreeSetStep(fat, i, n);
      OneMore(FreeSet(fat, i + 1, n), i);
    } else {
      assert FreeSet(fat, i, n) == {};
    }
  }

  // ------------------------------------------------------------- file contents

  // The byte at offset o of the file whose chain is ch.
  ghost predicate Holds(data: seq<seq<byte>>, ch: seq<int>, cb: int, o: int, b: byte) {
    && cb > 0 && 0 <= o && o / cb < |ch| && 0 <= ch[o / cb] < |data|
    && o % cb < |data[ch[o / cb]]| && data[ch[o / cb]][o % cb] == b
  }

  // The first |bytes| bytes of the file.
  ghost predicate Content(data: seq<seq<byte>>, ch: seq<int>, cb: int, bytes: seq<byte>) {
    forall o {:trigger Holds(data, ch, cb, o, bytes[o])} :: 0 <= o < |bytes| ==> Holds(data, ch, cb, o, bytes[o])
  }

  // The content of a file is determined by its clusters.
  lemma ContentUnique(data: seq<seq<byte>>, ch: seq<int>, cb: int, s: seq<byte>, t: seq<byte>)
    requires Content(data, ch, cb, s) && Content(data, ch, cb, t) && |s| == |t|
    ensures s == t
  {
    forall o | 0 <= o < |s| ensures s[o] == t[o] {
      assert Holds(data, ch, cb, o, s[o]) && Holds(data, ch, cb, o, t[o]);
    }
  }

  lemma ContentPrefix(data: seq<seq<byte>>, ch: seq<int>, cb: int, s: seq<byte>, n: nat)
    requires Content(data, ch, cb, s) && n <= |s|
    ensures Content(data, ch, cb, s[..n])
  {
    forall o | 0 <= o < n ensures Holds(data, ch, cb, o, s[..n][o]) {
      assert Holds(data, ch, cb, o, s[o]);
    }
  }

  // Files whose clusters have not changed read the same.
  lemma ContentKept(data: seq<seq<byte>>, data': seq<seq<byte>>, ch: seq<int>, cb: int, s: seq<byte>)
    requires Content(data, ch, cb, s) && |data'| == |data|
    requires forall c :: c in ch && 0 <= c < |data| ==> data'[c] == data[c]
    ensures Content(data', ch, cb, s)
  {
    forall o | 0 <= o < |s| ensures Holds(data', ch, cb, o, s[o]) {
      assert Holds(data, ch, cb, o, s[o]);
    }
  }
}
