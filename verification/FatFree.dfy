/**
  Freeing cluster chains: fat_free_clusters_until_end on every FAT, including
  one whose chains run into cycles.
 */
module FatFree {
  import opened FatVolume
  import opened FatChains

  // No entry points past the end of the FAT (always so when it has an entry for
  // every normal cluster number).
  ghost predicate Closed(fat: seq<int>) {
    forall c :: 0 <= c < |fat| && Normal(fat[c]) ==> fat[c] < |fat|
  }

  function Zeroed(fat: seq<int>, cs: seq<int>): (r: seq<int>)
    ensures |r| == |fat|
    ensures forall d :: 0 <= d < |fat| ==> r[d] == if d in cs then 0 else fat[d]
  {
    seq(|fat|, d requires 0 <= d < |fat| => if d in cs then 0 else fat[d])
  }

  lemma ZeroedMore(fat: seq<int>, s: seq<int>, t: seq<int>)
    ensures Zeroed(Zeroed(fat, s), t) == Zeroed(fat, s + t)
  {}

  lemma ZeroedOne(fat: seq<int>, c: int)
    requires 0 <= c < |fat|
    ensures Zeroed(fat, [c]) == fat[c := 0]
  {}

  // Entries in use, and one more while the walk goes on: falls in every round.
  function Measure(fat: seq<int>, c: int): (m: nat) {
    CountBound(fat, 0, |fat|);
    |fat| - CountFree(fat, 0, |fat|) + if Normal(c) then 1 else 0
  }

  lemma {:induction false} CountBound(fat: seq<int>, i: int, n: int)
    requires 0 <= i && n <= |fat|
    ensures CountFree(fat, i, n) <= if i <= n then n - i else 0
    decreases n - i
  {
    if i < n { CountBound(fat, i + 1, n); }
  }

  lemma MeasureFalls(fat: seq<int>, c: int)
    requires Normal(c) && c < |fat|
    ensures Measure(fat[c := 0], fat[c]) < Measure(fat, c)
  {
    CountUpdate(fat, 0, |fat|, c, 0);
  }

  // What the walk leaves of the FAT.
  function FreeWalk(fat: seq<int>, c: int): (r: seq<int>)
    ensures |r| == |fat|
    decreases Measure(fat, c)
  {
    if Normal(c) && c < |fat| then
      MeasureFalls(fat, c);
      FreeWalk(fat[c := 0], fat[c])
    else fat
  }

  // On a chain, exactly the chain's entries are zeroed.
  lemma {:induction false} FreeWalkChain(fat: seq<int>, ch: seq<int>)
    requires IsChain(fat, ch)
    ensures FreeWalk(fat, ch[0]) == Zeroed(fat, ch)
    decreases |ch|
  {
    var c := ch[0];
    MeasureFalls(fat, c);
    if |ch| == 1 {
      assert FreeWalk(fat[c := 0], fat[c]) == fat[c := 0];
      assert ch == [c];
      ZeroedOne(fat, c);
    } else {
      assert Linked(fat, ch, 0);
      ChainTail(fat, ch);
      ChainDistinct(fat, ch);
      ChainKept(fat, fat[c := 0], ch[1..]);
      FreeWalkChain(fat[c := 0], ch[1..]);
      ZeroedOne(fat, c);
      ZeroedMore(fat, [c], ch[1..]);
      assert [c] + ch[1..] == ch;
    }
  }

  // Every cluster freed can be allocated again: the count of free entries grows
  // by exactly the number of clusters zeroed.
  lemma {:induction false} ZeroedCount(fat: seq<int>, cs: seq<int>, n: int)
    requires n <= |fat|
    requires forall i :: 0 <= i < |cs| ==> 0 <= cs[i] < n && fat[cs[i]] != 0
    requires forall i, j :: 0 <= i < j < |cs| ==> cs[i] != cs[j]
    ensures CountFree(Zeroed(fat, cs), 0, n) == CountFree(fat, 0, n) + |cs|
    decreases |cs|
  {
    if cs == [] {
      assert Zeroed(fat, cs) == fat;
    } else {
      var c, rest := cs[0], cs[1..];
      CountUpdate(fat, 0, n, c, 0);
      ZeroedOne(fat, c);
      ZeroedMore(fat, [c], rest);
      assert [c] + rest == cs;
      ZeroedCount(fat[c := 0], rest, n);
    }
  }

  // ---------------------------------------------- any FAT: what can be reached

  // p follows links from cluster to cluster.
  ghost predicate IsPath(fat: seq<int>, p: seq<int>) {
    && |p| > 0
    && (forall i :: 0 <= i < |p| ==> Normal(p[i]) && p[i] < |fat|)
    && (forall i, j :: 0 <= i && j == i + 1 && j < |p| ==> fat[p[i]] == p[j])
  }

  ghost predicate PathTo(fat: seq<int>, p: seq<int>, c: int, d: int) {
    IsPath(fat, p) && p[0] == c && p[|p| - 1] == d
  }

  ghost predicate Reaches(fat: seq<int>, c: int, d: int) {
    exists p :: PathTo(fat, p, c, d)
  }

  // A path to another cluster can be taken without coming back to its start.
  lemma {:induction false} SkipLoops(fat: seq<int>, p: seq<int>, c: int, d: int) returns (q: seq<int>)
    requires PathTo(fat, p, c, d)
    ensures PathTo(fat, q, c, d) && forall i :: 0 < i < |q| ==> q[i] != c
    decreases |p|
  {
    if i :| 0 < i < |p| && p[i] == c {
      var s := p[i..];
      forall a, b | 0 <= a && b == a + 1 && b < |s| ensures fat[s[a]] == s[b] { assert fat[p[i + a]] == p[i + b]; }
      q := SkipLoops(fat, s, c, d);
    } else {
      q := p;
    }
  }

  // Past its start, a loop-free path does not need the start's entry.
  lemma PathTail(fat: seq<int>, q: seq<int>, c: int, d: int)
    requires PathTo(fat, q, c, d) && |q| > 1 && forall i :: 0 < i < |q| ==> q[i] != c
    ensures PathTo(fat[c := 0], q[1..], fat[c], d)
  {
    var t := q[1..];
    assert fat[q[0]] == q[1];
    forall a, b | 0 <= a && b == a + 1 && b < |t| ensures fat[c := 0][t[a]] == t[b] { assert fat[q[1 + a]] == q[1 + b]; }
  }

  // A path that avoids the zeroed entry extends to one from it.
  lemma PathBack(fat: seq<int>, q: seq<int>, c: int, d: int)
    requires Normal(c) && c < |fat| && PathTo(fat[c := 0], q, fat[c], d)
    ensures PathTo(fat, [c] + q, c, d)
  {
    var p := [c] + q;
    forall a, b | 0 <= a && b == a + 1 && b < |p| ensures fat[p[a]] == p[b] {
      if a > 0 { assert fat[c := 0][q[a - 1]] == q[b - 1]; }
    }
  }

  lemma ReachStep(fat: seq<int>, c: int, d: int)
    requires Normal(c) && c < |fat|
    ensures Reaches(fat, c, d) <==> d == c || Reaches(fat[c := 0], fat[c], d)
  {
    if d == c { assert PathTo(fat, [c], c, c); }
    if Reaches(fat[c := 0], fat[c], d) {
      var q :| PathTo(fat[c := 0], q, fat[c], d);
      PathBack(fat, q, c, d);
    }
    if Reaches(fat, c, d) && d != c {
      var p :| PathTo(fat, p, c, d);
      var q := SkipLoops(fat, p, c, d);
      PathTail(fat, q, c, d);
    }
  }

  // Whatever the FAT holds, the walk zeroes exactly the entries reachable from
  // its start.
  lemma {:induction false} FreeWalkReach(fat: seq<int>, c: int, d: int)
    requires 0 <= d < |fat|
    ensures FreeWalk(fat, c)[d] == if Reaches(fat, c, d) then 0 else fat[d]
    decreases Measure(fat, c)
  {
    if Normal(c) && c < |fat| {
      MeasureFalls(fat, c);
      FreeWalkReach(fat[c := 0], fat[c], d);
      ReachStep(fat, c, d);
    }
  }

  // fat_free_clusters_until_end
  method FreeChain(vol: Volume, start: int)
    requires vol.Valid() && Closed(vol.fat) && (Normal(start) ==> start < |vol.fat|)
    modifies vol
    ensures vol.Valid() && vol.data == old(vol.data)
    ensures vol.fat == FreeWalk(old(vol.fat), start)
    ensures forall ch :: IsChain(old(vol.fat), ch) && ch[0] == start ==> vol.fat == Zeroed(old(vol.fat), ch)
    ensures Closed(vol.fat)
  {
    var cluster := start;
    while Normal(cluster)
      invariant vol.Valid() && vol.data == old(vol.data) && Closed(vol.fat)
      invariant Normal(cluster) ==> cluster < |vol.fat|
      invariant FreeWalk(vol.fat, cluster) == FreeWalk(old(vol.fat), start)
      decreases Measure(vol.fat, cluster)
    {
      MeasureFalls(vol.fat, cluster);
      var tmp := cluster;
      cluster := vol.GetNextCluster(cluster);
      vol.WriteFat(tmp, 0);
    }
    forall ch | IsChain(old(vol.fat), ch) && ch[0] == start ensures vol.fat == Zeroed(old(vol.fat), ch) {
      FreeWalkChain(old(vol.fat), ch);
    }
  }
}
