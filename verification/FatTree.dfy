/**
  Recursive deletion of a directory (_fat_free_childs_under_dir): directory
  entries are decoded from the directory's clusters while the FAT entries of the
  subtrees already visited are being zeroed.
 */
module FatTree {
  import opened Bytes
  import opened FatVolume
  import opened FatChains
  import opened FatFree

  // --------------------------------------------------------- directory entries

  const ENTRY := 32

  datatype Entry = Entry(name: seq<byte>, attr: byte, start: int)

  // Entry number i of a directory cluster (struct FatDirEntry).
  function EntryOf(block: seq<byte>, i: int): Entry
    requires 0 <= i && i * ENTRY + ENTRY <= |block|
  {
    var o := i * ENTRY;
    Entry(block[o..o + 8], block[o + 11], Get16(block, o + 26))
  }

  const DOT: seq<byte> := [0x2E, 0x20, 0x20, 0x20, 0x20, 0x20, 0x20, 0x20]
  const DOTDOT: seq<byte> := [0x2E, 0x2E, 0x20, 0x20, 0x20, 0x20, 0x20, 0x20]

  // attr & 0x10
  predicate IsDirectory(e: Entry) { e.attr as int / 0x10 % 2 == 1 }

  // Entries whose clusters are freed: "." and ".." and unused ones are skipped.
  predicate Live(e: Entry) {
    Normal(e.start) && e.name != DOT && e.name != DOTDOT
  }

  // The live entries of a cluster from number i on.
  function LiveFrom(block: seq<byte>, i: int): seq<Entry>
    requires 0 <= i
    decreases |block| - i
  {
    if i * ENTRY + ENTRY > |block| then []
    else
      var e := EntryOf(block, i);
      if Live(e) then [e] + LiveFrom(block, i + 1) else LiveFrom(block, i + 1)
  }

  // Slot k of a directory cluster, on its bytes: the start cluster at offset 26 is
  // one that can be freed, and the 8 bytes of the name are neither "." nor "..".
  ghost predicate SlotLive(block: seq<byte>, k: int) {
    && 0 <= k && 32 * k + 32 <= |block|
    && 3 <= (block[32 * k + 26] as int) + 256 * (block[32 * k + 27] as int) <= 0xFFEF
    && !(&& block[32 * k] == 0x2E && block[32 * k + 1] in {0x20, 0x2E}
         && forall i :: 32 * k + 2 <= i < 32 * k + 8 ==> block[i] == 0x20)
  }

  // What entry e says is what slot k says.
  ghost predicate SlotIs(block: seq<byte>, k: int, e: Entry) {
    && 0 <= k && 32 * k + 32 <= |block|
    && e.start == (block[32 * k + 26] as int) + 256 * (block[32 * k + 27] as int)
    && (IsDirectory(e) <==> block[32 * k + 11] / 16 % 2 == 1)
  }

  // es are the entries of the live slots from i on, in order, and ks the numbers of
  // these slots.
  ghost predicate SlotsOf(block: seq<byte>, i: int, es: seq<Entry>, ks: seq<int>) {
    && |ks| == |es|
    && (forall k :: k in ks <==> i <= k && SlotLive(block, k))
    && (forall a, b :: 0 <= a < b < |ks| ==> ks[a] < ks[b])
    && (forall a :: 0 <= a < |ks| ==> SlotIs(block, ks[a], es[a]))
  }

  lemma SlotsCons(block: seq<byte>, i: int, e: Entry, es: seq<Entry>, ks: seq<int>)
    requires SlotsOf(block, i + 1, es, ks) && SlotLive(block, i) && SlotIs(block, i, e)
    ensures SlotsOf(block, i, [e] + es, [i] + ks)
  {
    var ks' := [i] + ks;
    forall a, b | 0 <= a < b < |ks'| ensures ks'[a] < ks'[b] { assert ks[b - 1] in ks; }
    forall k ensures k in ks' <==> i <= k && SlotLive(block, k) { assert k in ks' <==> k == i || k in ks; }
  }

  lemma SlotsSkip(block: seq<byte>, i: int, es: seq<Entry>, ks: seq<int>)
    requires SlotsOf(block, i + 1, es, ks) && !SlotLive(block, i)
    ensures SlotsOf(block, i, es, ks)
  {}

  // Dead slots are skipped, whatever follows them.
  lemma {:induction false} LiveSlots(block: seq<byte>, i: int) returns (ks: seq<int>)
    requires 0 <= i
    ensures SlotsOf(block, i, LiveFrom(block, i), ks)
    decreases |block| - i
  {
    if i * ENTRY + ENTRY > |block| {
      ks := [];
    } else {
      SlotDecoded(block, i);
      var rest := LiveSlots(block, i + 1);
      if SlotLive(block, i) {
        SlotsCons(block, i, EntryOf(block, i), LiveFrom(block, i + 1), rest);
        ks := [i] + rest;
      } else {
        SlotsSkip(block, i, LiveFrom(block, i + 1), rest);
        ks := rest;
      }
    }
  }

  lemma SlotDecoded(block: seq<byte>, i: int)
    requires 0 <= i && i * ENTRY + ENTRY <= |block|
    ensures Live(EntryOf(block, i)) <==> SlotLive(block, i)
    ensures SlotIs(block, i, EntryOf(block, i))
  {
    var o, name := i * ENTRY, EntryOf(block, i).name;
    assert forall j :: o <= j < o + 8 ==> block[j] == name[j - o];
    if !SlotLive(block, i) && Normal(EntryOf(block, i).start) {
      assert name == if name[1] == 0x20 then DOT else DOTDOT;
    }
  }

  // ------------------------------------------------------------ directory trees

  // What a start cluster owns: a file's chain, or a directory's clusters each
  // with the nodes of its live entries.
  datatype Node = File(chain: seq<int>) | Dir(blocks: Blocks)
  datatype Blocks = End | Block(cluster: int, kids: Nodes, rest: Blocks)
  datatype Nodes = Done | More(node: Node, next: Nodes)

  function Owned(n: Node): seq<int> {
    match n case File(ch) => ch case Dir(bs) => OwnedBlocks(bs)
  }
  function OwnedBlocks(bs: Blocks): seq<int> {
    match bs case End => [] case Block(c, kids, rest) => [c] + OwnedNodes(kids) + OwnedBlocks(rest)
  }
  function OwnedNodes(ns: Nodes): seq<int> {
    match ns case Done => [] case More(n, next) => Owned(n) + OwnedNodes(next)
  }

  // The disk holds node n at cluster `start`.
  ghost predicate Stored(fat: seq<int>, data: seq<seq<byte>>, n: Node, start: int, isDir: bool)
    decreases n
  {
    match n
    case File(ch) => !isDir && IsChain(fat, ch) && ch[0] == start
    case Dir(bs) => isDir && StoredBlocks(fat, data, bs, start)
  }

  // ... a directory whose next cluster is `c`
  ghost predicate StoredBlocks(fat: seq<int>, data: seq<seq<byte>>, bs: Blocks, c: int)
    decreases bs
  {
    match bs
    case End => !Normal(c)
    case Block(cluster, kids, rest) =>
      && cluster == c && Normal(c) && c < |fat| && c < |data|
      && StoredNodes(fat, data, kids, LiveFrom(data[c], 0))
      && StoredBlocks(fat, data, rest, fat[c])
  }

  // ... the nodes of these entries
  ghost predicate StoredNodes(fat: seq<int>, data: seq<seq<byte>>, ns: Nodes, es: seq<Entry>)
    decreases ns
  {
    match ns
    case Done => es == []
    case More(n, next) =>
      && es != [] && Stored(fat, data, n, es[0].start, IsDirectory(es[0]))
      && StoredNodes(fat, data, next, es[1..])
  }

  // A node depends on the FAT only at the clusters it owns.
  lemma {:induction false} StoredKept(fat: seq<int>, fat': seq<int>, data: seq<seq<byte>>, n: Node, start: int, isDir: bool)
    requires Stored(fat, data, n, start, isDir) && |fat'| == |fat|
    requires forall c :: c in Owned(n) && 0 <= c < |fat| ==> fat'[c] == fat[c]
    ensures Stored(fat', data, n, start, isDir)
    decreases n
  {
    match n
    case File(ch) =>
      forall i | 0 <= i < |ch| ensures fat'[ch[i]] == fat[ch[i]] { assert ch[i] in Owned(n); }
      ChainKept(fat, fat', ch);
    case Dir(bs) => StoredBlocksKept(fat, fat', data, bs, start);
  }

  lemma {:induction false} StoredBlocksKept(fat: seq<int>, fat': seq<int>, data: seq<seq<byte>>, bs: Blocks, c: int)
    requires StoredBlocks(fat, data, bs, c) && |fat'| == |fat|
    requires forall x :: x in OwnedBlocks(bs) && 0 <= x < |fat| ==> fat'[x] == fat[x]
    ensures StoredBlocks(fat', data, bs, c)
    decreases bs
  {
    match bs
    case End =>
    case Block(cluster, kids, rest) =>
      assert cluster in OwnedBlocks(bs);
      StoredNodesKept(fat, fat', data, kids, LiveFrom(data[c], 0));
      StoredBlocksKept(fat, fat', data, rest, fat[c]);
  }

  lemma {:induction false} StoredNodesKept(fat: seq<int>, fat': seq<int>, data: seq<seq<byte>>, ns: Nodes, es: seq<Entry>)
    requires StoredNodes(fat, data, ns, es) && |fat'| == |fat|
    requires forall x :: x in OwnedNodes(ns) && 0 <= x < |fat| ==> fat'[x] == fat[x]
    ensures StoredNodes(fat', data, ns, es)
    decreases ns
  {
    match ns
    case Done =>
    case More(n, next) =>
      StoredKept(fat, fat', data, n, es[0].start, IsDirectory(es[0]));
      StoredNodesKept(fat, fat', data, next, es[1..]);
  }

  ghost predicate NoRepeats(s: seq<int>) {
    forall i, j :: 0 <= i < j < |s| ==> s[i] != s[j]
  }

  lemma NoRepeatsParts(s: seq<int>, t: seq<int>)
    requires NoRepeats(s + t)
    ensures NoRepeats(s) && NoRepeats(t)
    ensures forall x :: x in s ==> x !in t
  {
    var u := s + t;
    forall i, j | 0 <= i < j < |s| ensures s[i] != s[j] { assert u[i] != u[j]; }
    forall i, j | 0 <= i < j < |t| ensures t[i] != t[j] { assert u[|s| + i] != u[|s| + j]; }
    forall x | x in s ensures x !in t {
      var i :| 0 <= i < |s| && s[i] == x;
      forall j | 0 <= j < |t| ensures t[j] != x { assert u[i] != u[|s| + j]; }
    }
  }

  // Deleting a tree leaves every tree that shares no cluster with it as it was.
  lemma OtherTreeKept(fat: seq<int>, data: seq<seq<byte>>, bs: Blocks, other: Node, start: int, isDir: bool)
    requires Stored(fat, data, other, start, isDir)
    requires forall c :: c in Owned(other) ==> c !in OwnedBlocks(bs)
    ensures Stored(Zeroed(fat, OwnedBlocks(bs)), data, other, start, isDir)
  {
    StoredKept(fat, Zeroed(fat, OwnedBlocks(bs)), data, other, start, isDir);
  }

  function SizeNode(n: Node): nat {
    match n case File(_) => 1 case Dir(bs) => 1 + SizeBlocks(bs)
  }
  function SizeBlocks(bs: Blocks): nat {
    match bs case End => 0 case Block(_, kids, rest) => 1 + SizeNodes(kids) + SizeBlocks(rest)
  }
  function SizeNodes(ns: Nodes): nat {
    match ns case Done => 0 case More(n, next) => 1 + SizeNode(n) + SizeNodes(next)
  }

  // Zeroing one node's clusters leaves the nodes after it as they were.
  lemma NextStored(fat: seq<int>, data: seq<seq<byte>>, n: Node, next: Nodes, es: seq<Entry>)
    requires NoRepeats(Owned(n) + OwnedNodes(next)) && StoredNodes(fat, data, next, es)
    ensures StoredNodes(Zeroed(fat, Owned(n)), data, next, es)
  {
    NoRepeatsParts(Owned(n), OwnedNodes(next));
    StoredNodesKept(fat, Zeroed(fat, Owned(n)), data, next, es);
  }

  // ------------------------------------------------------------------ deletion

  // What the loop body does with one live entry.
  method FreeNode(vol: Volume, e: Entry, ghost n: Node)
    requires vol.Valid() && Closed(vol.fat) && vol.g.clusterBytes % ENTRY == 0
    requires Stored(vol.fat, vol.data, n, e.start, IsDirectory(e)) && NoRepeats(Owned(n)) && Normal(e.start)
    modifies vol
    ensures vol.Valid() && vol.data == old(vol.data) && Closed(vol.fat)
    ensures vol.fat == Zeroed(old(vol.fat), Owned(n))
    decreases SizeNode(n), 0
  {
    if !IsDirectory(e) {
      FreeChain(vol, e.start);
    } else {
      FreeChildsUnderDir(vol, e.start, n.blocks);
    }
  }

  // ... and that the entries after it are still as they were.
  method FreeLive(vol: Volume, e: Entry, ghost n: Node, ghost next: Nodes, ghost es: seq<Entry>)
    requires vol.Valid() && Closed(vol.fat) && vol.g.clusterBytes % ENTRY == 0
    requires Stored(vol.fat, vol.data, n, e.start, IsDirectory(e)) && Normal(e.start)
    requires StoredNodes(vol.fat, vol.data, next, es) && NoRepeats(Owned(n) + OwnedNodes(next))
    modifies vol
    ensures vol.Valid() && vol.data == old(vol.data) && Closed(vol.fat)
    ensures vol.fat == Zeroed(old(vol.fat), Owned(n))
    ensures StoredNodes(vol.fat, vol.data, next, es) && NoRepeats(OwnedNodes(next))
    decreases SizeNode(n), 1
  {
    NoRepeatsParts(Owned(n), OwnedNodes(next));
    NextStored(vol.fat, vol.data, n, next, es);
    FreeNode(vol, e, n);
  }

  // The loop over the entries of one directory cluster has come to number i: the
  // clusters in `done` are freed, and `rem` are the nodes of the entries left.
  ghost predicate Emptying(vol: Volume, fat: seq<int>, data: seq<seq<byte>>, ns: Nodes, done: seq<int>, rem: Nodes, es: seq<Entry>)
    reads vol
  {
    && vol.Valid() && vol.data == data && Closed(vol.fat)
    && done + OwnedNodes(rem) == OwnedNodes(ns) && vol.fat == Zeroed(fat, done)
    && StoredNodes(vol.fat, data, rem, es) && NoRepeats(OwnedNodes(rem))
    && SizeNodes(rem) <= SizeNodes(ns)
  }

  method FreeNextLive(vol: Volume, e: Entry, ghost fat: seq<int>, ghost ns: Nodes, ghost done: seq<int>, ghost rem: Nodes, ghost es: seq<Entry>)
    requires vol.g.clusterBytes % ENTRY == 0 && Live(e) && rem.More?
    requires Emptying(vol, fat, vol.data, ns, done, rem, [e] + es)
    modifies vol
    ensures vol.data == old(vol.data)
    ensures Emptying(vol, fat, vol.data, ns, done + Owned(rem.node), rem.next, es)
    decreases SizeNode(rem.node), 2
  {
    assert done + OwnedNodes(rem) == (done + Owned(rem.node)) + OwnedNodes(rem.next);
    assert ([e] + es)[1..] == es;
    FreeLive(vol, e, rem.node, rem.next, es);
    ZeroedMore(fat, done, Owned(rem.node));
  }

  // The loop over the entries of one directory cluster: every subtree whose
  // entry is in the cluster is freed, and nothing else changes.
  method FreeEntries(vol: Volume, block: seq<byte>, ghost ns: Nodes)
    requires vol.Valid() && Closed(vol.fat) && vol.g.clusterBytes % ENTRY == 0 && |block| == vol.g.clusterBytes
    requires StoredNodes(vol.fat, vol.data, ns, LiveFrom(block, 0)) && NoRepeats(OwnedNodes(ns))
    modifies vol
    ensures vol.Valid() && vol.data == old(vol.data) && Closed(vol.fat)
    ensures vol.fat == Zeroed(old(vol.fat), OwnedNodes(ns))
    decreases SizeNodes(ns), 2
  {
    var i := 0;
    ghost var rem, done, fat0 := ns, [], vol.fat;
    while i * ENTRY < |block|
      invariant 0 <= i && i * ENTRY <= |block| && vol.data == old(vol.data)
      invariant Emptying(vol, fat0, vol.data, ns, done, rem, LiveFrom(block, i))
      decreases |block| - i * ENTRY
    {
      var e := EntryOf(block, i);
      if Live(e) {
        FreeNextLive(vol, e, fat0, ns, done, rem, LiveFrom(block, i + 1));
        done, rem := done + Owned(rem.node), rem.next;
      }
      i := i + 1;
    }
    assert LiveFrom(block, i) == [];
    assert done == OwnedNodes(ns);
  }

  // One cluster of a directory: its children, then its own entry.
  method FreeBlock(vol: Volume, cluster: int, ghost kids: Nodes, ghost rest: Blocks) returns (next: int)
    requires vol.Valid() && Closed(vol.fat) && vol.g.clusterBytes % ENTRY == 0
    requires StoredBlocks(vol.fat, vol.data, Block(cluster, kids, rest), cluster)
    requires NoRepeats(OwnedBlocks(Block(cluster, kids, rest)))
    modifies vol
    ensures vol.Valid() && vol.data == old(vol.data) && Closed(vol.fat)
    ensures vol.fat == Zeroed(old(vol.fat), [cluster] + OwnedNodes(kids))
    ensures StoredBlocks(vol.fat, vol.data, rest, next) && NoRepeats(OwnedBlocks(rest))
    decreases SizeNodes(kids), 3
  {
    BlockParts(vol.fat, vol.data, cluster, kids, rest);
    var block := vol.ReadCluster(cluster);
    FreeEntries(vol, block, kids);
    next := vol.GetNextCluster(cluster);
    vol.WriteFat(cluster, 0);
    assert vol.fat == Zeroed(old(vol.fat), [cluster] + OwnedNodes(kids));
  }

  // The deletion of directory bs has freed the clusters in `done`; `rem` is left,
  // starting at `cluster`.
  ghost predicate Deleting(vol: Volume, fat: seq<int>, data: seq<seq<byte>>, bs: Blocks, done: seq<int>, rem: Blocks, cluster: int)
    reads vol
  {
    && vol.Valid() && vol.data == data && Closed(vol.fat)
    && done + OwnedBlocks(rem) == OwnedBlocks(bs) && vol.fat == Zeroed(fat, done)
    && StoredBlocks(vol.fat, data, rem, cluster) && NoRepeats(OwnedBlocks(rem))
    && SizeBlocks(rem) <= SizeBlocks(bs)
  }

  method FreeNextBlock(vol: Volume, cluster: int, ghost fat: seq<int>, ghost bs: Blocks, ghost done: seq<int>, ghost rem: Blocks)
    returns (next: int)
    requires vol.g.clusterBytes % ENTRY == 0 && Normal(cluster) && rem.Block?
    requires Deleting(vol, fat, vol.data, bs, done, rem, cluster)
    modifies vol
    ensures vol.data == old(vol.data)
    ensures Deleting(vol, fat, vol.data, bs, done + ([rem.cluster] + OwnedNodes(rem.kids)), rem.rest, next)
    decreases SizeNodes(rem.kids), 4
  {
    ghost var freed := [rem.cluster] + OwnedNodes(rem.kids);
    assert done + OwnedBlocks(rem) == (done + freed) + OwnedBlocks(rem.rest);
    next := FreeBlock(vol, cluster, rem.kids, rem.rest);
    ZeroedMore(fat, done, freed);
  }

  // _fat_free_childs_under_dir: the directory's own clusters and everything
  // below it.  Each next pointer is read after the children have been freed.
  method FreeChildsUnderDir(vol: Volume, start: int, ghost bs: Blocks)
    requires vol.Valid() && Closed(vol.fat) && vol.g.clusterBytes % ENTRY == 0
    requires StoredBlocks(vol.fat, vol.data, bs, start) && NoRepeats(OwnedBlocks(bs))
    modifies vol
    ensures vol.Valid() && vol.data == old(vol.data) && Closed(vol.fat)
    ensures vol.fat == Zeroed(old(vol.fat), OwnedBlocks(bs))
    decreases SizeBlocks(bs), 5
  {
    var cluster := start;
    ghost var rem, done, fat0 := bs, [], vol.fat;
    while Normal(cluster)
      invariant vol.data == old(vol.data)
      invariant Deleting(vol, fat0, vol.data, bs, done, rem, cluster)
      decreases SizeBlocks(rem)
    {
      cluster := FreeNextBlock(vol, cluster, fat0, bs, done, rem);
      done, rem := done + ([rem.cluster] + OwnedNodes(rem.kids)), rem.rest;
    }
    assert done == OwnedBlocks(bs);
  }

  // Freeing the children of a cluster keeps its own entry and the clusters after it.
  lemma BlockParts(fat: seq<int>, data: seq<seq<byte>>, c: int, kids: Nodes, rest: Blocks)
    requires StoredBlocks(fat, data, Block(c, kids, rest), c) && NoRepeats(OwnedBlocks(Block(c, kids, rest)))
    ensures NoRepeats(OwnedNodes(kids)) && NoRepeats(OwnedBlocks(rest))
    ensures c !in OwnedNodes(kids) && Zeroed(fat, OwnedNodes(kids))[c] == fat[c]
    ensures StoredBlocks(Zeroed(fat, OwnedNodes(kids))[c := 0], data, rest, fat[c])
  {
    assert OwnedBlocks(Block(c, kids, rest)) == [c] + OwnedNodes(kids) + OwnedBlocks(rest);
    NoRepeatsParts([c] + OwnedNodes(kids), OwnedBlocks(rest));
    NoRepeatsParts([c], OwnedNodes(kids));
    assert c in [c] && c in [c] + OwnedNodes(kids);
    StoredBlocksKept(fat, Zeroed(fat, OwnedNodes(kids))[c := 0], data, rest, fat[c]);
  }

  // ------------------------------------------------ what is below a directory

  // A cluster, as part of a file or of a directory.
  datatype Place = Place(cluster: int, dir: bool)

  // What slot k of a directory cluster points to.
  function SlotPlace(block: seq<byte>, k: int): Place
    requires 0 <= k && 32 * k + 32 <= |block|
  {
    Place((block[32 * k + 26] as int) + 256 * (block[32 * k + 27] as int), block[32 * k + 11] / 16 % 2 == 1)
  }

  // One step on the disk: to the next cluster of the chain, or from a directory
  // cluster to the start of one of its live slots.
  ghost predicate Leads(fat: seq<int>, data: seq<seq<byte>>, p: Place, q: Place) {
    || (0 <= p.cluster < |fat| && 3 <= fat[p.cluster] <= 0xFFEF && q == Place(fat[p.cluster], p.dir))
    || (p.dir && 0 <= p.cluster < |data| &&
        exists k :: SlotLive(data[p.cluster], k) && SlotPlace(data[p.cluster], k) == q)
  }

  ghost predicate Path(fat: seq<int>, data: seq<seq<byte>>, ps: seq<Place>)
    decreases |ps|
  {
    |ps| > 0 && (|ps| == 1 || (Leads(fat, data, ps[0], ps[1]) && Path(fat, data, ps[1..])))
  }

  ghost predicate Reachable(fat: seq<int>, data: seq<seq<byte>>, p: Place, q: Place) {
    exists ps :: Path(fat, data, ps) && ps[0] == p && ps[|ps| - 1] == q
  }

  // Cluster c belongs to the directory at `start` or to something below it.
  ghost predicate Within(fat: seq<int>, data: seq<seq<byte>>, start: int, c: int) {
    exists dir :: Reachable(fat, data, Place(start, true), Place(c, dir))
  }

  lemma ReachSelf(fat: seq<int>, data: seq<seq<byte>>, p: Place)
    ensures Reachable(fat, data, p, p)
  {
    assert Path(fat, data, [p]) && [p][0] == p && [p][|[p]| - 1] == p;
  }

  lemma PlaceStep(fat: seq<int>, data: seq<seq<byte>>, p: Place, q: Place, r: Place)
    requires Leads(fat, data, p, q) && Reachable(fat, data, q, r)
    ensures Reachable(fat, data, p, r)
  {
    var ps :| Path(fat, data, ps) && ps[0] == q && ps[|ps| - 1] == r;
    var ps' := [p] + ps;
    assert ps'[1..] == ps && ps'[|ps'| - 1] == r;
    assert Path(fat, data, ps');
  }

  // A set that no step leaves holds everything that is reachable from it.
  lemma {:induction false} PathStays(fat: seq<int>, data: seq<seq<byte>>, ps: seq<Place>, all: set<Place>)
    requires Path(fat, data, ps) && ps[0] in all
    requires forall p, q :: p in all && Leads(fat, data, p, q) ==> q in all
    ensures ps[|ps| - 1] in all
    decreases |ps|
  {
    if |ps| > 1 { PathStays(fat, data, ps[1..], all); }
  }

  function Places(n: Node): set<Place> {
    match n case File(ch) => (set c | c in ch :: Place(c, false)) case Dir(bs) => PlacesBlocks(bs)
  }
  function PlacesBlocks(bs: Blocks): set<Place> {
    match bs case End => {} case Block(c, kids, rest) => {Place(c, true)} + PlacesNodes(kids) + PlacesBlocks(rest)
  }
  function PlacesNodes(ns: Nodes): set<Place> {
    match ns case Done => {} case More(n, next) => Places(n) + PlacesNodes(next)
  }

  lemma {:induction false} PlacesOwned(n: Node, c: int)
    ensures c in Owned(n) <==> exists dir :: Place(c, dir) in Places(n)
    decreases n
  {
    match n
    case File(ch) => assert c in ch <==> Place(c, false) in Places(n);
    case Dir(bs) => PlacesBlocksOwned(bs, c);
  }

  lemma {:induction false} PlacesBlocksOwned(bs: Blocks, c: int)
    ensures c in OwnedBlocks(bs) <==> exists dir :: Place(c, dir) in PlacesBlocks(bs)
    decreases bs
  {
    match bs
    case End =>
    case Block(c0, kids, rest) =>
      PlacesNodesOwned(kids, c);
      PlacesBlocksOwned(rest, c);
      assert c == c0 ==> Place(c, true) in PlacesBlocks(bs);
  }

  lemma {:induction false} PlacesNodesOwned(ns: Nodes, c: int)
    ensures c in OwnedNodes(ns) <==> exists dir :: Place(c, dir) in PlacesNodes(ns)
    decreases ns
  {
    match ns
    case Done =>
    case More(n, next) =>
      PlacesOwned(n, c);
      PlacesNodesOwned(next, c);
  }

  // The start of a node is one of its places.
  lemma RootPlace(fat: seq<int>, data: seq<seq<byte>>, n: Node, start: int, isDir: bool)
    requires Stored(fat, data, n, start, isDir) && Normal(start)
    ensures Place(start, isDir) in Places(n)
  {
    if n.File? { assert n.chain[0] in n.chain; }
  }

  lemma {:induction false} NodesRoot(fat: seq<int>, data: seq<seq<byte>>, ns: Nodes, es: seq<Entry>, a: nat)
    requires StoredNodes(fat, data, ns, es) && a < |es| && Normal(es[a].start)
    ensures Place(es[a].start, IsDirectory(es[a])) in PlacesNodes(ns)
    decreases ns
  {
    if a == 0 {
      RootPlace(fat, data, ns.node, es[0].start, IsDirectory(es[0]));
    } else {
      NodesRoot(fat, data, ns.next, es[1..], a - 1);
    }
  }

  // A live slot of a directory cluster is one of the entries.
  lemma SlotEntry(block: seq<byte>, k: int) returns (a: nat)
    requires SlotLive(block, k)
    ensures a < |LiveFrom(block, 0)|
    ensures var e := LiveFrom(block, 0)[a]; SlotPlace(block, k) == Place(e.start, IsDirectory(e)) && Normal(e.start)
  {
    var ks := LiveSlots(block, 0);
    assert k in ks;
    a :| a < |ks| && ks[a] == k;
  }

  lemma EntrySlot(block: seq<byte>, a: nat) returns (k: int)
    requires a < |LiveFrom(block, 0)|
    ensures SlotLive(block, k)
    ensures var e := LiveFrom(block, 0)[a]; SlotPlace(block, k) == Place(e.start, IsDirectory(e))
  {
    var ks := LiveSlots(block, 0);
    k := ks[a];
    assert k in ks;
  }

  // No step leaves a stored node.
  lemma {:induction false} NodeClosed(fat: seq<int>, data: seq<seq<byte>>, n: Node, start: int, isDir: bool, p: Place, q: Place)
    requires Stored(fat, data, n, start, isDir) && p in Places(n) && Leads(fat, data, p, q)
    ensures q in Places(n)
    decreases n
  {
    match n
    case File(ch) =>
      var i :| 0 <= i < |ch| && ch[i] == p.cluster;
      if i + 1 < |ch| { assert Linked(fat, ch, i) && ch[i + 1] in ch; }
    case Dir(bs) => BlocksClosed(fat, data, bs, start, p, q);
  }

  lemma {:induction false} BlocksClosed(fat: seq<int>, data: seq<seq<byte>>, bs: Blocks, c: int, p: Place, q: Place)
    requires StoredBlocks(fat, data, bs, c) && p in PlacesBlocks(bs) && Leads(fat, data, p, q)
    ensures q in PlacesBlocks(bs)
    decreases bs
  {
    match bs
    case Block(_, kids, rest) =>
      if p in PlacesBlocks(rest) {
        BlocksClosed(fat, data, rest, fat[c], p, q);
      } else if p in PlacesNodes(kids) {
        NodesClosed(fat, data, kids, LiveFrom(data[c], 0), p, q);
      } else if q != Place(fat[c], true) || !Normal(fat[c]) {
        var k :| SlotLive(data[c], k) && SlotPlace(data[c], k) == q;
        var a := SlotEntry(data[c], k);
        NodesRoot(fat, data, kids, LiveFrom(data[c], 0), a);
      }
  }

  lemma {:induction false} NodesClosed(fat: seq<int>, data: seq<seq<byte>>, ns: Nodes, es: seq<Entry>, p: Place, q: Place)
    requires StoredNodes(fat, data, ns, es) && p in PlacesNodes(ns) && Leads(fat, data, p, q)
    ensures q in PlacesNodes(ns)
    decreases ns
  {
    match ns
    case More(n, next) =>
      if p in Places(n) {
        NodeClosed(fat, data, n, es[0].start, IsDirectory(es[0]), p, q);
      } else {
        NodesClosed(fat, data, next, es[1..], p, q);
      }
  }

  // Every place of a stored node can be reached from its start.
  lemma {:induction false} ChainReach(fat: seq<int>, data: seq<seq<byte>>, ch: seq<int>, i: nat)
    requires IsChain(fat, ch) && i < |ch|
    ensures Reachable(fat, data, Place(ch[0], false), Place(ch[i], false))
    decreases i
  {
    if i == 0 {
      ReachSelf(fat, data, Place(ch[0], false));
    } else {
      assert Linked(fat, ch, 0);
      ChainTail(fat, ch);
      ChainReach(fat, data, ch[1..], i - 1);
      PlaceStep(fat, data, Place(ch[0], false), Place(ch[1], false), Place(ch[i], false));
    }
  }

  lemma {:induction false} NodeReach(fat: seq<int>, data: seq<seq<byte>>, n: Node, start: int, isDir: bool, p: Place)
    requires Stored(fat, data, n, start, isDir) && p in Places(n)
    ensures Reachable(fat, data, Place(start, isDir), p)
    decreases n
  {
    match n
    case File(ch) =>
      var i :| 0 <= i < |ch| && ch[i] == p.cluster;
      ChainReach(fat, data, ch, i);
    case Dir(bs) => BlocksReach(fat, data, bs, start, p);
  }

  lemma {:induction false} BlocksReach(fat: seq<int>, data: seq<seq<byte>>, bs: Blocks, c: int, p: Place)
    requires StoredBlocks(fat, data, bs, c) && p in PlacesBlocks(bs)
    ensures Reachable(fat, data, Place(c, true), p)
    decreases bs
  {
    match bs
    case Block(_, kids, rest) =>
      if p == Place(c, true) {
        ReachSelf(fat, data, p);
      } else if p in PlacesNodes(kids) {
        var a := NodesReach(fat, data, kids, LiveFrom(data[c], 0), p);
        var e := LiveFrom(data[c], 0)[a];
        var k := EntrySlot(data[c], a);
        PlaceStep(fat, data, Place(c, true), Place(e.start, IsDirectory(e)), p);
      } else {
        BlocksReach(fat, data, rest, fat[c], p);
        PlaceStep(fat, data, Place(c, true), Place(fat[c], true), p);
      }
  }

  lemma {:induction false} NodesReach(fat: seq<int>, data: seq<seq<byte>>, ns: Nodes, es: seq<Entry>, p: Place) returns (a: nat)
    requires StoredNodes(fat, data, ns, es) && p in PlacesNodes(ns)
    ensures a < |es| && Reachable(fat, data, Place(es[a].start, IsDirectory(es[a])), p)
    decreases ns
  {
    match ns
    case More(n, next) =>
      if p in Places(n) {
        NodeReach(fat, data, n, es[0].start, IsDirectory(es[0]), p);
        a := 0;
      } else {
        var b := NodesReach(fat, data, next, es[1..], p);
        a := b + 1;
      }
  }

  // The clusters of a stored directory are exactly those that can be reached on the
  // disk from its start, through chains and live slots.
  lemma OwnedIsWithin(fat: seq<int>, data: seq<seq<byte>>, bs: Blocks, start: int, c: int)
    requires StoredBlocks(fat, data, bs, start) && Normal(start)
    ensures c in OwnedBlocks(bs) <==> Within(fat, data, start, c)
  {
    PlacesBlocksOwned(bs, c);
    if c in OwnedBlocks(bs) {
      var dir :| Place(c, dir) in PlacesBlocks(bs);
      BlocksReach(fat, data, bs, start, Place(c, dir));
    }
    if Within(fat, data, start, c) {
      var dir :| Reachable(fat, data, Place(start, true), Place(c, dir));
      var ps :| Path(fat, data, ps) && ps[0] == Place(start, true) && ps[|ps| - 1] == Place(c, dir);
      forall p, q | p in PlacesBlocks(bs) && Leads(fat, data, p, q) ensures q in PlacesBlocks(bs) {
        BlocksClosed(fat, data, bs, start, p, q);
      }
      PathStays(fat, data, ps, PlacesBlocks(bs));
    }
  }

  // Deleting a directory: exactly the entries of the clusters that could be reached
  // from it are free afterwards, and no other entry has changed.
  method DeleteDirectory(vol: Volume, start: int, ghost bs: Blocks)
    requires vol.Valid() && Closed(vol.fat) && vol.g.clusterBytes % ENTRY == 0 && Normal(start)
    requires StoredBlocks(vol.fat, vol.data, bs, start) && NoRepeats(OwnedBlocks(bs))
    modifies vol
    ensures vol.Valid() && vol.data == old(vol.data) && |vol.fat| == |old(vol.fat)|
    ensures forall c :: 0 <= c < |vol.fat| ==>
              vol.fat[c] == if Within(old(vol.fat), old(vol.data), start, c) then 0 else old(vol.fat)[c]
  {
    ghost var fat, data := vol.fat, vol.data;
    FreeChildsUnderDir(vol, start, bs);
    forall c | 0 <= c < |vol.fat| ensures vol.fat[c] == if Within(fat, data, start, c) then 0 else fat[c] {
      OwnedIsWithin(fat, data, bs, start, c);
    }
  }

  // ------------------------------------------------------------------- a deletion

  // A directory cluster with ".", "..", an unused slot and a file that starts at
  // cluster 4.  The start clusters of "." and ".." can be freed as well.
  function DirByte(i: int): byte {
    if i == 0 || i == 32 || i == 33 then 0x2E
    else if i < 8 || 34 <= i < 40 || 96 < i < 104 then 0x20
    else if i == 26 then 3
    else if i == 32 + 26 then 6
    else if i == 96 then 0x41
    else if i == 96 + 26 then 4
    else 0
  }

  // A FAT in which 4 is followed by 5, and 3, 5 and 6 end their chains.
  function TableByte(i: int): byte {
    if i == 8 then 5 else if i == 6 || i == 7 || 10 <= i < 14 then 0xFF else 0
  }

  lemma WitnessEntries(block: seq<byte>)
    requires |block| == 128 && forall i :: 0 <= i < 128 ==> block[i] == DirByte(i)
    ensures LiveFrom(block, 0) == [EntryOf(block, 3)]
    ensures EntryOf(block, 3).start == 4 && !IsDirectory(EntryOf(block, 3))
  {
    SlotDecoded(block, 0);
    SlotDecoded(block, 1);
    SlotDecoded(block, 2);
    SlotDecoded(block, 3);
    assert block[96] == 0x41 && block[122] == 4 && block[123] == 0 && block[107] == 0;
    assert block[0] == 0x2E && block[1] == 0x20 && block[32] == 0x2E && block[33] == 0x2E;
    assert block[90] == 0 && block[91] == 0;
    assert LiveFrom(block, 4) == [];
    assert LiveFrom(block, 3) == [EntryOf(block, 3)] + [];
    assert LiveFrom(block, 2) == LiveFrom(block, 3) && LiveFrom(block, 1) == LiveFrom(block, 2);
  }

  lemma WitnessTree(vol: Volume, disk: seq<seq<byte>>)
    requires vol.Valid() && vol.g == Geometry(128, 1, 128, 0, 1, 1, 7) && vol.sectors == disk && |disk| == 6
    requires |disk[0]| == |disk[2]| == 128
    requires forall i :: 0 <= i < 128 ==> disk[0][i] == TableByte(i) && disk[2][i] == DirByte(i)
    ensures |vol.fat| == 64 && Closed(vol.fat) && vol.fat[6] == 0xFFFF
    ensures StoredBlocks(vol.fat, vol.data, Block(3, More(File([4, 5]), Done), End), 3)
  {
    vol.Layout();
    forall c | 0 <= c < 64
      ensures vol.fat[c] == if c == 4 then 5 else if c in {3, 5, 6} then 0xFFFF else 0
    {
      assert vol.fat[c] == EntryAt(disk, vol.g, c) == Get16(disk[0], c * 2);
    }
    var block := vol.data[3];
    assert ClusterLba(vol.g, 3) == 2;
    forall i | 0 <= i < 128 ensures block[i] == DirByte(i) { ReadSectorsAt(disk, 128, 2, 1, i); }
    WitnessEntries(block);
    assert Linked(vol.fat, [4, 5], 0);
    assert LiveFrom(block, 0)[1..] == [];
  }

  // Deleting that directory frees its own cluster and both clusters of the file, and
  // not the cluster that ".." names.
  method DeleteWitness() returns (dir: int, first: int, second: int, parent: int)
    ensures dir == 0 && first == 0 && second == 0 && parent == 0xFFFF
  {
    var table: seq<byte> := seq(128, i => TableByte(i));
    var block: seq<byte> := seq(128, i => DirByte(i));
    var zero: seq<byte> := seq(128, _ => 0);
    var disk := [table, zero, block, zero, zero, zero];
    var vol := new Volume(Geometry(128, 1, 128, 0, 1, 1, 7), disk);
    WitnessTree(vol, disk);
    ghost var bs := Block(3, More(File([4, 5]), Done), End);
    assert OwnedNodes(More(File([4, 5]), Done)) == [4, 5];
    assert OwnedBlocks(bs) == [3, 4, 5];
    FreeChildsUnderDir(vol, 3, bs);
    dir := vol.GetNextCluster(3);
    first := vol.GetNextCluster(4);
    second := vol.GetNextCluster(5);
    parent := vol.GetNextCluster(6);
  }
}
