/** Deleting files and making directories (src/fs/fat12.c), and the laws that
    span operations: what is written is loaded, what is allocated can be freed. */
module Fat12Dirs {
  import opened Bytes
  import opened Arith
  import opened Memory
  import opened Wrappers
  import opened Fat12Chains
  import opened Fat12Layout
  import opened Fat12
  import opened Fat12Io
  import opened Fat12Names
  import opened Fat12State
  import opened Fat12Files

  // ----- deletion

  const DELETED: byte := 0xE5

  lemma FirstByteField(dir: seq<byte>, e: nat)
    requires Slot(dir, e)
    ensures var d := Put(dir, 32 * e, [DELETED]); SameBut(dir, d, e) && d[32 * e] == DELETED
  {
  }

  lemma DeletedSummary(p: Parts, chains: seq<seq<nat>>, e: nat, q: Parts, nm: seq<byte>)
    requires Empties(p, chains, e, q) && q.dir[32 * e] == DELETED
    requires Find(p.dir, nm, 0) == e
    ensures Sound(q, chains[e := []]) && OthersKept(p, chains, q, chains[e := []], nm)
    ensures NoLost(p, chains) ==> NoLost(q, chains[e := []])
    ensures NamesDistinct(p.dir) ==> NamesDistinct(q.dir) && Lookup(q, chains[e := []], nm) == None
  {
    SoundShape(p, chains);
    hide Lookup, Sound, SameBut, Span, Parts.Ok, Parts.Geo, Parts.Table, NameAt, StartAt, SizeAt, Freed, Find;
    hide EntriesKept;
    EmptiedSound(p, chains, e, q);
    EmptiedOthers(p, chains, e, q, nm);
    FindReaches(p.dir, nm, 0);
    forall other: seq<byte> | other != nm
      ensures Lookup(q, chains[e := []], other) == Lookup(p, chains, other)
    {
      EmptiedElsewhere(p, chains, e, q, other);
    }
    if NamesDistinct(p.dir) {
      NamesStayDistinct(p.dir, q.dir, e);
      OnlyMatch(p.dir, nm, e);
      GoneAfter(p.dir, q.dir, nm, e);
      LookupGone(q, chains[e := []], nm);
    }
  }

  lemma GoneAfter(dir: seq<byte>, dir': seq<byte>, nm: seq<byte>, e: nat)
    requires EndClosed(dir') && SameBut(dir, dir', e) && Slot(dir, e) && !InUse(dir', e)
    requires forall j :: 0 <= j && Slot(dir, j) && j != e ==> !Matches(dir, nm, j)
    ensures Find(dir', nm, 0) == -1
  {
    FindIsFirstMatch(dir', nm, 0);
    var i := Find(dir', nm, 0);
    if i != -1 {
      assert Matches(dir', nm, i);
      OtherEntry(dir, dir', e, i);
      assert Slot(dir, i) && Matches(dir, nm, i);
    }
  }

  lemma LookupGone(p: Parts, chains: seq<seq<nat>>, nm: seq<byte>)
    requires Sound(p, chains) && Find(p.dir, nm, 0) == -1
    ensures Lookup(p, chains, nm) == None
  {
  }

  datatype DeleteResult = Deleted | DiskRefused | NotFound

  /** fat12_delete. */
  method Delete(v: Volume, filename: seq<byte>) returns (r: DeleteResult)
    requires v.ready ==> Usual(v)
    requires 0 !in filename
    modifies v.image, v`parts, v`chains
    ensures r == DiskRefused <==> !v.ready || v.locked
    ensures r == NotFound <==> v.ready && !v.locked && old(v.ready && Find(v.parts.dir, Parse83(filename), 0) == -1)
    ensures r != Deleted ==> v.parts == old(v.parts) && v.chains == old(v.chains) && v.image[..] == old(v.image[..])
    ensures v.ready ==> Usual(v)
    ensures r == Deleted ==>
      && OthersKept(old(v.parts), old(v.chains), v.parts, v.chains, Parse83(filename))
      && (NoLost(old(v.parts), old(v.chains)) ==> NoLost(v.parts, v.chains))
      && (NamesDistinct(old(v.parts.dir)) ==>
        NamesDistinct(v.parts.dir) && Lookup(v.parts, v.chains, Parse83(filename)) == None)
  {
    hide Geometry.Fits, Geometry.FatSectors, Geometry.TotalClusters, Geometry.ClusterSize, Span, Parts.Join, Parse83;
    hide Find, Lookup, NoneLost, NamesDistinct, Owned, SameBut, StartAt, SizeAt, Put, ChainOf, Path, Freed;
    if !v.ready { return DiskRefused; }
    if v.locked { return DiskRefused; }
    ghost var p, cs, nm := v.parts, v.chains, Parse83(filename);
    var name, ext := ParseName(filename);
    var g := v.Geo();
    var e := FindEntry(v, g, name[..] + ext[..]);
    if e == -1 { return NotFound; }
    FindReaches(p.dir, nm, 0);
    EntryChain(p, cs, e);
    ChainCases(p.Table(), StartAt(p.dir, e), cs[e]);
    var start := StartOf(v, g, e);
    if start != 0 {
      v.FreeChain(g, start, cs[e]);
    } else {
      FreedNothing(p.Table());
    }
    FirstByteField(p.dir, e);
    StoreDir(v, g, 32 * e, [DELETED]);
    v.chains := cs[e := []];
    DeletedSummary(p, cs, e, v.parts, nm);
    return Deleted;
  }

  // ----- directories

  /** The "." and ".." entries; ".." points at the root, cluster 0. */
  function Dots(c: u16): (s: seq<byte>)
    ensures |s| == 64
  {
    [DOT] + Field([], 10) + [ATTR_DIRECTORY] + ZeroBytes(14) + Bytes16(c) + Bytes32(0) +
    [DOT, DOT] + Field([], 9) + [ATTR_DIRECTORY] + ZeroBytes(14) + Bytes16(0) + Bytes32(0)
  }

  /** What a new directory's cluster holds. */
  function DirectoryCluster(c: u16, cs: nat): (s: seq<byte>)
    requires cs >= 64
    ensures |s| == cs
  {
    Dots(c) + ZeroBytes(cs - 64)
  }

  /** A directory that holds "." for itself, the cluster `c`, and ".." for the root. */
  ghost predicate FreshDirectory(s: seq<byte>, c: nat) {
    |s| >= 64 &&
    s[0] == 0x2E && (forall k :: 1 <= k < 11 ==> s[k] == 0x20) && s[11] == 0x10 && Word16(s, 26) == c &&
    s[32] == s[33] == 0x2E && (forall k :: 34 <= k < 43 ==> s[k] == 0x20) && s[43] == 0x10 && Word16(s, 58) == 0 &&
    forall k :: (12 <= k < 26 || 28 <= k < 32 || 44 <= k < |s|) ==> s[k] == 0
  }

  lemma DotsSpelled(c: u16, cs: nat)
    requires cs >= 64
    ensures FreshDirectory(DirectoryCluster(c, cs), c)
  {
    hide Word16;
    var s := DirectoryCluster(c, cs);
    assert s[26..28] == Bytes16(c) && s[58..60] == Bytes16(0);
    RoundTrip16(c);
    RoundTrip16(0);
    Word16Local(s, 26, Bytes16(c), 0);
    Word16Local(s, 58, Bytes16(0), 0);
    assert s[28..32] == Bytes32(0) && s[60..64] == Bytes32(0);
    forall k | 28 <= k < 32 ensures s[k] == 0 { assert s[28..32][k - 28] == 0; }
    forall k | 60 <= k < 64 ensures s[k] == 0 { assert s[60..64][k - 60] == 0; }
  }

  lemma PutOver(d: seq<byte>, o: nat, x: seq<byte>, y: seq<byte>)
    requires o + |x| <= |d| && |y| <= |x|
    ensures Put(Put(d, o, x), o, y) == Put(d, o, y + x[|y|..])
  {
  }

  /** A single cluster, overwritten whole. */
  lemma StoredOne(data: seq<byte>, cs: nat, c: nat, bytes: seq<byte>)
    requires Inside(data, cs, c) && |bytes| == cs > 0
    ensures AllInside(data, cs, [c])
    ensures Stored(data, cs, [c], bytes) == Put(data, ClusterOffset(cs, c), bytes)
  {
    assert bytes[..cs] == bytes && [c][1..] == [];
  }

  method MakeDots(v: Volume, g: Geometry, c: u16)
    requires v.Valid() && g == v.parts.Geo() && g.ClusterSize() >= 64
    requires Inside(v.parts.data, g.ClusterSize(), c)
    modifies v.image, v`parts
    ensures v.Valid() && v.parts.Geo() == g
    ensures AllInside(old(v.parts.data), g.ClusterSize(), [c])
    ensures v.parts ==
            old(v.parts).(data := Stored(old(v.parts.data), g.ClusterSize(), [c], DirectoryCluster(c, g.ClusterSize())))
  {
    hide Geometry.Fits, Geometry.FatSectors, Geometry.TotalClusters, Geometry.ClusterSize, Span, Parts.Join, Put;
    hide Stored, ClusterOffset, Dots;
    var cs := g.ClusterSize();
    ghost var d := v.parts.data;
    var o := ClusterOffset(cs, c);
    CopyIn(v, g, o, ZeroBytes(cs), 0, cs);
    assert ZeroBytes(cs)[0..0 + cs] == ZeroBytes(cs);
    CopyIn(v, g, o, Dots(c), 0, 64);
    assert Dots(c)[0..0 + 64] == Dots(c);
    PutOver(d, o, ZeroBytes(cs), Dots(c));
    assert ZeroBytes(cs)[64..] == ZeroBytes(cs - 64);
    StoredOne(d, cs, c, DirectoryCluster(c, cs));
  }

  datatype MkdirResult = Made | Refused | Exists | NoSpace

  /** The new entry before it is given its cluster, as an intermediate volume. */
  lemma NewEntry(p: Parts, chains: seq<seq<nat>>, e: nat, nm: seq<byte>, attr: byte)
    requires Sound(p, chains) && Reaches(p.dir, e) && !InUse(p.dir, e) && |nm| == 11 && nm[0] != 0
    ensures var d := Put(Put(p.dir, 32 * e, EntryHeader(nm, attr)), 32 * e + 26, ZeroBytes(6));
            var q := p.(dir := d);
            Empties(p, chains, e, q) && NameAt(d, e) == nm && d[32 * e] == nm[0] &&
            e < |chains| && chains[e] == [] && chains[e := []] == chains
  {
    hide Geometry.Fits, Geometry.FatSectors, Geometry.TotalClusters, Geometry.ClusterSize, Span, Owned, Put, SameBut;
    hide StartAt, SizeAt, NameAt, Freed;
    UnusedOwnsNothing(p, chains, e);
    HeaderField(p.dir, e, nm, attr);
    var d1 := Put(p.dir, 32 * e, EntryHeader(nm, attr));
    TailField(d1, e, ZeroBytes(6));
    SameButTwice(p.dir, d1, Put(d1, 32 * e + 26, ZeroBytes(6)), e);
  }

  lemma FieldsTwice(dir: seq<byte>, e: nat, h: seq<byte>, x: seq<byte>)
    requires Slot(dir, e) && |h| == 26 && |x| == 6
    ensures Put(Put(Put(dir, 32 * e, h), 32 * e + 26, ZeroBytes(6)), 32 * e + 26, x) ==
            Put(Put(dir, 32 * e, h), 32 * e + 26, x)
  {
    PutOver(Put(dir, 32 * e, h), 32 * e + 26, ZeroBytes(6), x);
    assert x + ZeroBytes(6)[6..] == x;
  }

  /** The directory with entry `e` named but still without clusters. */
  ghost function NamedDir(dir: seq<byte>, e: nat, nm: seq<byte>, attr: byte): seq<byte>
    requires Slot(dir, e) && |nm| == 11
  {
    Put(Put(dir, 32 * e, EntryHeader(nm, attr)), 32 * e + 26, ZeroBytes(6))
  }

  lemma OneCluster(p: Parts, s: seq<nat>, c: nat)
    requires p.Ok() && Usable(p.Table()) && |s| == 1 && s[0] == c && FreeBelow(p.Table(), s, |p.Table()|)
    ensures s == [c] && c < 0x1_0000 && p.Geo().ClusterSize() >= 64
    ensures Inside(p.data, p.Geo().ClusterSize(), c) && AllInside(p.data, p.Geo().ClusterSize(), [c])
  {
    assert s == [c];
    hide Inside, AllInside;
    ClusterBounds(p);
    ClustersInside(p.data, p.Geo().ClusterSize(), p.Geo().TotalClusters(), p.Table(), s);
    InsideFirst(p.data, p.Geo().ClusterSize(), c);
  }

  lemma InsideFirst(data: seq<byte>, cs: nat, c: nat)
    requires AllInside(data, cs, [c])
    ensures Inside(data, cs, c)
  {
    assert [c][0] == c;
  }

  /** `q` is `p` with the unused entry `e` made into a new file or directory: its
      name and attribute, the clusters `s` holding `bytes`, and the size `n`. */
  ghost predicate Creates(p: Parts, chains: seq<seq<nat>>, e: nat, nm: seq<byte>, attr: byte, s: seq<nat>,
        bytes: seq<byte>, n: u32, q: Parts) {
    Sound(p, chains) && Reaches(p.dir, e) && !InUse(p.dir, e) && |nm| == 11 && nm[0] != 0 &&
    |s| > 0 && s[0] < 0x1_0000 && FreeBelow(p.Table(), s, |p.Table()|) &&
    AllInside(p.data, p.Geo().ClusterSize(), s) && n <= |bytes| <= Span(|s|, p.Geo().ClusterSize()) &&
    q.Ok() && q.Geo() == p.Geo() && q.Table() == Allocated(p.Table(), s) &&
    q.dir == Put(Put(p.dir, 32 * e, EntryHeader(nm, attr)), 32 * e + 26, Bytes16(s[0]) + Bytes32(n)) &&
    q.data == Stored(p.data, p.Geo().ClusterSize(), s, bytes)
  }

  lemma CreatedFills(p: Parts, chains: seq<seq<nat>>, e: nat, nm: seq<byte>, attr: byte, s: seq<nat>, bytes: seq<byte>,
        n: u32, q: Parts)
    requires Creates(p, chains, e, nm, attr, s, bytes, n, q)
    requires var p1 := p.(dir := NamedDir(p.dir, e, nm, attr));
             Sound(p1, chains) && Empties(p, chains, e, p1) && NameAt(p1.dir, e) == nm && p1.dir[32 * e] == nm[0] &&
               e < |chains| && chains[e] == []
    ensures Fills(p.(dir := NamedDir(p.dir, e, nm, attr)), chains, e, s, bytes, n, q)
  {
    var p1 := p.(dir := NamedDir(p.dir, e, nm, attr));
    hide Geometry.Fits, Geometry.FatSectors, Geometry.TotalClusters, Geometry.ClusterSize, Span, Parts.Join;
    hide Owned, SameBut, StartAt, SizeAt, NameAt, Put, Allocated, Stored, AllInside, Sound, FreeBelow;
    FieldValue(s[0], n);
    FieldsTwice(p.dir, e, EntryHeader(nm, attr), Bytes16(s[0]) + Bytes32(n));
    TailField(p1.dir, e, Bytes16(s[0]) + Bytes32(n));
    ReachesKept(p, chains, e, p1);
  }

  lemma SpanOne(cs: nat)
    ensures Span(1, cs) == cs
  {
  }

  ghost function CreatedChains(p: Parts, chains: seq<seq<nat>>, e: nat, nm: seq<byte>, attr: byte,
        s: seq<nat>): seq<seq<nat>>
    requires Slot(p.dir, e) && e < |chains| && |nm| == 11
  {
    FilledChains(p.(dir := NamedDir(p.dir, e, nm, attr)), chains, e, s)
  }

  /** Creating a new entry keeps the volume sound, every other name as it was,
      and makes the new name yield what was stored. */
  lemma CreatedSummary(p: Parts, chains: seq<seq<nat>>, e: nat, nm: seq<byte>, attr: byte, s: seq<nat>,
        bytes: seq<byte>, n: u32, q: Parts)
    requires Creates(p, chains, e, nm, attr, s, bytes, n, q)
    requires Find(p.dir, nm, 0) == -1
    ensures e < |chains|
    ensures var chains' := CreatedChains(p, chains, e, nm, attr, s);
            Sound(q, chains') && OthersKept(p, chains, q, chains', nm) &&
            (NoLost(p, chains) ==> (NoLost(q, chains') <==> Findable(nm))) &&
            Lookup(q, chains', nm) == (if Findable(nm) then Some(bytes[..n]) else None)
    ensures NamesDistinct(p.dir) ==> NamesDistinct(q.dir)
    ensures Findable(nm) ==> Find(q.dir, nm, 0) == e
  {
    NewEntry(p, chains, e, nm, attr);
    hide Geometry.Fits, Geometry.FatSectors, Geometry.TotalClusters, Geometry.ClusterSize, Span, Parts.Join, Parts.Ok;
    hide Parts.Geo, Parts.Table;
    hide Find, Lookup, NamesDistinct, SameBut, StartAt, SizeAt, NameAt, Put, Sound, Empties, Fills, Stored, Allocated;
    hide FreeBelow, AllInside;
    hide OthersKept;
    var p1 := p.(dir := NamedDir(p.dir, e, nm, attr));
    EmptiedSummary(p, chains, e, p1, nm);
    CreatedFills(p, chains, e, nm, attr, s, bytes, n, q);
    FilledSummary(p1, chains, e, s, bytes, n, q, nm);
    OthersKeptTwice(p, chains, p1, chains, q, FilledChains(p1, chains, e, s), nm);
  }

  /** A second entry of a name that an earlier entry has is never found: every name
      yields what it yielded. */
  lemma CreatedDuplicate(p: Parts, chains: seq<seq<nat>>, e: nat, nm: seq<byte>, attr: byte, s: seq<nat>,
        bytes: seq<byte>, n: u32, q: Parts)
    requires Creates(p, chains, e, nm, attr, s, bytes, n, q)
    requires Findable(nm) && 0 <= Find(p.dir, nm, 0) < e
    ensures e < |chains|
    ensures var chains' := CreatedChains(p, chains, e, nm, attr, s);
            Sound(q, chains') && (NoLost(p, chains) ==> NoLost(q, chains')) &&
            forall name: seq<byte> {:trigger Lookup(q, chains', name)} ::
              Lookup(q, chains', name) == Lookup(p, chains, name)
  {
    NewEntry(p, chains, e, nm, attr);
    var p1 := p.(dir := NamedDir(p.dir, e, nm, attr));
    var chains' := FilledChains(p1, chains, e, s);
    EmptiedSound(p, chains, e, p1);
    CreatedFills(p, chains, e, nm, attr, s, bytes, n, q);
    FilledSound(p1, chains, e, s, bytes, n, q);
    FilledOwners(p1, chains, e, s, bytes, n, q);
    hide *;
    forall name: seq<byte> ensures Lookup(q, chains', name) == Lookup(p, chains, name) {
      DuplicateEmptied(p, chains, e, p1, nm, name);
      DuplicateFilled(p1, chains, e, s, bytes, n, q, nm, name);
    }
  }

  lemma DuplicateEmptied(p: Parts, chains: seq<seq<nat>>, e: nat, q: Parts, nm: seq<byte>, name: seq<byte>)
    requires Empties(p, chains, e, q) && Sound(p, chains) && e < |chains| && chains[e := []] == chains &&
             Sound(q, chains)
    requires NameAt(q.dir, e) == nm && !InUse(p.dir, e) && 0 <= Find(p.dir, nm, 0) < e
    ensures Lookup(q, chains, name) == Lookup(p, chains, name) && Find(q.dir, nm, 0) == Find(p.dir, nm, 0)
  {
    hide Lookup, Find, NameAt, EntryKept, Freed, Owned, Span, Geometry.Fits, Geometry.TotalClusters;
    FindEarlier(p.dir, q.dir, e, nm);
    if name == nm {
      EmptiedEntry(p, chains, e, q, Find(p.dir, nm, 0));
      KeptLookup(p, chains, q, chains, nm);
    } else {
      EmptiedElsewhere(p, chains, e, q, name);
    }
  }

  lemma DuplicateFilled(p: Parts, chains: seq<seq<nat>>, e: nat, s: seq<nat>, bytes: seq<byte>, n: nat, q: Parts,
        nm: seq<byte>, name: seq<byte>)
    requires Fills(p, chains, e, s, bytes, n, q) && Sound(p, chains) && e < |chains|
    requires Sound(q, FilledChains(p, chains, e, s)) && NameAt(p.dir, e) == nm && 0 <= Find(p.dir, nm, 0) < e
    ensures Lookup(q, FilledChains(p, chains, e, s), name) == Lookup(p, chains, name)
  {
    hide Lookup, Find, NameAt, EntryKept, Owned, Span, Geometry.Fits, Geometry.TotalClusters, Allocated, Stored;
    hide AllInside, FreeBelow, FilledChains;
    if name == nm {
      FindEarlier(p.dir, q.dir, e, nm);
      FilledEntry(p, chains, e, s, bytes, n, q, Find(p.dir, nm, 0));
      KeptLookup(p, chains, q, FilledChains(p, chains, e, s), nm);
    } else {
      FilledElsewhere(p, chains, e, s, bytes, n, q, name);
    }
  }

  /** The entry of a new directory and its cluster's contents. */
  lemma MadeEntry(p: Parts, chains: seq<seq<nat>>, e: nat, nm: seq<byte>, c: u16, q: Parts)
    requires p.Ok() && p.Geo().ClusterSize() >= 64
    requires Creates(p, chains, e, nm, ATTR_DIRECTORY, [c], DirectoryCluster(c, p.Geo().ClusterSize()), 0, q)
    ensures Slot(q.dir, e) && StartAt(q.dir, e) == c
    ensures HeadAt(q.dir, e) == nm + [0x10] + seq(14, _ => 0)
    ensures Inside(q.data, q.Geo().ClusterSize(), c)
    ensures FreshDirectory(Cluster(q.data, q.Geo().ClusterSize(), c), c)
  {
    hide Geometry.Fits, Geometry.FatSectors, Geometry.TotalClusters, Geometry.ClusterSize, Span, Owned, Allocated;
    hide FreeBelow, Dots, ClusterOffset, DirectoryCluster;
    var cs, d1 := p.Geo().ClusterSize(), Put(p.dir, 32 * e, EntryHeader(nm, ATTR_DIRECTORY));
    HeaderField(p.dir, e, nm, ATTR_DIRECTORY);
    assert EntryHeader(nm, ATTR_DIRECTORY) == nm + [0x10] + seq(14, _ => 0);
    DotsSpelled(c, cs);
    hide FreshDirectory;
    FieldValue(c, 0);
    TailField(d1, e, Bytes16(c) + Bytes32(0));
    InsideFirst(p.data, cs, c);
    StoredOne(p.data, cs, c, DirectoryCluster(c, cs));
    PutOwnCluster(p.data, cs, c, DirectoryCluster(c, cs));
    assert Cluster(q.data, cs, c)[..cs] == Cluster(q.data, cs, c);
  }

  /** fat12_mkdir. */
  method Mkdir(v: Volume, dirname: seq<byte>) returns (r: MkdirResult)
    requires v.ready ==> Usual(v)
    requires 0 !in dirname
    modifies v.image, v`parts, v`chains
    ensures r == Refused <==> !v.ready || v.locked
    ensures r != Made ==> v.parts == old(v.parts) && v.chains == old(v.chains) && v.image[..] == old(v.image[..])
    ensures v.ready ==> Usual(v)
    ensures v.ready && !v.locked ==>
      var nm := Parse83(dirname);
      && (r == Exists <==> Find(old(v.parts.dir), nm, 0) != -1)
      && (r == NoSpace <==> Find(old(v.parts.dir), nm, 0) == -1 &&
                            (FindFree(old(v.parts.dir), 0) == -1 || FreeCount(old(v.parts.Table()), 2) == 0))
      && OthersKept(old(v.parts), old(v.chains), v.parts, v.chains, nm)
      && (NamesDistinct(old(v.parts.dir)) ==> NamesDistinct(v.parts.dir))
      && (NoLost(old(v.parts), old(v.chains)) ==> (NoLost(v.parts, v.chains) <==> r != Made || Findable(nm)))
      && (r == Made && Findable(nm) ==>
            Lookup(v.parts, v.chains, nm) == Some([]) &&
            var e := Find(v.parts.dir, nm, 0);
            e != -1 && HeadAt(v.parts.dir, e) == nm + [0x10] + seq(14, _ => 0) &&
            Inside(v.parts.data, v.parts.Geo().ClusterSize(), StartAt(v.parts.dir, e)) &&
            FreshDirectory(Cluster(v.parts.data, v.parts.Geo().ClusterSize(), StartAt(v.parts.dir, e)),
                           StartAt(v.parts.dir, e)))
  {
    hide Geometry.Fits, Geometry.FatSectors, Geometry.TotalClusters, Geometry.ClusterSize, Span, Parts.Join, Parse83;
    hide Find, FindFree, Lookup, NoneLost, NamesDistinct, Owned, SameBut, StartAt, SizeAt, NameAt, Put, ChainOf, Path;
    hide Freed, Cluster;
    hide FreeCount, FirstFree, FreeBelow, Allocated, Stored, AllInside, Inside, Fills, Empties, DirectoryCluster;
    hide EntryHeader, FreshDirectory, HeadAt;
    if !v.ready { return Refused; }
    if v.locked { return Refused; }
    ghost var p, cs, nm := v.parts, v.chains, Parse83(dirname);
    ParsedNonzero(dirname);
    SelfKept(p, cs, nm);
    SoundUsable(p, cs);
    var name, ext := ParseName(dirname);
    var g := v.Geo();
    var found := FindEntry(v, g, name[..] + ext[..]);
    if found != -1 { return Exists; }
    var e := FindFreeEntry(v, g);
    if e == -1 { return NoSpace; }
    FreeReaches(p.dir);
    FirstFreeCount(p.Table(), 2, 1);
    var c, s := v.AllocChain(g, 1);
    if c == 0 { return NoSpace; }
    NewEntry(p, cs, e, nm, ATTR_DIRECTORY);
    OneCluster(p, s, c);
    StoreDir(v, g, 32 * e, EntryHeader(name[..] + ext[..], ATTR_DIRECTORY));
    FieldValue(c, 0);
    StoreDir(v, g, 32 * e + 26, Bytes16(c) + Bytes32(0));
    MakeDots(v, g, c);
    SpanOne(g.ClusterSize());
    ghost var bytes := DirectoryCluster(c, g.ClusterSize());
    assert Creates(p, cs, e, nm, ATTR_DIRECTORY, [c], bytes, 0, v.parts);
    CreatedSummary(p, cs, e, nm, ATTR_DIRECTORY, [c], bytes, 0, v.parts);
    MadeEntry(p, cs, e, nm, c, v.parts);
    v.chains := CreatedChains(p, cs, e, nm, ATTR_DIRECTORY, [c]);
    return Made;
  }

  // ----- laws across operations

  /** Writing a file and loading it: a successful write is read back byte for
      byte exactly when the name is findable or there was nothing to write. */
  method WriteThenLoad(v: Volume, filename: seq<byte>, data: seq<byte>, buffer: array<byte>) returns (ok: bool, n: nat)
    requires v.ready && Usual(v)
    requires 0 !in filename && |data| < U32_LIMIT && buffer != v.image && buffer.Length >= |data|
    modifies v.image, v`parts, v`chains, buffer
    ensures Usual(v)
    ensures ok ==> (n == |data| && buffer[..n] == data <==> Findable(Parse83(filename)) || data == [])
  {
    hide Lookup, Find, FindFree, Sound, Needed, NoneLost, NamesDistinct, Parse83;
    ok := Write(v, filename, data);
    n := Load(v, filename, buffer);
    assert data[..|data|] == data;
  }

  /** Freeing a chain that was just allocated restores the volume byte for byte. */
  method AllocThenFree(v: Volume, g: Geometry, n: nat) returns (first: nat)
    requires v.Valid() && g == v.parts.Geo() && Usable(v.parts.Table())
    modifies v.image, v`parts
    ensures v.Valid() && v.image[..] == old(v.image[..])
    ensures first != 0 <==> 0 < n <= FreeCount(old(v.parts.Table()), 2)
  {
    hide Geometry.Fits, Geometry.FatSectors, Geometry.TotalClusters, Geometry.ClusterSize, Span, Parts.Join, FirstFree;
    hide FreeCount, Allocated, Freed, Path, ChainOf;
    ghost var t := v.parts.Table();
    FirstFreeCount(t, 2, n);
    var start, s := v.AllocChain(g, n);
    first := start;
    if start != 0 {
      NewChain(t, s);
      AllocatedChain(t, s);
      v.FreeChain(g, start, s);
      EntriesDetermine(old(v.parts), v.parts);
    }
  }
}
