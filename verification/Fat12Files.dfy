/** The file operations of src/fs/fat12.c over one volume. */
module Fat12Files {
  import opened Bytes
  import opened Arith
  import opened Memory
  import opened Wrappers
  import opened Fat12Table
  import opened Fat12Chains
  import opened Fat12Layout
  import opened Fat12
  import opened Fat12Io
  import opened Fat12Names
  import opened Fat12State

  // ----- directory access

  method NameIs(v: Volume, g: Geometry, i: nat, name: seq<byte>) returns (same: bool)
    requires v.Valid() && g == v.parts.Geo() && Slot(v.parts.dir, i) && |name| == 11
    ensures same <==> NameAt(v.parts.dir, i) == name
  {
    hide Geometry.Fits, Geometry.FatSectors, Geometry.TotalClusters, Span, Parts.Join;
    ghost var found := NameAt(v.parts.dir, i);
    for k := 0 to 11
      invariant forall j :: 0 <= j < k ==> found[j] == name[j]
    {
      var b := v.DirByte(g, 32 * i + k);
      assert b == found[k];
      if b != name[k] { return false; }
    }
    assert found == name;
    return true;
  }

  /** fat12_find. */
  method FindEntry(v: Volume, g: Geometry, name: seq<byte>) returns (r: int)
    requires v.Valid() && g == v.parts.Geo() && |name| == 11
    ensures r == Find(v.parts.dir, name, 0)
  {
    hide Geometry.Fits, Geometry.FatSectors, Geometry.TotalClusters, Span, Parts.Join;
    for i := 0 to g.rootEntries
      invariant Find(v.parts.dir, name, 0) == Find(v.parts.dir, name, i)
    {
      var first := v.DirByte(g, 32 * i);
      if first == 0x00 { return -1; }
      if first != 0xE5 {
        var same := NameIs(v, g, i, name);
        if same { return i; }
      }
    }
    return -1;
  }

  /** fat12_find_free_entry. */
  method FindFreeEntry(v: Volume, g: Geometry) returns (r: int)
    requires v.Valid() && g == v.parts.Geo()
    ensures r == FindFree(v.parts.dir, 0)
  {
    hide Geometry.Fits, Geometry.FatSectors, Geometry.TotalClusters, Span, Parts.Join;
    for i := 0 to g.rootEntries
      invariant FindFree(v.parts.dir, 0) == FindFree(v.parts.dir, i)
    {
      var first := v.DirByte(g, 32 * i);
      if first == 0x00 || first == 0xE5 { return i; }
    }
    return -1;
  }

  method StoreDir(v: Volume, g: Geometry, o: nat, x: seq<byte>)
    requires v.Valid() && g == v.parts.Geo() && o + |x| <= |v.parts.dir|
    modifies v.image, v`parts
    ensures v.Valid() && v.parts.Geo() == g
    ensures v.parts == old(v.parts).(dir := Put(old(v.parts.dir), o, x))
  {
    hide Geometry.Fits, Geometry.FatSectors, Geometry.TotalClusters, Span, Parts.Join, Put;
    ghost var d := v.parts.dir;
    PutNothing(d, o);
    assert x[..0] == [];
    for i := 0 to |x|
      invariant v.Valid() && v.parts.Geo() == g && |v.parts.dir| == |d|
      invariant v.parts == old(v.parts).(dir := Put(d, o, x[..i]))
    {
      PutMore(d, o, x[..i], x[i]);
      assert x[..i + 1] == x[..i] + [x[i]];
      v.PutDir(g, o + i, x[i]);
    }
    assert x[..|x|] == x;
  }

  method StartOf(v: Volume, g: Geometry, i: nat) returns (start: nat)
    requires v.Valid() && g == v.parts.Geo() && Slot(v.parts.dir, i)
    ensures start == StartAt(v.parts.dir, i)
  {
    hide Geometry.Fits, Geometry.FatSectors, Geometry.TotalClusters, Span, Parts.Join;
    var a := v.DirByte(g, 32 * i + 26);
    var b := v.DirByte(g, 32 * i + 27);
    start := a as int + 0x100 * (b as int);
  }

  method SizeOf(v: Volume, g: Geometry, i: nat) returns (size: nat)
    requires v.Valid() && g == v.parts.Geo() && Slot(v.parts.dir, i)
    ensures size == SizeAt(v.parts.dir, i)
  {
    hide Geometry.Fits, Geometry.FatSectors, Geometry.TotalClusters, Span, Parts.Join;
    var a := v.DirByte(g, 32 * i + 28);
    var b := v.DirByte(g, 32 * i + 29);
    var c := v.DirByte(g, 32 * i + 30);
    var d := v.DirByte(g, 32 * i + 31);
    size := a as int + 0x100 * (b as int) + 0x1_0000 * (c as int) + 0x100_0000 * (d as int);
  }

  // ----- loading

  ghost predicate Usual(v: Volume)
    reads v, v.image
  {
    v.Valid() && Sound(v.parts, v.chains)
  }

  lemma EntryChain(p: Parts, chains: seq<seq<nat>>, i: nat)
    requires Sound(p, chains) && Slot(p.dir, i) && InUse(p.dir, i)
    ensures i < |chains| && Usable(p.Table()) && ChainOf(p.Table(), StartAt(p.dir, i), chains[i])
    ensures AllInside(p.data, p.Geo().ClusterSize(), chains[i])
    ensures SizeAt(p.dir, i) <= Span(|chains[i]|, p.Geo().ClusterSize())
  {
    ChainInside(p, chains, i);
  }

  lemma TakeTake(s: seq<byte>, n: nat, m: nat)
    requires m <= n <= |s|
    ensures s[..n][..m] == s[..m]
  {
  }

  /** fat12_load: the file's bytes, as many as fit. */
  method Load(v: Volume, filename: seq<byte>, buffer: array<byte>) returns (n: nat)
    requires v.ready ==> Usual(v)
    requires buffer != v.image
    modifies buffer
    ensures !v.ready ==> n == 0
    ensures v.ready && Lookup(v.parts, v.chains, Parse83(filename)) == None ==> n == 0
    ensures v.ready && Lookup(v.parts, v.chains, Parse83(filename)) != None ==>
              var bytes := Lookup(v.parts, v.chains, Parse83(filename)).value;
              n == Min(|bytes|, buffer.Length) && buffer[..n] == bytes[..n]
    ensures forall j :: n <= j < buffer.Length ==> buffer[j] == old(buffer[j])
  {
    hide Geometry.Fits, Geometry.FatSectors, Geometry.TotalClusters, Geometry.ClusterSize, Span, Parts.Join, Owned;
    hide ChainOf, AllInside, ChainBytes, Parse83;
    if !v.ready { return 0; }
    var name, ext := ParseName(filename);
    var g := v.Geo();
    FindIsFirstMatch(v.parts.dir, Parse83(filename), 0);
    var i := FindEntry(v, g, name[..] + ext[..]);
    if i == -1 { return 0; }
    EntryChain(v.parts, v.chains, i);
    var start := StartOf(v, g, i);
    var size := SizeOf(v, g, i);
    n := ReadChain(v, g, start, size, buffer, buffer.Length, v.chains[i]);
    TakeTake(ChainBytes(v.parts.data, g.ClusterSize(), v.chains[i]), size, n);
  }

  // ----- directory entries, byte by byte

  const ATTR_ARCHIVE: byte := 0x20
  const ATTR_DIRECTORY: byte := 0x10

  /** Bytes 26 to 31 hold the first cluster and the size. */
  lemma TailField(dir: seq<byte>, e: nat, x: seq<byte>)
    requires Slot(dir, e) && |x| == 6
    ensures var d := Put(dir, 32 * e + 26, x);
            SameBut(dir, d, e) && NameAt(d, e) == NameAt(dir, e) && d[32 * e] == dir[32 * e] &&
            HeadAt(d, e) == HeadAt(dir, e) && StartAt(d, e) == Word16(x, 0) && SizeAt(d, e) == Word32(x, 2)
  {
    var d := Put(dir, 32 * e + 26, x);
    forall k | 0 <= k < |dir| && k / 32 != e ensures d[k] == dir[k] { }
    assert d[32 * e + 26] == x[0] && d[32 * e + 27] == x[1];
    assert d[32 * e + 28] == x[2] && d[32 * e + 29] == x[3] && d[32 * e + 30] == x[4] && d[32 * e + 31] == x[5];
  }

  lemma FieldValue(start: u16, size: u32)
    ensures var x := Bytes16(start) + Bytes32(size); |x| == 6 && Word16(x, 0) == start && Word32(x, 2) == size
  {
    RoundTrip16(start);
    RoundTrip32(size);
  }

  /** Bytes 0 to 25: the name, the attribute, and zeros. */
  function EntryHeader(nm: seq<byte>, attr: byte): (h: seq<byte>)
    requires |nm| == 11
    ensures |h| == 26
  {
    nm + [attr] + ZeroBytes(14)
  }

  lemma HeaderField(dir: seq<byte>, e: nat, nm: seq<byte>, attr: byte)
    requires Slot(dir, e) && |nm| == 11
    ensures var d := Put(dir, 32 * e, EntryHeader(nm, attr));
            SameBut(dir, d, e) && NameAt(d, e) == nm && d[32 * e] == nm[0] && HeadAt(d, e) == EntryHeader(nm, attr)
  {
    var d := Put(dir, 32 * e, EntryHeader(nm, attr));
    forall k | 0 <= k < |dir| && k / 32 != e ensures d[k] == dir[k] { }
    assert forall k :: 0 <= k < 11 ==> d[32 * e + k] == nm[k];
  }

  lemma SameButTwice(a: seq<byte>, b: seq<byte>, c: seq<byte>, e: nat)
    requires SameBut(a, b, e) && SameBut(b, c, e)
    ensures SameBut(a, c, e)
  {
  }

  lemma {:induction false} FindReaches(dir: seq<byte>, name: seq<byte>, i: nat)
    requires Find(dir, name, i) != -1
    ensures forall j :: i <= j <= Find(dir, name, i) && Slot(dir, j) ==> dir[32 * j] != 0
    ensures InUse(dir, Find(dir, name, i)) && NameAt(dir, Find(dir, name, i)) == name
    decreases |dir| - 32 * i
  {
    if dir[32 * i] == 0xE5 || NameAt(dir, i) != name { FindReaches(dir, name, i + 1); }
  }

  /** Find or make the entry, and leave it owning nothing: the first half of
      fat12_write, up to `file_size = 0`. */
  method PrepareEntry(v: Volume, g: Geometry, nm: seq<byte>) returns (e: int)
    requires Usual(v) && g == v.parts.Geo() && |nm| == 11 && nm[0] != 0
    modifies v.image, v`parts, v`chains
    ensures v.Valid() && v.parts.Geo() == g
    ensures e == -1 ==> v.parts == old(v.parts) && v.chains == old(v.chains)
    ensures e == if Find(old(v.parts.dir), nm, 0) != -1 then Find(old(v.parts.dir), nm, 0)
            else FindFree(old(v.parts.dir), 0)
    ensures e != -1 ==> Empties(old(v.parts), old(v.chains), e, v.parts) && v.chains == old(v.chains)[e := []]
    ensures e != -1 ==> NameAt(v.parts.dir, e) == nm && v.parts.dir[32 * e] == nm[0]
    ensures e != -1 ==>
              HeadAt(v.parts.dir, e) ==
              if Find(old(v.parts.dir), nm, 0) != -1 then HeadAt(old(v.parts.dir), e)
              else nm + [0x20] + seq(14, _ => 0)
  {
    hide Geometry.Fits, Geometry.FatSectors, Geometry.TotalClusters, Geometry.ClusterSize, Span, Parts.Join;
    hide Owned, ChainOf, Path, Find, FindFree, SameBut, StartAt, SizeAt, NameAt, HeadAt, Put, Freed;
    ghost var p, cs := v.parts, v.chains;
    SoundShape(p, cs);
    e := FindEntry(v, g, nm);
    ghost var dir1 := p.dir;
    if e == -1 {
      e := FindFreeEntry(v, g);
      if e == -1 { return; }
      FreeReaches(p.dir);
      UnusedOwnsNothing(p, cs, e);
      StoreDir(v, g, 32 * e, EntryHeader(nm, ATTR_ARCHIVE));
      dir1 := v.parts.dir;
      HeaderField(p.dir, e, nm, ATTR_ARCHIVE);
      FileHeader(nm);
    } else {
      FindReaches(p.dir, nm, 0);
      SameButSelf(p.dir, e);
      NameFirst(p.dir, e);
      EntryChain(p, cs, e);
      ChainCases(p.Table(), StartAt(p.dir, e), cs[e]);
      var start := StartOf(v, g, e);
      if start != 0 {
        v.FreeChain(g, start, cs[e]);
      } else {
        FreedNothing(p.Table());
      }
    }
    TailField(dir1, e, ZeroBytes(6));
    StoreDir(v, g, 32 * e + 26, ZeroBytes(6));
    SameButTwice(p.dir, dir1, v.parts.dir, e);
    v.chains := cs[e := []];
  }

  lemma FileHeader(nm: seq<byte>)
    requires |nm| == 11
    ensures EntryHeader(nm, ATTR_ARCHIVE) == nm + [0x20] + seq(14, _ => 0)
  {
  }

  lemma NameFirst(dir: seq<byte>, e: nat)
    requires Slot(dir, e)
    ensures NameAt(dir, e)[0] == dir[32 * e]
  {
  }

  lemma SameButSelf(dir: seq<byte>, e: nat)
    ensures SameBut(dir, dir, e)
  {
  }

  lemma FreedNothing(t: Table)
    ensures Freed(t, []) == t
  {
  }

  lemma FreeReaches(dir: seq<byte>)
    ensures FindFree(dir, 0) != -1 ==> Reaches(dir, FindFree(dir, 0)) && !InUse(dir, FindFree(dir, 0))
  {
    forall j | 0 <= j < FindFree(dir, 0) ensures dir[32 * j] != 0 {
      assert Slot(dir, j) && InUse(dir, j);
    }
  }

  lemma UnusedOwnsNothing(p: Parts, chains: seq<seq<nat>>, e: nat)
    requires Sound(p, chains) && Slot(p.dir, e) && !InUse(p.dir, e)
    ensures e < |chains| && chains[e] == [] && Freed(p.Table(), chains[e]) == p.Table()
  {
    assert ChainOf(p.Table(), Starts(p.dir)[e], chains[e]);
    FreedNothing(p.Table());
  }

  // ----- writing

  ghost function Needed(n: nat, cs: nat): int
    requires cs > 0
  {
    (n + cs - 1) / cs
  }

  /** The clusters a write of `nm` may use: the free ones and its own old ones. */
  ghost function Available(p: Parts, chains: seq<seq<nat>>, nm: seq<byte>): nat
    requires Sound(p, chains)
  {
    var e := Find(p.dir, nm, 0);
    SoundShape(p, chains);
    FreeCount(if e == -1 then p.Table() else Freed(p.Table(), chains[e]), 2)
  }

  lemma NeededSpan(n: nat, cs: nat)
    requires cs > 0
    ensures Needed(n, cs) >= 0 && n <= Span(Needed(n, cs), cs) && (n > 0 ==> Needed(n, cs) > 0)
  {
    QuotientBounds(n + cs - 1, cs);
    if n > 0 { QuotientAtLeast(n + cs - 1, cs, 1); }
    QuotientAtLeast(n + cs - 1, cs, 0);
  }

  lemma CountWrapsAlgebra(n: nat, cs: nat, total: nat)
    requires 0 < cs <= 255 * SECTOR && Span(total, cs) <= VOLUME_SIZE
    requires n < U32_LIMIT <= n + cs - 1
    ensures (n + cs - 1) % U32_LIMIT / cs == 0 && Needed(n, cs) > total + 2
  {
    var r := n + cs - 1 - U32_LIMIT;
    assert (n + cs - 1) % U32_LIMIT == r;
    QuotientUnique(r, cs, 0, r);
    NeededSpan(n, cs);
    if Needed(n, cs) <= total + 2 {
      MulMonotone(Needed(n, cs), total + 2, cs);
      MulDistribute(total, 2, cs);
    }
  }

  lemma ClusterBounds(p: Parts)
    requires p.Ok()
    ensures 0 < p.Geo().ClusterSize() <= 255 * SECTOR
    ensures Span(p.Geo().TotalClusters(), p.Geo().ClusterSize()) <= VOLUME_SIZE
  {
    hide Span;
  }

  /** The 32-bit sum in the cluster count wraps only for sizes no volume holds. */
  lemma CountWraps(p: Parts, n: nat)
    requires p.Ok() && n < U32_LIMIT
    ensures p.Geo().ClusterSize() > 0
    ensures n + p.Geo().ClusterSize() - 1 >= U32_LIMIT ==>
              (n + p.Geo().ClusterSize() - 1) % U32_LIMIT / p.Geo().ClusterSize() == 0 &&
              Needed(n, p.Geo().ClusterSize()) > |p.Table()|
  {
    hide Span, Needed;
    ClusterBounds(p);
    if n + p.Geo().ClusterSize() - 1 >= U32_LIMIT {
      CountWrapsAlgebra(n, p.Geo().ClusterSize(), p.Geo().TotalClusters());
    }
  }

  lemma {:induction false} FreeCountBound(t: Table, from: nat)
    ensures FreeCount(t, from) <= |t|
    ensures from <= |t| ==> FreeCount(t, from) <= |t| - from
    decreases |t| - from
  {
    if from < |t| { FreeCountBound(t, from + 1); }
  }

  /** The second half of fat12_write: clusters, bytes, then the entry's fields. */
  method FillEntry(v: Volume, g: Geometry, e: nat, data: seq<byte>) returns (ok: bool)
    requires Usual(v) && g == v.parts.Geo() && Reaches(v.parts.dir, e) && v.parts.dir[32 * e] != 0
    requires e < |v.chains| && v.chains[e] == [] && 0 < |data| < U32_LIMIT && g.ClusterSize() > 0
    modifies v.image, v`parts, v`chains
    ensures v.Valid() && v.parts.Geo() == g
    ensures ok <==> Needed(|data|, g.ClusterSize()) <= FreeCount(old(v.parts.Table()), 2)
    ensures !ok ==> v.parts == old(v.parts) && v.chains == old(v.chains)
    ensures ok ==> exists s :: |s| == Needed(|data|, g.ClusterSize()) &&
                               Fills(old(v.parts), old(v.chains), e, s, data, |data|, v.parts) &&
                               v.chains == FilledChains(old(v.parts), old(v.chains), e, s)
    ensures Slot(v.parts.dir, e) && HeadAt(v.parts.dir, e) == HeadAt(old(v.parts.dir), e)
  {
    hide Geometry.Fits, Geometry.FatSectors, Geometry.TotalClusters, Span, Parts.Join, FreeBelow;
    hide Owned, ChainOf, Path, SameBut, StartAt, SizeAt, NameAt, Put, Needed, Allocated, FirstFree, FreeCount, Stored;
    hide AllInside, HeadAt;
    ghost var p, cs := v.parts, v.chains;
    CountWraps(p, |data|);
    NeededSpan(|data|, g.ClusterSize());
    FreeCountBound(p.Table(), 2);
    NeededIs(|data|, g.ClusterSize());
    var clusterSize := g.ClusterSize();
    var num := (|data| + clusterSize - 1) % U32_LIMIT / clusterSize;
    hide Geometry.ClusterSize;
    FirstFreeCount(p.Table(), 2, num);
    SoundUsable(p, cs);
    var start, s := v.AllocChain(g, num);
    if start == 0 { return false; }
    NewChain(p.Table(), s);
    PathInside(v.parts, s);
    WriteChainData(v, g, start, data, s);
    LinkRange(v.parts.Table(), start);
    FieldValue(start, |data|);
    TailField(p.dir, e, Bytes16(start) + Bytes32(|data|));
    StoreDir(v, g, 32 * e + 26, Bytes16(start) + Bytes32(|data|));
    v.chains := FilledChains(p, cs, e, s);
    assert Fills(p, cs, e, s, data, |data|, v.parts);
    return true;
  }

  lemma NeededIs(n: nat, cs: nat)
    requires cs > 0
    ensures n + cs - 1 < U32_LIMIT ==> (n + cs - 1) % U32_LIMIT / cs == Needed(n, cs)
  {
  }

  lemma SoundUsable(p: Parts, chains: seq<seq<nat>>)
    requires Sound(p, chains)
    ensures Usable(p.Table())
  {
  }

  lemma NewChain(t: Table, s: seq<nat>)
    requires Usable(t) && |s| > 0 && FreeBelow(t, s, |t|)
    ensures Usable(Allocated(t, s)) && Path(Allocated(t, s), s)
  {
    AllocatedChain(t, s);
  }

  lemma LinkRange(t: Table, c: nat)
    requires Usable(t) && c < |t|
    ensures c < 0x1_0000
  {
  }

  /** Every entry in use but the one found under `nm` is kept, file or directory. */
  ghost predicate EntriesKept(p: Parts, chains: seq<seq<nat>>, q: Parts, chains': seq<seq<nat>>, nm: seq<byte>)
    requires Sound(p, chains) && Sound(q, chains')
  {
    forall i :: Slot(p.dir, i) && InUse(p.dir, i) && i != Find(p.dir, nm, 0) ==> EntryKept(p, chains, q, chains', i)
  }

  /** Every name but `nm` yields after the change what it yielded before, and every
      other file and directory has its entry, its chain and its clusters' bytes. */
  ghost predicate OthersKept(p: Parts, chains: seq<seq<nat>>, q: Parts, chains': seq<seq<nat>>, nm: seq<byte>)
    requires Sound(p, chains) && Sound(q, chains')
  {
    (forall other: seq<byte> :: other != nm ==> Lookup(q, chains', other) == Lookup(p, chains, other)) &&
    EntriesKept(p, chains, q, chains', nm)
  }

  /** The entry that a change is about: the one found, or an unused one. */
  ghost predicate About(dir: seq<byte>, nm: seq<byte>, e: int) {
    e == -1 || Find(dir, nm, 0) == e || (Slot(dir, e) && !InUse(dir, e))
  }

  lemma OthersKeptTwice(p: Parts, c1: seq<seq<nat>>, q: Parts, c2: seq<seq<nat>>, r: Parts, c3: seq<seq<nat>>,
        nm: seq<byte>)
    requires Sound(p, c1) && Sound(q, c2) && Sound(r, c3) && About(p.dir, nm, Find(q.dir, nm, 0))
    requires OthersKept(p, c1, q, c2, nm) && OthersKept(q, c2, r, c3, nm)
    ensures OthersKept(p, c1, r, c3, nm)
  {
    hide Lookup, Sound, Find, WholeChain, EntryAt, InUse;
    forall other: seq<byte> | other != nm ensures Lookup(r, c3, other) == Lookup(p, c1, other) {
      assert Lookup(q, c2, other) == Lookup(p, c1, other);
    }
    forall i | Slot(p.dir, i) && InUse(p.dir, i) && i != Find(p.dir, nm, 0)
      ensures EntryKept(p, c1, r, c3, i)
    {
      assert EntryKept(p, c1, q, c2, i);
      EntryFields(p.dir, q.dir, i);
      assert EntryKept(q, c2, r, c3, i);
    }
  }

  lemma EmptiedOthers(p: Parts, chains: seq<seq<nat>>, e: nat, q: Parts, nm: seq<byte>)
    requires Sound(p, chains) && Empties(p, chains, e, q) && e < |chains|
    requires Sound(q, chains[e := []]) && About(p.dir, nm, e)
    ensures EntriesKept(p, chains, q, chains[e := []], nm)
  {
    hide Sound, EntryKept, Empties, Find, InUse;
    forall i | Slot(p.dir, i) && InUse(p.dir, i) && i != Find(p.dir, nm, 0)
      ensures EntryKept(p, chains, q, chains[e := []], i)
    {
      EmptiedEntry(p, chains, e, q, i);
    }
  }

  lemma FilledOthers(p: Parts, chains: seq<seq<nat>>, e: nat, s: seq<nat>, data: seq<byte>, n: nat, q: Parts,
        nm: seq<byte>)
    requires Sound(p, chains) && Fills(p, chains, e, s, data, n, q) && About(p.dir, nm, e) && e < |chains|
    requires Sound(q, FilledChains(p, chains, e, s))
    ensures EntriesKept(p, chains, q, FilledChains(p, chains, e, s), nm)
  {
    hide Sound, EntryKept, Fills, FilledChains, Find, InUse;
    forall i | Slot(p.dir, i) && InUse(p.dir, i) && i != Find(p.dir, nm, 0)
      ensures EntryKept(p, chains, q, FilledChains(p, chains, e, s), i)
    {
      FilledEntry(p, chains, e, s, data, n, q, i);
    }
  }

  /** The name is one lookups can find: the driver takes 0xE5 for a deleted entry. */
  ghost predicate Findable(nm: seq<byte>) {
    |nm| == 11 && nm[0] != 0 && nm[0] != 0xE5
  }

  /** Which names those are: all that do not begin with 0xE5. */
  lemma FindableExact(filename: seq<byte>)
    requires 0 !in filename
    ensures Findable(Parse83(filename)) <==> filename == [] || filename[0] != 0xE5
  {
    if filename != [] { assert Upper(filename[0]) == 0xE5 <==> filename[0] == 0xE5; }
  }

  /** A file that can be written and never found again. */
  lemma UnfindableName()
    ensures 0 !in [0xE5, 0x41] && !Findable(Parse83([0xE5, 0x41]))
  {
    FindableExact([0xE5, 0x41]);
  }

  lemma EmptiedSummary(p: Parts, chains: seq<seq<nat>>, e: nat, q: Parts, nm: seq<byte>)
    requires Empties(p, chains, e, q) && |nm| == 11 && nm[0] != 0
    requires NameAt(q.dir, e) == nm && q.dir[32 * e] == nm[0]
    requires Find(p.dir, nm, 0) == e || (Find(p.dir, nm, 0) == -1 && !InUse(p.dir, e))
    ensures Sound(q, chains[e := []]) && OthersKept(p, chains, q, chains[e := []], nm)
    ensures NoLost(p, chains) ==> NoLost(q, chains[e := []])
    ensures Lookup(q, chains[e := []], nm) == if Findable(nm) then Some([]) else None
    ensures Find(q.dir, nm, 0) == if Findable(nm) then e else -1
    ensures InUse(q.dir, e) <==> Findable(nm)
    ensures NamesDistinct(p.dir) ==> NamesDistinct(q.dir)
  {
    SoundShape(p, chains);
    hide Lookup, Sound, Find, SameBut, Span, Parts.Ok, Parts.Geo, Parts.Table, NameAt, StartAt, SizeAt, Freed;
    hide EntriesKept;
    EmptiedSound(p, chains, e, q);
    EmptiedOthers(p, chains, e, q, nm);
    if Find(p.dir, nm, 0) == e { FindReaches(p.dir, nm, 0); }
    forall other: seq<byte> | other != nm
      ensures Lookup(q, chains[e := []], other) == Lookup(p, chains, other)
    {
      EmptiedElsewhere(p, chains, e, q, other);
    }
    if NamesDistinct(p.dir) {
      OnlyMatch(p.dir, nm, e);
      NamesStayDistinct(p.dir, q.dir, e);
    }
    if Findable(nm) { EmptiedHere(p, chains, e, q, nm); } else { NeverFound(q, chains[e := []], nm); }
  }

  lemma OnlyMatch(dir: seq<byte>, nm: seq<byte>, e: nat)
    requires EndClosed(dir) && NamesDistinct(dir)
    requires Find(dir, nm, 0) == e || Find(dir, nm, 0) == -1
    ensures forall j :: 0 <= j && Slot(dir, j) && j != e ==> !Matches(dir, nm, j)
  {
    FindIsFirstMatch(dir, nm, 0);
  }

  lemma NeverFound(p: Parts, chains: seq<seq<nat>>, nm: seq<byte>)
    requires Sound(p, chains) && |nm| == 11 && !Findable(nm)
    ensures Lookup(p, chains, nm) == None && Find(p.dir, nm, 0) == -1
  {
    FindIsFirstMatch(p.dir, nm, 0);
    var i := Find(p.dir, nm, 0);
    if i != -1 { NameFirst(p.dir, i); }
  }

  lemma FilledFind(p: Parts, chains: seq<seq<nat>>, e: nat, s: seq<nat>, bytes: seq<byte>, n: nat, q: Parts,
        nm: seq<byte>)
    requires Fills(p, chains, e, s, bytes, n, q) && Find(p.dir, nm, 0) == e && Matches(p.dir, nm, e)
    ensures Find(q.dir, nm, 0) == e
  {
    hide Span, Geometry.Fits, Geometry.FatSectors, Geometry.TotalClusters, Geometry.ClusterSize, Owned, Allocated;
    hide Stored, AllInside, FreeBelow;
    FindFrame(p.dir, q.dir, e, nm);
  }

  lemma FilledSummary(p: Parts, chains: seq<seq<nat>>, e: nat, s: seq<nat>, data: seq<byte>, n: nat, q: Parts,
        nm: seq<byte>)
    requires Fills(p, chains, e, s, data, n, q) && |nm| == 11 && NameAt(p.dir, e) == nm
    requires InUse(p.dir, e) <==> Findable(nm)
    requires Findable(nm) ==> Find(p.dir, nm, 0) == e
    ensures Sound(q, FilledChains(p, chains, e, s)) && OthersKept(p, chains, q, FilledChains(p, chains, e, s), nm)
    ensures NoLost(p, chains) ==> (NoLost(q, FilledChains(p, chains, e, s)) <==> Findable(nm))
    ensures Lookup(q, FilledChains(p, chains, e, s), nm) == if Findable(nm) then Some(data[..n]) else None
    ensures NamesDistinct(p.dir) ==> NamesDistinct(q.dir)
    ensures Findable(nm) ==> Find(q.dir, nm, 0) == e
  {
    SoundShape(p, chains);
    hide Lookup, Sound, Find, SameBut, Span, Parts.Ok, Parts.Geo, Parts.Table, NameAt, StartAt, SizeAt, Allocated;
    hide FreeBelow, AllInside, Stored;
    hide EntriesKept;
    FilledSound(p, chains, e, s, data, n, q);
    FilledOthers(p, chains, e, s, data, n, q, nm);
    FilledOwners(p, chains, e, s, data, n, q);
    forall other: seq<byte> | other != nm
      ensures Lookup(q, FilledChains(p, chains, e, s), other) == Lookup(p, chains, other)
    {
      FilledElsewhere(p, chains, e, s, data, n, q, other);
    }
    if NamesDistinct(p.dir) {
      if InUse(p.dir, e) { OnlyMatch(p.dir, nm, e); }
      NamesStayDistinct(p.dir, q.dir, e);
    }
    if Findable(nm) {
      FilledHere(p, chains, e, s, data, n, q, nm);
      FilledFind(p, chains, e, s, data, n, q, nm);
    } else {
      NeverFound(q, FilledChains(p, chains, e, s), nm);
    }
  }

  /** The entry under `nm`, after a write: a new one is that of a plain file, with
      nothing in its reserved and time fields; one that was there keeps all that. */
  ghost predicate FileEntry(dir: seq<byte>, dir': seq<byte>, nm: seq<byte>) {
    var e, e' := Find(dir, nm, 0), Find(dir', nm, 0);
    Slot(dir', e') &&
    if e == -1 then dir'[32 * e' + 11] == 0x20 && forall k :: 32 * e' + 12 <= k < 32 * e' + 26 ==> dir'[k] == 0
    else e' == e && dir'[32 * e..32 * e + 26] == dir[32 * e..32 * e + 26]
  }

  lemma HeadIsFile(dir: seq<byte>, dir': seq<byte>, nm: seq<byte>, e: nat)
    requires Slot(dir', e) && Find(dir', nm, 0) == e && |nm| == 11
    requires Find(dir, nm, 0) == e || Find(dir, nm, 0) == -1
    requires HeadAt(dir', e) == if Find(dir, nm, 0) != -1 then HeadAt(dir, e) else nm + [0x20] + seq(14, _ => 0)
    ensures FileEntry(dir, dir', nm)
  {
    if Find(dir, nm, 0) == -1 {
      var h := HeadAt(dir', e);
      assert forall k :: 32 * e <= k < 32 * e + 26 ==> dir'[k] == h[k - 32 * e];
    }
  }

  /** The clusters of a file are as few as hold its bytes. */
  ghost predicate NoneToSpare(chain: seq<nat>, n: nat, cs: nat) {
    |chain| > 0 && Span(|chain| - 1, cs) < n <= Span(|chain|, cs)
  }

  /** `a` clusters are enough exactly when they hold `n` bytes. */
  lemma NeededExact(n: nat, cs: nat, a: nat)
    requires cs > 0
    ensures (Needed(n, cs) <= a <==> n <= Span(a, cs)) && 0 <= Span(a, cs)
    ensures n > 0 ==> Span(Needed(n, cs) - 1, cs) < n <= Span(Needed(n, cs), cs) && Needed(n, cs) > 0
  {
    NeededSpan(n, cs);
    QuotientBounds(n + cs - 1, cs);
    var q := Needed(n, cs);
    MulDistribute(q, 1, cs);
    MulMonotone(0, a, cs);
    if q <= a { MulMonotone(q, a, cs); } else { MulMonotone(a, q - 1, cs); }
  }

  /** The second half of fat12_write on the entry that is ready for it. */
  method FillNamed(v: Volume, g: Geometry, e: nat, data: seq<byte>, ghost nm: seq<byte>) returns (ok: bool)
    requires Usual(v) && g == v.parts.Geo() && Reaches(v.parts.dir, e) && v.parts.dir[32 * e] != 0
    requires e < |v.chains| && v.chains[e] == [] && 0 < |data| < U32_LIMIT && g.ClusterSize() > 0
    requires |nm| == 11 && NameAt(v.parts.dir, e) == nm && (InUse(v.parts.dir, e) <==> Findable(nm))
    requires Findable(nm) ==> Find(v.parts.dir, nm, 0) == e
    modifies v.image, v`parts, v`chains
    ensures Usual(v) && v.parts.Geo() == g
    ensures ok <==> |data| <= Span(FreeCount(old(v.parts.Table()), 2), g.ClusterSize())
    ensures !ok ==> v.parts == old(v.parts) && v.chains == old(v.chains)
    ensures OthersKept(old(v.parts), old(v.chains), v.parts, v.chains, nm)
    ensures ok ==> Lookup(v.parts, v.chains, nm) == if Findable(nm) then Some(data) else None
    ensures ok && NoLost(old(v.parts), old(v.chains)) ==> (NoLost(v.parts, v.chains) <==> Findable(nm))
    ensures NamesDistinct(old(v.parts.dir)) ==> NamesDistinct(v.parts.dir)
    ensures Slot(v.parts.dir, e) && HeadAt(v.parts.dir, e) == HeadAt(old(v.parts.dir), e)
    ensures Findable(nm) ==> Find(v.parts.dir, nm, 0) == e
    ensures ok && Findable(nm) ==> e < |v.chains| && NoneToSpare(v.chains[e], |data|, g.ClusterSize())
  {
    hide Geometry.Fits, Geometry.FatSectors, Geometry.TotalClusters, Geometry.ClusterSize, Span, Parts.Join, Needed;
    hide Find, Sound, Lookup, Fills, NoneLost, NamesDistinct, OthersKept, HeadAt, FreeCount;
    ghost var p, cs := v.parts, v.chains;
    SelfKept(p, cs, nm);
    NeededExact(|data|, g.ClusterSize(), FreeCount(p.Table(), 2));
    ok := FillEntry(v, g, e, data);
    if !ok { return false; }
    ghost var s :| |s| == Needed(|data|, g.ClusterSize()) && Fills(p, cs, e, s, data, |data|, v.parts) &&
                   v.chains == FilledChains(p, cs, e, s);
    FilledSummary(p, cs, e, s, data, |data|, v.parts, nm);
    assert data[..|data|] == data;
  }

  /** fat12_write. It succeeds exactly when there is a directory entry and room;
      it never touches another name; and a later lookup of the name gives the
      data back exactly when the name is findable. */
  method Write(v: Volume, filename: seq<byte>, data: seq<byte>) returns (ok: bool)
    requires v.ready ==> Usual(v)
    requires 0 !in filename && |data| < U32_LIMIT
    modifies v.image, v`parts, v`chains
    ensures !v.ready || v.locked ==>
            !ok && v.parts == old(v.parts) && v.chains == old(v.chains) && v.image[..] == old(v.image[..])
    ensures v.ready ==> Usual(v) && v.parts.Geo() == old(v.parts.Geo())
    ensures v.ready && !v.locked ==>
      var nm := Parse83(filename);
      var entry := Find(old(v.parts.dir), nm, 0) != -1 || FindFree(old(v.parts.dir), 0) != -1;
      && (ok <==>
          entry && |data| <= Span(Available(old(v.parts), old(v.chains), nm), old(v.parts.Geo().ClusterSize())))
      && (!entry ==> v.parts == old(v.parts) && v.chains == old(v.chains))
      && OthersKept(old(v.parts), old(v.chains), v.parts, v.chains, nm)
      && (entry ==>
        Lookup(v.parts, v.chains, nm) == if !Findable(nm) then None else if ok then Some(data) else Some([]))
      && (NoLost(old(v.parts), old(v.chains)) ==>
            (NoLost(v.parts, v.chains) <==> !(ok && data != [] && !Findable(nm))))
      && (NamesDistinct(old(v.parts.dir)) ==> NamesDistinct(v.parts.dir))
      && (entry && Findable(nm) ==> FileEntry(old(v.parts.dir), v.parts.dir, nm))
      && (ok && data != [] && Findable(nm) ==>
            var e := Find(v.parts.dir, nm, 0);
            0 <= e < |v.chains| && NoneToSpare(v.chains[e], |data|, v.parts.Geo().ClusterSize()))
  {
    hide Geometry.Fits, Geometry.FatSectors, Geometry.TotalClusters, Geometry.ClusterSize, Span, Parts.Join, Parse83;
    hide Needed, Find, FindFree, Sound, Lookup, Fills, NoneLost, NamesDistinct, OthersKept, FileEntry, HeadAt;
    hide FreeCount, Available;
    if !v.ready { return false; }
    if v.locked { return false; }
    ghost var p, cs, nm := v.parts, v.chains, Parse83(filename);
    ParsedNonzero(filename);
    SelfKept(p, cs, nm);
    var name, ext := ParseName(filename);
    var g := v.Geo();
    var e := PrepareEntry(v, g, name[..] + ext[..]);
    if e == -1 { return false; }
    EntryCases(p, cs, nm, e);
    EmptiedSummary(p, cs, e, v.parts, nm);
    ClusterBounds(v.parts);
    NeededExact(|data|, g.ClusterSize(), Available(p, cs, nm));
    if |data| == 0 {
      if Findable(nm) { HeadIsFile(p.dir, v.parts.dir, nm, e); }
      return true;
    }
    ghost var p1, cs1 := v.parts, v.chains;
    ReachesKept(p, cs, e, p1);
    ok := FillNamed(v, g, e, data, nm);
    OthersKeptTwice(p, cs, p1, cs1, v.parts, v.chains, nm);
    if Findable(nm) { HeadIsFile(p.dir, v.parts.dir, nm, e); }
  }

  lemma SelfKept(p: Parts, chains: seq<seq<nat>>, nm: seq<byte>)
    requires Sound(p, chains)
    ensures OthersKept(p, chains, p, chains, nm)
  {
  }

  lemma EntryCases(p: Parts, chains: seq<seq<nat>>, nm: seq<byte>, e: int)
    requires Sound(p, chains) && e != -1
    requires e == if Find(p.dir, nm, 0) != -1 then Find(p.dir, nm, 0) else FindFree(p.dir, 0)
    ensures Find(p.dir, nm, 0) == e || (Find(p.dir, nm, 0) == -1 && !InUse(p.dir, e))
    ensures 0 <= e < |chains|
    ensures Available(p, chains, nm) == FreeCount(Freed(p.Table(), chains[e]), 2)
  {
    SoundShape(p, chains);
    if Find(p.dir, nm, 0) == -1 { UnusedOwnsNothing(p, chains, e); }
  }

  lemma ReachesKept(p: Parts, chains: seq<seq<nat>>, e: nat, q: Parts)
    requires Empties(p, chains, e, q)
    ensures Reaches(q.dir, e)
  {
    forall j | 0 <= j < e ensures q.dir[32 * j] != 0 { OtherEntry(p.dir, q.dir, e, j); }
  }
}
