/** tools/make_fat12.py: the image it builds is a sound volume from which the
    driver loads every file back. */
module MakeFat12 {
  import opened Bytes
  import opened Arith
  import opened Memory
  import opened Wrappers
  import opened Fat12Table
  import opened Fat12Chains
  import opened Fat12Layout
  import opened Fat12Io
  import opened Fat12Names
  import opened Fat12State
  import opened Fat12Files
  import opened Fat12Dirs
  import opened Fat12

  datatype File = File(name: seq<byte>, data: seq<byte>)

  const ROOT_ENTRIES: nat := 64
  const SECTORS_PER_FAT: nat := 12
  const DATA_SECTORS: nat := 4079

  /** The boot sector: the geometry fields, and bytes the driver does not read. */
  function BootSector(): (s: seq<byte>)
    ensures |s| == SECTOR
  {
    [0xEB, 0x3C, 0x90, 0x41, 0x58, 0x4F, 0x53, 0x31, 0x2E, 0x30, 0x20] +
    Bytes16(SECTOR) + [1] + Bytes16(1) + [1] + Bytes16(ROOT_ENTRIES) + Bytes16(4096) + [0xF0] +
    Bytes16(SECTORS_PER_FAT) + Bytes16(18) + Bytes16(2) + Bytes32(0) + Bytes32(0) + [0, 0, 0x29] +
    Bytes32(0x1234_5678) + [0x41, 0x58, 0x4F, 0x53, 0x20, 0x46, 0x53, 0x20, 0x20, 0x20, 0x20] +
    [0x46, 0x41, 0x54, 0x31, 0x32, 0x20, 0x20, 0x20] + ZeroBytes(448) + [0x55, 0xAA]
  }

  lemma BootGeometry()
    ensures ReadGeometry(BootSector()) == Geometry(SECTOR, 1, 1, 1, ROOT_ENTRIES, 4096, SECTORS_PER_FAT)
  {
    var s := BootSector();
    assert s[11] == 0 && s[12] == 2 && s[13] == 1 && s[14] == 1 && s[15] == 0 && s[16] == 1;
    assert s[17] == 64 && s[18] == 0 && s[19] == 0 && s[20] == 16 && s[22] == 12 && s[23] == 0;
  }

  /** The volume with the builder's three areas. */
  ghost function Image(fat: seq<byte>, dir: seq<byte>, data: seq<byte>): Parts {
    Parts(BootSector(), fat, [], dir, data, [])
  }

  lemma ImageOk(fat: seq<byte>, dir: seq<byte>, data: seq<byte>)
    requires |fat| == SECTOR * SECTORS_PER_FAT && |dir| == 32 * ROOT_ENTRIES && |data| == SECTOR * DATA_SECTORS
    ensures Image(fat, dir, data).Ok()
    ensures Image(fat, dir, data).Geo().ClusterSize() == SECTOR
    ensures |Image(fat, dir, data).Table()| == DATA_SECTORS + 2
    ensures Image(fat, dir, data).Geo() == Geometry(SECTOR, 1, 1, 1, ROOT_ENTRIES, 4096, SECTORS_PER_FAT)
  {
    BootGeometry();
  }

  /** The clusters the builder gives a file: consecutive, at least one. */
  function ClusterCount(size: nat): (n: nat)
    ensures n >= 1 && size <= SECTOR * n
  {
    var n := (size + SECTOR - 1) / SECTOR;
    if n < 1 then 1 else n
  }

  function Run(from: nat, n: nat): (s: seq<nat>)
    ensures |s| == n && forall k :: 0 <= k < n ==> s[k] == from + k
  {
    seq(n, k => from + k)
  }

  method PutEntry(fat: array<byte>, index: nat, value: nat)
    requires EntryOffset(index) + 1 < fat.Length
    modifies fat
    ensures fat[..] == SetEntry(old(fat[..]), index, value)
  {
    var offset := index * 3 / 2;
    assert offset == EntryOffset(index);
    if index % 2 == 0 {
      fat[offset] := value % 256;
      fat[offset + 1] := fat[offset + 1] / 16 * 16 + value / 256 % 16;
    } else {
      fat[offset] := fat[offset] % 16 + value % 16 * 16;
      fat[offset + 1] := value / 16 % 256;
    }
  }

  method CopyBytes(dst: array<byte>, base: nat, src: seq<byte>)
    requires base + |src| <= dst.Length
    modifies dst
    ensures dst[..] == Put(old(dst[..]), base, src)
  {
    for i := 0 to |src|
      invariant forall k :: 0 <= k < dst.Length ==>
                dst[k] == if base <= k < base + i then src[k - base] else old(dst[k])
    {
      dst[base + i] := src[i];
    }
  }

  const LIMIT: nat := DATA_SECTORS + 2

  /** The table with clusters from..from+k linked to their successors. */
  ghost function RunLinked(t: Table, from: nat, k: nat): (r: Table)
    requires from + k <= |t|
    ensures |r| == |t|
    ensures forall c :: 0 <= c < |t| ==> r[c] == if from <= c < from + k then c + 1 else t[c]
  {
    seq(|t|, c requires 0 <= c < |t| => if from <= c < from + k then c + 1 else t[c])
  }

  /** Linking a run cluster by cluster is what the driver's allocator would do. */
  lemma RunIsAllocated(t: Table, from: nat, n: nat)
    requires n > 0 && 2 <= from && from + n <= |t|
    requires forall c :: from <= c < |t| ==> t[c] == 0
    ensures Clusters(t, Run(from, n)) && FreeBelow(t, Run(from, n), |t|)
    ensures RunLinked(t, from, n - 1)[from + n - 1 := END_OF_CHAIN] == Allocated(t, Run(from, n))
  {
    var s := Run(from, n);
    LinkEntries(t, s);
    var a, b := RunLinked(t, from, n - 1)[from + n - 1 := END_OF_CHAIN], Allocated(t, s);
    forall c | 0 <= c < |t| ensures a[c] == b[c] {
      if from <= c < from + n {
        var k := c - from;
        assert s[k] == c;
        if k < n - 1 { assert Link(t, s)[s[k]] == s[k + 1]; }
      } else {
        assert c !in s;
      }
    }
  }

  lemma TableSet(fat: seq<byte>, c: nat, v: nat)
    requires Holds(fat, LIMIT) && c < LIMIT && v < 0x1000
    ensures EntryOffset(c) + 1 < |fat| && Holds(SetEntry(fat, c, v), LIMIT)
    ensures TableOf(SetEntry(fat, c, v), LIMIT) == TableOf(fat, LIMIT)[c := v]
  {
    hide Entry, SetEntry, Nibble;
    TableAfterSet(fat, LIMIT, c, v);
  }

  /** The data of a file's cluster number `c`, copied to its place. */
  method CopyCluster(area: array<byte>, data: seq<byte>, c: nat, cluster: nat, ghost s: seq<nat>)
    requires area.Length == SECTOR * DATA_SECTORS && c < |s| && s[c] == cluster && cluster >= 2 &&
             AllInside(area[..], SECTOR, s)
    modifies area
    ensures AllInside(area[..], SECTOR, s) && AllInside(old(area[..]), SECTOR, s[c..]) &&
            AllInside(area[..], SECTOR, s[c + 1..])
    ensures Stored(old(area[..]), SECTOR, s[c..], data[Min(c * SECTOR, |data|)..]) ==
            Stored(area[..], SECTOR, s[c + 1..], data[Min((c + 1) * SECTOR, |data|)..])
  {
    hide Put, Stored, ClusterOffset, AllInside;
    var base := (cluster - 2) * SECTOR;
    var lo, hi := Min(c * SECTOR, |data|), Min((c + 1) * SECTOR, |data|);
    ghost var was := area[..];
    RunOffset(SECTOR, cluster);
    InsideArea(was, s, c);
    SuffixInside(was, SECTOR, s, c);
    if lo < |data| {
      StoredStep(was, SECTOR, s, c, data, lo);
    } else {
      StoredDone(was, SECTOR, s[c..], data[lo..]);
      SuffixInside(was, SECTOR, s, c + 1);
      StoredDone(was, SECTOR, s[c + 1..], data[hi..]);
      PutNothing(was, base);
    }
    CopyBytes(area, base, data[lo..hi]);
  }

  lemma InsideArea(area: seq<byte>, s: seq<nat>, c: nat)
    requires AllInside(area, SECTOR, s) && c < |s|
    ensures ClusterOffset(SECTOR, s[c]) + SECTOR <= |area|
  {
  }

  /** The table when `c` of the `n` clusters from `next` on are linked. */
  ghost function LinkedSoFar(t: Table, next: nat, n: nat, c: nat): Table
    requires 1 <= n && next + n <= |t| && c <= n
  {
    if c < n then RunLinked(t, next, c) else RunLinked(t, next, n - 1)[next + n - 1 := END_OF_CHAIN]
  }

  lemma NoneLinked(t: Table, next: nat, n: nat)
    requires 1 <= n && next + n <= |t|
    ensures LinkedSoFar(t, next, n, 0) == t
  {
  }

  method LinkCluster(fat: array<byte>, next: nat, n: nat, c: nat, ghost t: Table)
    requires fat.Length == SECTOR * SECTORS_PER_FAT && Holds(fat[..], LIMIT) && |t| == LIMIT
    requires 2 <= next && 1 <= n && next + n <= LIMIT && c < n && TableOf(fat[..], LIMIT) == LinkedSoFar(t, next, n, c)
    modifies fat
    ensures Holds(fat[..], LIMIT) && TableOf(fat[..], LIMIT) == LinkedSoFar(t, next, n, c + 1)
  {
    hide Entry, SetEntry;
    var cluster := next + c;
    if c == n - 1 {
      TableSet(fat[..], cluster, END_OF_CHAIN);
      PutEntry(fat, cluster, END_OF_CHAIN);
    } else {
      TableSet(fat[..], cluster, cluster + 1);
      PutEntry(fat, cluster, cluster + 1);
      assert RunLinked(t, next, c)[cluster := cluster + 1] == RunLinked(t, next, c + 1);
    }
  }

  /** The inner loop: one file's clusters, copied and linked. */
  method PlaceFile(fat: array<byte>, area: array<byte>, data: seq<byte>, next: nat, n: nat)
    requires fat != area && fat.Length == SECTOR * SECTORS_PER_FAT && area.Length == SECTOR * DATA_SECTORS
    requires 2 <= next && next + n <= LIMIT && n >= 1 && |data| <= SECTOR * n && (n > 1 ==> SECTOR * (n - 1) < |data|)
    requires forall c :: next <= c < LIMIT ==> TableOf(fat[..], LIMIT)[c] == 0
    modifies fat, area
    ensures FreeBelow(TableOf(old(fat[..]), LIMIT), Run(next, n), LIMIT)
    ensures TableOf(fat[..], LIMIT) == Allocated(TableOf(old(fat[..]), LIMIT), Run(next, n))
    ensures AllInside(old(area[..]), SECTOR, Run(next, n))
    ensures area[..] == Stored(old(area[..]), SECTOR, Run(next, n), data)
  {
    hide Entry, SetEntry, Put, Stored, ClusterOffset, AllInside, Allocated, FreeBelow, RunLinked;
    ghost var t, d, s := TableOf(fat[..], LIMIT), area[..], Run(next, n);
    RunIsAllocated(t, next, n);
    ClustersInside(d, SECTOR, DATA_SECTORS, t, s);
    SuffixInside(d, SECTOR, s, 0);
    assert s[0..] == s && data[0..] == data;
    NoneLinked(t, next, n);
    for c := 0 to n
      invariant Holds(fat[..], LIMIT)
      invariant TableOf(fat[..], LIMIT) == LinkedSoFar(t, next, n, c)
      invariant AllInside(area[..], SECTOR, s) && AllInside(area[..], SECTOR, s[c..])
      invariant Stored(d, SECTOR, s, data) == Stored(area[..], SECTOR, s[c..], data[Min(c * SECTOR, |data|)..])
    {
      var cluster := next + c;
      CopyCluster(area, data, c, cluster, s);
      LinkCluster(fat, next, n, c, t);
    }
    SuffixInside(area[..], SECTOR, s, n);
    StoredDone(area[..], SECTOR, s[n..], data[Min(n * SECTOR, |data|)..]);
  }

  lemma RunOffset(cs: nat, c: nat)
    requires c >= 2
    ensures ClusterOffset(cs, c) == (c - 2) * cs
  {
  }

  // ----- the whole image

  /** Names the driver can find. */
  ghost predicate UsableNames(files: seq<File>) {
    forall i :: 0 <= i < |files| ==> Findable(To83(files[i].name))
  }

  /** No two files get the same 8.3 name. */
  ghost predicate OneEach(files: seq<File>) {
    forall i, j :: 0 <= i < j < |files| ==> To83(files[i].name) != To83(files[j].name)
  }

  /** File i is the first with its 8.3 name. */
  ghost predicate FirstOfName(files: seq<File>, i: nat)
    requires i < |files|
  {
    forall j :: 0 <= j < i ==> To83(files[j].name) != To83(files[i].name)
  }

  /** The first `k` files are in place, in the first `k` entries and the clusters
      below `next`; everything after is untouched. */
  ghost predicate Built(files: seq<File>, k: nat, next: nat, p: Parts, chains: seq<seq<nat>>) {
    k <= |files| <= ROOT_ENTRIES && 2 <= next <= LIMIT && p == Image(p.fat, p.dir, p.data) &&
    |p.fat| == SECTOR * SECTORS_PER_FAT && |p.dir| == 32 * ROOT_ENTRIES && |p.data| == SECTOR * DATA_SECTORS &&
    p.Ok() && Sound(p, chains) && NoLost(p, chains) && (OneEach(files[..k]) ==> NamesDistinct(p.dir)) &&
    Untouched(p, k, next) && Answers(files[..k], p, chains) && Heads(files, k, p.dir)
  }

  /** The first `k` entries are those of plain files with the names of the first `k`
      files, in their order, with no time. */
  ghost predicate Heads(files: seq<File>, k: nat, dir: seq<byte>)
    requires k <= |files|
  {
    forall j :: 0 <= j < k ==> Slot(dir, j) && HeadAt(dir, j) == To83(files[j].name) + [0x20] + seq(14, _ => 0)
  }

  lemma HeadsAfter(files: seq<File>, k: nat, dir: seq<byte>, x: seq<byte>)
    requires k < |files| && Slot(dir, k) && |x| == 6 && Heads(files, k, dir)
    ensures Heads(files, k + 1, Put(Put(dir, 32 * k, EntryHeader(To83(files[k].name), ATTR_ARCHIVE)), 32 * k + 26, x))
  {
    hide To83, EntryHeader, Put, HeadAt;
    var nm := To83(files[k].name);
    var d1 := Put(dir, 32 * k, EntryHeader(nm, ATTR_ARCHIVE));
    var d := Put(d1, 32 * k + 26, x);
    HeaderField(dir, k, nm, ATTR_ARCHIVE);
    TailField(d1, k, x);
    FileHeader(nm);
    forall j | 0 <= j < k ensures Slot(d, j) && HeadAt(d, j) == HeadAt(dir, j) {
      HeadKept(dir, d1, k, j);
      HeadKept(d1, d, k, j);
    }
  }

  lemma HeadKept(dir: seq<byte>, dir': seq<byte>, e: nat, j: nat)
    requires SameBut(dir, dir', e) && Slot(dir, j) && j != e
    ensures Slot(dir', j) && HeadAt(dir', j) == HeadAt(dir, j)
  {
    OtherEntry(dir, dir', e, j);
    assert HeadAt(dir, j) == EntryAt(dir, j)[..26] && HeadAt(dir', j) == EntryAt(dir', j)[..26];
  }

  /** Nothing is stored from entry `k` and cluster `next` on. */
  ghost predicate Untouched(p: Parts, k: nat, next: nat)
    requires |p.fat| == SECTOR * SECTORS_PER_FAT && |p.dir| == 32 * ROOT_ENTRIES && k <= ROOT_ENTRIES
  {
    (forall c :: next <= c < LIMIT ==> TableOf(p.fat, LIMIT)[c] == 0) &&
    (forall j :: 32 * k <= j < |p.dir| ==> p.dir[j] == 0) &&
    forall j :: 0 <= j < k ==> p.dir[32 * j] != 0
  }

  /** A lookup of any name yields the contents of the file with that name. */
  ghost predicate Answers(files: seq<File>, p: Parts, chains: seq<seq<nat>>)
    requires Sound(p, chains)
  {
    forall name: seq<byte> {:trigger Lookup(p, chains, name)} :: Lookup(p, chains, name) == Expected(files, name)
  }

  /** What a lookup of `name` must give: the first file with the name. */
  ghost function Expected(files: seq<File>, name: seq<byte>): Option<seq<byte>> {
    if files == [] then None
    else
      var before := Expected(files[..|files| - 1], name);
      if before.Some? then before
      else if To83(files[|files| - 1].name) == name then Some(files[|files| - 1].data)
      else None
  }

  lemma {:induction false} ExpectedAt(files: seq<File>, i: nat)
    requires i < |files| && FirstOfName(files, i)
    ensures Expected(files, To83(files[i].name)) == Some(files[i].data)
  {
    var n := |files| - 1;
    hide To83;
    assert forall j :: 0 <= j < n ==> files[..n][j] == files[j];
    if i < n { ExpectedAt(files[..n], i); } else { ExpectedNone(files[..n], To83(files[i].name)); }
  }

  ghost predicate NoneNamed(files: seq<File>, name: seq<byte>) {
    forall i :: 0 <= i < |files| ==> To83(files[i].name) != name
  }

  lemma NoneNamedSnoc(files: seq<File>, name: seq<byte>)
    requires files != []
    ensures NoneNamed(files, name) <==>
            NoneNamed(files[..|files| - 1], name) && To83(files[|files| - 1].name) != name
  {
    hide To83;
    var n := |files| - 1;
    assert forall j :: 0 <= j < n ==> files[..n][j] == files[j];
  }

  lemma {:induction false} ExpectedNone(files: seq<File>, name: seq<byte>)
    ensures Expected(files, name) == None <==> NoneNamed(files, name)
  {
    hide To83, NoneNamed;
    if files != [] {
      ExpectedNone(files[..|files| - 1], name);
      NoneNamedSnoc(files, name);
    } else {
      assert NoneNamed([], name) by { NobodyNamed(name); }
    }
  }

  lemma NobodyNamed(name: seq<byte>)
    ensures NoneNamed([], name)
  {
  }

  lemma OneEachPrefix(files: seq<File>, k: nat)
    requires k < |files|
    ensures OneEach(files[..k + 1]) <==> OneEach(files[..k]) && Expected(files[..k], To83(files[k].name)) == None
  {
    hide To83, Expected;
    var a, b := files[..k], files[..k + 1];
    ExpectedNone(a, To83(files[k].name));
    assert forall j :: 0 <= j < k ==> a[j] == b[j] == files[j];
    assert b[k] == files[k];
  }

  ghost function Empty(): Parts {
    Image([0xF0, 0xFF, 0xFF] + ZeroBytes(SECTOR * SECTORS_PER_FAT - 3), ZeroBytes(32 * ROOT_ENTRIES),
      ZeroBytes(SECTOR * DATA_SECTORS))
  }

  lemma ZeroEntries(fat: seq<byte>, c: nat)
    requires Holds(fat, LIMIT) && 2 <= c < LIMIT && forall k :: 3 <= k < |fat| ==> fat[k] == 0
    ensures TableOf(fat, LIMIT)[c] == 0
  {
    assert Entry(fat, c) == 0;
  }

  /** The freshly formatted volume: no entry in use, every cluster free. */
  lemma EmptyBuilt(files: seq<File>)
    requires |files| <= ROOT_ENTRIES
    ensures Built(files, 0, 2, Empty(), seq(ROOT_ENTRIES, _ => []))
  {
    var p := Empty();
    var chains: seq<seq<nat>> := seq(ROOT_ENTRIES, _ => []);
    ImageOk(p.fat, p.dir, p.data);
    forall c | 2 <= c < LIMIT ensures TableOf(p.fat, LIMIT)[c] == 0 { ZeroEntries(p.fat, c); }
    EmptySound(p, chains);
    forall name: seq<byte> ensures Lookup(p, chains, name) == None {
      LookupGone'(p, chains, name);
    }
  }

  lemma EmptySound(p: Parts, chains: seq<seq<nat>>)
    requires p.Ok() && chains == seq(ROOT_ENTRIES, _ => []) && |p.dir| == 32 * ROOT_ENTRIES
    requires forall j :: 0 <= j < |p.dir| ==> p.dir[j] == 0
    requires forall c :: 2 <= c < |p.Table()| ==> p.Table()[c] == 0
    ensures Sound(p, chains) && NoLost(p, chains) && NamesDistinct(p.dir)
  {
    forall i | 0 <= i < ROOT_ENTRIES ensures Starts(p.dir)[i] == 0 { assert Slot(p.dir, i) && !InUse(p.dir, i); }
  }

  lemma LookupGone'(p: Parts, chains: seq<seq<nat>>, name: seq<byte>)
    requires Sound(p, chains) && |p.dir| >= 32 && p.dir[0] == 0
    ensures Lookup(p, chains, name) == None
  {
  }

  lemma ExpectedSnoc(files: seq<File>, k: nat, name: seq<byte>)
    requires k < |files|
    ensures Expected(files[..k + 1], name) ==
            if Expected(files[..k], name).Some? then Expected(files[..k], name)
            else if To83(files[k].name) == name then Some(files[k].data) else None
  {
    var f := files[..k + 1];
    assert f[|f| - 1] == files[k] && f[..|f| - 1] == files[..k];
  }

  /** The directory finds a name exactly if one of the files so far has it, in an
      entry before the next one. */
  lemma FoundSoFar(files: seq<File>, k: nat, next: nat, p: Parts, chains: seq<seq<nat>>)
    requires Built(files, k, next, p, chains) && k < |files|
    ensures Find(p.dir, To83(files[k].name), 0) == -1 <==> Expected(files[..k], To83(files[k].name)) == None
    ensures Find(p.dir, To83(files[k].name), 0) < k
  {
    hide Expected;
    var nm := To83(files[k].name);
    assert Lookup(p, chains, nm) == Expected(files[..k], nm);
    FindIsFirstMatch(p.dir, nm, 0);
    var i := Find(p.dir, nm, 0);
    assert i != -1 ==> p.dir[32 * i] != 0;
  }

  lemma DirRest(dir: seq<byte>, k: nat, h: seq<byte>, x: seq<byte>)
    requires Slot(dir, k) && |h| == 26 && |x| == 6 && h[0] != 0
    requires forall j :: 32 * k <= j < |dir| ==> dir[j] == 0
    requires forall j :: 0 <= j < k ==> dir[32 * j] != 0
    ensures var d := Put(Put(dir, 32 * k, h), 32 * k + 26, x);
            (forall j :: 32 * (k + 1) <= j < |d| ==> d[j] == 0) && forall j :: 0 <= j < k + 1 ==> d[32 * j] != 0
  {
  }

  lemma TableRest(t: Table, next: nat, n: nat)
    requires Usable(t) && n > 0 && 2 <= next && next + n <= |t| && FreeBelow(t, Run(next, n), |t|)
    requires forall c :: next <= c < |t| ==> t[c] == 0
    ensures forall c :: next + n <= c < |t| ==> Allocated(t, Run(next, n))[c] == 0
  {
    AllocatedChain(t, Run(next, n));
  }

  lemma AnswersAfter(files: seq<File>, k: nat, p: Parts, chains: seq<seq<nat>>, q: Parts, chains': seq<seq<nat>>)
    requires k < |files| && Sound(p, chains) && Sound(q, chains') && Answers(files[..k], p, chains)
    requires Expected(files[..k], To83(files[k].name)) == None
    requires OthersKept(p, chains, q, chains', To83(files[k].name))
    requires Lookup(q, chains', To83(files[k].name)) == Some(files[k].data)
    ensures Answers(files[..k + 1], q, chains')
  {
    hide Lookup, Sound, Expected, EntriesKept;
    forall name: seq<byte> ensures Lookup(q, chains', name) == Expected(files[..k + 1], name) {
      ExpectedSnoc(files, k, name);
      assert Lookup(p, chains, name) == Expected(files[..k], name);
    }
  }

  /** A file whose name is taken already is stored, but lookups go on as before. */
  lemma AnswersSame(files: seq<File>, k: nat, p: Parts, chains: seq<seq<nat>>, q: Parts, chains': seq<seq<nat>>)
    requires k < |files| && Sound(p, chains) && Sound(q, chains') && Answers(files[..k], p, chains)
    requires Expected(files[..k], To83(files[k].name)) != None
    requires forall name: seq<byte> {:trigger Lookup(q, chains', name)} ::
               Lookup(q, chains', name) == Lookup(p, chains, name)
    ensures Answers(files[..k + 1], q, chains')
  {
    hide Lookup, Sound, Expected;
    forall name: seq<byte> ensures Lookup(q, chains', name) == Expected(files[..k + 1], name) {
      ExpectedSnoc(files, k, name);
      assert Lookup(p, chains, name) == Expected(files[..k], name);
    }
  }

  lemma NameUsable(files: seq<File>, k: nat)
    requires UsableNames(files) && k < |files|
    ensures Findable(To83(files[k].name))
  {
  }

  lemma FileAdded(files: seq<File>, k: nat, next: nat, n: nat, p: Parts, chains: seq<seq<nat>>, q: Parts)
    requires Built(files, k, next, p, chains) && UsableNames(files) && k < |files|
    requires n == ClusterCount(|files[k].data|) && next + n <= LIMIT && |files[k].data| < U32_LIMIT
    requires q == Image(q.fat, q.dir, q.data)
    requires |q.fat| == SECTOR * SECTORS_PER_FAT && |q.dir| == 32 * ROOT_ENTRIES && |q.data| == SECTOR * DATA_SECTORS
    requires Creates(p, chains, k, To83(files[k].name), ATTR_ARCHIVE, Run(next, n), files[k].data, |files[k].data|, q)
    ensures k < |chains|
    ensures Built(files, k + 1, next + n, q,
            CreatedChains(p, chains, k, To83(files[k].name), ATTR_ARCHIVE, Run(next, n)))
  {
    hide Built, Creates, Sound, NoLost, NamesDistinct, Answers, Untouched, Image, Lookup, Find, Findable, Expected;
    hide To83, UsableNames, OneEach, Heads;
    hide Run, CreatedChains, OthersKept, ClusterCount, BootSector, Parts.Ok;
    var nm, data, s := To83(files[k].name), files[k].data, Run(next, n);
    BuiltParts(files, k, next, p, chains);
    NameUsable(files, k);
    FoundSoFar(files, k, next, p, chains);
    OneEachPrefix(files, k);
    UntouchedAfter(p, chains, k, next, n, nm, data, q);
    CreatedHeads(files, k, p, chains, s, data, q);
    ImageOk(q.fat, q.dir, q.data);
    if Find(p.dir, nm, 0) == -1 {
      CreatedSummary(p, chains, k, nm, ATTR_ARCHIVE, s, data, |data|, q);
      assert data[..|data|] == data;
      AnswersAfter(files, k, p, chains, q, CreatedChains(p, chains, k, nm, ATTR_ARCHIVE, s));
    } else {
      CreatedDuplicate(p, chains, k, nm, ATTR_ARCHIVE, s, data, |data|, q);
      AnswersSame(files, k, p, chains, q, CreatedChains(p, chains, k, nm, ATTR_ARCHIVE, s));
    }
    var chains' := CreatedChains(p, chains, k, nm, ATTR_ARCHIVE, s);
    BuiltFrom(files, k + 1, next + n, q, chains');
  }

  lemma CreatedHeads(files: seq<File>, k: nat, p: Parts, chains: seq<seq<nat>>, s: seq<nat>, data: seq<byte>, q: Parts)
    requires k < |files| && Heads(files, k, p.dir) && |data| < U32_LIMIT
    requires Creates(p, chains, k, To83(files[k].name), ATTR_ARCHIVE, s, data, |data|, q)
    ensures Heads(files, k + 1, q.dir)
  {
    hide To83, EntryHeader, Put, Heads, Sound, Allocated, Stored, Bytes16, Bytes32, FreeBelow, AllInside;
    HeadsAfter(files, k, p.dir, Bytes16(s[0]) + Bytes32(|data|));
  }

  lemma BuiltParts(files: seq<File>, k: nat, next: nat, p: Parts, chains: seq<seq<nat>>)
    requires Built(files, k, next, p, chains)
    ensures k <= |files| <= ROOT_ENTRIES && 2 <= next <= LIMIT && p == Image(p.fat, p.dir, p.data)
    ensures |p.fat| == SECTOR * SECTORS_PER_FAT && |p.dir| == 32 * ROOT_ENTRIES && |p.data| == SECTOR * DATA_SECTORS
    ensures Sound(p, chains) && NoLost(p, chains) && (OneEach(files[..k]) ==> NamesDistinct(p.dir))
    ensures Answers(files[..k], p, chains) && Untouched(p, k, next) && Heads(files, k, p.dir)
  {
    hide Sound, NoLost, NamesDistinct, Answers, Untouched, Image, Parts.Ok;
  }

  lemma BuiltFrom(files: seq<File>, k: nat, next: nat, p: Parts, chains: seq<seq<nat>>)
    requires k <= |files| <= ROOT_ENTRIES && 2 <= next <= LIMIT && p == Image(p.fat, p.dir, p.data)
    requires |p.fat| == SECTOR * SECTORS_PER_FAT && |p.dir| == 32 * ROOT_ENTRIES && |p.data| == SECTOR * DATA_SECTORS
    requires p.Ok() && Sound(p, chains) && NoLost(p, chains) && (OneEach(files[..k]) ==> NamesDistinct(p.dir))
    requires Untouched(p, k, next) && Answers(files[..k], p, chains) && Heads(files, k, p.dir)
    ensures Built(files, k, next, p, chains)
  {
  }

  lemma UntouchedAfter(p: Parts, chains: seq<seq<nat>>, k: nat, next: nat, n: nat, nm: seq<byte>, data: seq<byte>,
        q: Parts)
    requires |p.fat| == |q.fat| == SECTOR * SECTORS_PER_FAT && |p.dir| == |q.dir| == 32 * ROOT_ENTRIES
    requires |p.data| == |q.data| == SECTOR * DATA_SECTORS && p == Image(p.fat, p.dir, p.data) &&
             q == Image(q.fat, q.dir, q.data)
    requires n > 0 && 2 <= next && next + n <= LIMIT && k < ROOT_ENTRIES && |data| < U32_LIMIT && Untouched(p, k, next)
    requires Creates(p, chains, k, nm, ATTR_ARCHIVE, Run(next, n), data, |data|, q)
    ensures Untouched(q, k + 1, next + n)
  {
    ImageOk(p.fat, p.dir, p.data);
    ImageOk(q.fat, q.dir, q.data);
    hide Allocated, Stored, Put, Entry, EntryHeader, Bytes16, Bytes32, Image, BootSector, AllInside, Sound;
    TableRest(p.Table(), next, n);
    DirRest(p.dir, k, EntryHeader(nm, ATTR_ARCHIVE), Bytes16(Run(next, n)[0]) + Bytes32(|data|));
  }

  ghost function TotalNeeded(files: seq<File>): nat {
    if files == [] then 0 else TotalNeeded(files[..|files| - 1]) + ClusterCount(|files[|files| - 1].data|)
  }

  lemma TotalNeededStep(files: seq<File>, k: nat)
    requires k < |files|
    ensures TotalNeeded(files[..k + 1]) == TotalNeeded(files[..k]) + ClusterCount(|files[k].data|)
  {
    assert files[..k + 1][..k] == files[..k];
  }

  lemma {:induction false} TotalNeededGrows(files: seq<File>, k: nat)
    requires k <= |files|
    ensures TotalNeeded(files[..k]) <= TotalNeeded(files)
    decreases |files| - k
  {
    if k < |files| {
      TotalNeededStep(files, k);
      TotalNeededGrows(files, k + 1);
    } else {
      assert files[..k] == files;
    }
  }

  /** The entry the builder writes is the one the driver would. */
  lemma EntryBytes(dir: seq<byte>, k: nat, nm: seq<byte>, x: seq<byte>)
    requires Slot(dir, k) && |nm| == 11 && |x| == 6
    requires forall j :: 32 * k <= j < 32 * k + 32 ==> dir[j] == 0
    ensures Put(Put(dir, 32 * k, nm + [ATTR_ARCHIVE]), 32 * k + 26, x) ==
            Put(Put(dir, 32 * k, EntryHeader(nm, ATTR_ARCHIVE)), 32 * k + 26, x)
  {
    var a, b := Put(dir, 32 * k, nm + [ATTR_ARCHIVE]), Put(dir, 32 * k, EntryHeader(nm, ATTR_ARCHIVE));
    assert a == b;
  }

  method WriteEntry(root: array<byte>, k: nat, nm: seq<byte>, start: u16, size: u32)
    requires 32 * k + 32 <= root.Length && |nm| == 11
    modifies root
    ensures root[..] == Put(Put(old(root[..]), 32 * k, nm + [ATTR_ARCHIVE]), 32 * k + 26,
            Bytes16(start) + Bytes32(size))
  {
    hide Put, Bytes16, Bytes32;
    CopyBytes(root, 32 * k, nm + [ATTR_ARCHIVE]);
    CopyBytes(root, 32 * k + 26, Bytes16(start) + Bytes32(size));
  }

  /** One round of the main loop: place the data, then write the entry. */
  method AddFile(fat: array<byte>, root: array<byte>, area: array<byte>, files: seq<File>, k: nat, next: nat, n: nat,
        ghost chains: seq<seq<nat>>)
      returns (ghost chains': seq<seq<nat>>)
    requires fat != root && root != area && fat != area
    requires fat.Length == SECTOR * SECTORS_PER_FAT && root.Length == 32 * ROOT_ENTRIES &&
             area.Length == SECTOR * DATA_SECTORS
    requires UsableNames(files) && k < |files| && Built(files, k, next, Image(fat[..], root[..], area[..]), chains)
    requires n == ClusterCount(|files[k].data|) && next + n <= LIMIT
    modifies fat, root, area
    ensures Built(files, k + 1, next + n, Image(fat[..], root[..], area[..]), chains')
  {
    hide *;
    ghost var p := Image(fat[..], root[..], area[..]);
    BuiltFacts(files, k, next, p, chains);
    CountFits(|files[k].data|);
    ImageParts(fat[..], root[..], area[..]);
    PlaceFile(fat, area, files[k].data, next, n);
    WriteEntry(root, k, To83(files[k].name), next, |files[k].data|);
    ImageParts(fat[..], root[..], area[..]);
    chains' := FileRecorded(files, k, next, n, p, chains, Image(fat[..], root[..], area[..]));
  }

  lemma ImageParts(fat: seq<byte>, dir: seq<byte>, data: seq<byte>)
    ensures var p := Image(fat, dir, data);
            p.fat == fat && p.dir == dir && p.data == data && p == Image(p.fat, p.dir, p.data)
  {
  }

  /** What that round did, told on values. */
  lemma FileRecorded(files: seq<File>, k: nat, next: nat, n: nat, p: Parts, chains: seq<seq<nat>>, q: Parts)
        returns (chains': seq<seq<nat>>)
    requires UsableNames(files) && k < |files| && Built(files, k, next, p, chains)
    requires n == ClusterCount(|files[k].data|) && 2 <= next && next + n <= LIMIT && |files[k].data| < U32_LIMIT &&
             32 * k + 32 <= |p.dir|
    requires q == Image(q.fat, q.dir, q.data) && p == Image(p.fat, p.dir, p.data)
    requires |q.fat| == |p.fat| == SECTOR * SECTORS_PER_FAT && |q.dir| == |p.dir| == 32 * ROOT_ENTRIES &&
             |q.data| == |p.data| == SECTOR * DATA_SECTORS
    requires FreeBelow(TableOf(p.fat, LIMIT), Run(next, n), LIMIT)
    requires TableOf(q.fat, LIMIT) == Allocated(TableOf(p.fat, LIMIT), Run(next, n))
    requires AllInside(p.data, SECTOR, Run(next, n))
    requires q.data == Stored(p.data, SECTOR, Run(next, n), files[k].data)
    requires q.dir == Put(Put(p.dir, 32 * k, To83(files[k].name) + [ATTR_ARCHIVE]), 32 * k + 26,
             Bytes16(next) + Bytes32(|files[k].data|))
    ensures Built(files, k + 1, next + n, q, chains')
  {
    hide Sound, NoneLost, Lookup, Expected, BootSector, NamesDistinct, Allocated, Stored, AllInside, Put, FreeBelow;
    hide To83, Built, UsableNames;
    hide Geometry.Fits, Geometry.FatSectors, Geometry.TotalClusters, Geometry.ClusterSize, Parts.Join, Span;
    hide ReadGeometry, Bytes16, Bytes32;
    var nm, data, s := To83(files[k].name), files[k].data, Run(next, n);
    var start: u16, size: u32 := next, |data|;
    BuiltFacts(files, k, next, p, chains);
    NameUsable(files, k);
    ImageOk(p.fat, p.dir, p.data);
    ImageOk(q.fat, q.dir, q.data);
    EntryBytes(p.dir, k, nm, Bytes16(start) + Bytes32(size));
    SpanOfRun(n);
    BuiltReaches(files, k, next, p, chains);
    assert Creates(p, chains, k, nm, ATTR_ARCHIVE, s, data, size, q);
    FileAdded(files, k, next, n, p, chains, q);
    chains' := CreatedChains(p, chains, k, nm, ATTR_ARCHIVE, s);
  }

  lemma CountFits(size: nat)
    ensures var n := ClusterCount(size); n > 1 ==> SECTOR * (n - 1) < size
    ensures ClusterCount(size) <= LIMIT ==> size < U32_LIMIT == 0x1_0000_0000
    ensures LIMIT < 0x1_0000
  {
  }

  lemma SpanOfRun(n: nat)
    ensures Span(n, SECTOR) == SECTOR * n
  {
  }

  lemma BuiltReaches(files: seq<File>, k: nat, next: nat, p: Parts, chains: seq<seq<nat>>)
    requires Built(files, k, next, p, chains) && k < |files|
    ensures Sound(p, chains) && Reaches(p.dir, k) && !InUse(p.dir, k)
  {
  }

  /** main(): fails exactly when there are too many files or too many clusters. */
  method Build(files: seq<File>) returns (ok: bool, image: array<byte>, ghost p: Parts, ghost chains: seq<seq<nat>>)
    requires UsableNames(files)
    ensures fresh(image)
    ensures ok <==> |files| <= ROOT_ENTRIES && TotalNeeded(files) <= DATA_SECTORS
    ensures ok ==> image.Length == VOLUME_SIZE && p.Ok() && image[..] == p.Join() && p.Geo().bytesPerSector == SECTOR
    ensures ok ==> Sound(p, chains) && NoLost(p, chains) && (OneEach(files) ==> NamesDistinct(p.dir))
    ensures ok ==> forall i :: 0 <= i < |files| ==>
                     Slot(p.dir, i) && HeadAt(p.dir, i) == To83(files[i].name) + [0x20] + seq(14, _ => 0)
    ensures ok ==> forall i :: 0 <= i < |files| && FirstOfName(files, i) ==>
                     Lookup(p, chains, To83(files[i].name)) == Some(files[i].data)
  {
    hide Sound, NoneLost, Lookup, Expected, BootSector, NamesDistinct, To83, TotalNeeded, ClusterCount, Built;
    hide UsableNames, Parts.Ok, Parts.Join;
    image := new byte[0];
    p, chains := Empty(), seq(ROOT_ENTRIES, _ => []);
    if |files| > ROOT_ENTRIES { return false, image, p, chains; }
    var fat := new byte[SECTOR * SECTORS_PER_FAT](i => if i == 0 then 0xF0 else if i <= 2 then 0xFF else 0);
    var root := new byte[32 * ROOT_ENTRIES](_ => 0);
    var area := new byte[SECTOR * DATA_SECTORS](_ => 0);
    EmptyBuilt(files);
    assert Image(fat[..], root[..], area[..]) == Empty() by {
      assert fat[..] == Empty().fat && root[..] == Empty().dir && area[..] == Empty().data;
    }
    NoneNeeded(files);
    var next: nat := 2;
    for k := 0 to |files|
      invariant Built(files, k, next, Image(fat[..], root[..], area[..]), chains)
      invariant next == 2 + TotalNeeded(files[..k]) <= LIMIT
    {
      var n := ClusterCount(|files[k].data|);
      TotalNeededStep(files, k);
      TotalNeededGrows(files, k + 1);
      if next - 2 + n > DATA_SECTORS {
        return false, image, p, chains;
      }
      chains := AddFile(fat, root, area, files, k, next, n, chains);
      next := next + n;
    }
    WholeList(files);
    p := Image(fat[..], root[..], area[..]);
    ImageOk(p.fat, p.dir, p.data);
    BuiltFacts(files, |files|, next, p, chains);
    image := Assemble(fat, root, area);
    AllFound(files, next, p, chains);
    ok := true;
  }

  lemma WholeList(files: seq<File>)
    ensures files[..|files|] == files
  {
  }

  lemma BuiltFacts(files: seq<File>, k: nat, next: nat, p: Parts, chains: seq<seq<nat>>)
    requires Built(files, k, next, p, chains)
    ensures k <= |files| <= ROOT_ENTRIES && 2 <= next <= LIMIT
    ensures p.Ok() && Sound(p, chains) && NoLost(p, chains) && (OneEach(files[..k]) ==> NamesDistinct(p.dir))
    ensures Heads(files, k, p.dir)
    ensures forall c :: next <= c < LIMIT ==> TableOf(p.fat, LIMIT)[c] == 0
    ensures forall j :: 32 * k <= j < |p.dir| ==> p.dir[j] == 0
  {
  }

  lemma NoneNeeded(files: seq<File>)
    ensures TotalNeeded(files[..0]) == 0
  {
  }

  lemma AllFound(files: seq<File>, next: nat, p: Parts, chains: seq<seq<nat>>)
    requires Built(files, |files|, next, p, chains)
    ensures forall i :: 0 <= i < |files| && FirstOfName(files, i) ==>
              Lookup(p, chains, To83(files[i].name)) == Some(files[i].data)
  {
    hide Lookup, Expected;
    assert files[..|files|] == files;
    forall i | 0 <= i < |files| && FirstOfName(files, i) ensures Lookup(p, chains, To83(files[i].name)) ==
      Some(files[i].data) {
      ExpectedAt(files, i);
    }
  }

  /** The three areas and the boot sector, put together. */
  method Assemble(fat: array<byte>, root: array<byte>, area: array<byte>) returns (image: array<byte>)
    requires fat.Length == SECTOR * SECTORS_PER_FAT && root.Length == 32 * ROOT_ENTRIES &&
             area.Length == SECTOR * DATA_SECTORS
    ensures fresh(image) && image.Length == VOLUME_SIZE
    ensures image[..] == Image(fat[..], root[..], area[..]).Join()
  {
    hide BootSector, Put;
    image := new byte[VOLUME_SIZE](_ => 0);
    ghost var i0 := image[..];
    CopyBytes(image, 0, BootSector());
    CopyBytes(image, 512, fat[..]);
    CopyBytes(image, 512 + 6144, root[..]);
    CopyBytes(image, 512 + 6144 + 2048, area[..]);
    FourPuts(i0, BootSector(), fat[..], root[..], area[..]);
  }

  lemma FourPuts(i0: seq<byte>, a: seq<byte>, b: seq<byte>, c: seq<byte>, d: seq<byte>)
    requires |a| == 512 && |b| == 6144 && |c| == 2048 && |d| == SECTOR * DATA_SECTORS && |i0| == VOLUME_SIZE
    ensures Put(Put(Put(Put(i0, 0, a), 512, b), 6656, c), 8704, d) == a + b + [] + c + d + []
  {
  }

  /** An ASCII name never looks like a deleted or an end entry. */
  lemma AsciiFindable(name: seq<byte>)
    requires forall k :: 0 <= k < |name| ==> 0 < name[k] < 0x80
    ensures Findable(To83(name))
  {
  }

  /** From files to image to driver: every file that is the first with its 8.3 name is
      loaded back byte for byte under any name the driver parses to the builder's. */
  method BuildAndLoad(files: seq<File>, i: nat, filename: seq<byte>, buffer: array<byte>) returns (ok: bool, n: nat)
    requires UsableNames(files) && i < |files| && FirstOfName(files, i)
    requires Parse83(filename) == To83(files[i].name) && buffer.Length >= |files[i].data|
    modifies buffer
    ensures ok <==> |files| <= ROOT_ENTRIES && TotalNeeded(files) <= DATA_SECTORS
    ensures ok ==> n == |files[i].data| && buffer[..n] == files[i].data
  {
    hide Sound, NoneLost, Lookup, Expected, BootSector, NamesDistinct, To83, TotalNeeded, Parse83;
    var image;
    ghost var p, chains;
    ok, image, p, chains := Build(files);
    n := 0;
    if ok {
      HeadGeometry(p);
      var v := new Volume(image[..], true, p, chains);
      n := Load(v, filename, buffer);
    }
  }
}
