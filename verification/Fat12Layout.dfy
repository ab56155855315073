/** How the bytes of a FAT12 volume divide into boot sector, table, root
    directory and data clusters (src/fs/fat12.c), and what a lookup finds there. */
module Fat12Layout {
  import opened Bytes
  import opened Arith
  import opened Memory
  import opened Wrappers
  import opened Fat12Table
  import opened Fat12Chains

  const SECTOR: nat := 512
  const VOLUME_SIZE: nat := 4096 * 512

  /** The boot parameter block fields the driver reads. */
  datatype Geometry = Geometry(
    bytesPerSector: nat, sectorsPerCluster: nat, reservedSectors: nat, numFats: nat,
    rootEntries: nat, totalSectors: nat, sectorsPerFat: nat)
  {
    function FatSectors(): nat {
      numFats * sectorsPerFat
    }

    function FatOffset(): nat {
      SECTOR * reservedSectors
    }

    function FatBytes(): nat {
      SECTOR * sectorsPerFat
    }

    function RootOffset(): nat {
      SECTOR * (reservedSectors + FatSectors())
    }

    function RootSectors(): nat {
      rootEntries * 32 / SECTOR
    }

    function DataOffset(): nat {
      RootOffset() + SECTOR * RootSectors()
    }

    function ClusterSize(): nat {
      SECTOR * sectorsPerCluster
    }

    function DataSectors(): int {
      totalSectors - reservedSectors - FatSectors() - RootSectors()
    }

    /** fat12_total_clusters. */
    function TotalClusters(): nat
      requires DataSectors() >= 0 && sectorsPerCluster > 0
    {
      DataSectors() / sectorsPerCluster
    }

    /** The layout fits the volume, the table has room for every cluster, and no
        cluster number looks like an end mark. */
    predicate Fits() {
      bytesPerSector == SECTOR && sectorsPerCluster > 0 && reservedSectors > 0 && numFats > 0 &&
      rootEntries % 16 == 0 && DataSectors() >= 0 && SECTOR * totalSectors <= VOLUME_SIZE &&
      3 * (TotalClusters() + 2) <= 2 * FatBytes() && TotalClusters() + 2 <= END_MIN
    }
  }

  function ReadGeometry(img: seq<byte>): Geometry
    requires |img| >= 24
  {
    Geometry(Word16(img, 11), img[13], Word16(img, 14), img[16], Word16(img, 17), Word16(img, 19), Word16(img, 22))
  }

  /** The size of `n` clusters. */
  function Span(n: int, cs: nat): int {
    n * cs
  }

  /** The volume as the driver divides it; `spare` holds further table copies. */
  datatype Parts = Parts(head: seq<byte>, fat: seq<byte>, spare: seq<byte>, dir: seq<byte>, data: seq<byte>,
        tail: seq<byte>)
  {
    ghost predicate Ok() {
      |head| >= 24 && Geo().Fits() &&
      |head| == Geo().FatOffset() && |fat| == Geo().FatBytes() &&
      |head| + |fat| + |spare| == Geo().RootOffset() &&
      |dir| == 32 * Geo().rootEntries &&
      |data| == Span(Geo().TotalClusters(), Geo().ClusterSize()) &&
      |Join()| == VOLUME_SIZE
    }

    ghost function Geo(): Geometry
      requires |head| >= 24
    {
      ReadGeometry(head)
    }

    ghost function Join(): seq<byte> {
      head + fat + spare + dir + data + tail
    }

    ghost function Table(): (t: seq<nat>)
      requires Ok()
      ensures |t| == Geo().TotalClusters() + 2
    {
      TableOf(fat, Geo().TotalClusters() + 2)
    }
  }

  // ----- the root directory

  predicate Slot(dir: seq<byte>, i: int) {
    0 <= i && 32 * i + 32 <= |dir|
  }

  /** All 32 bytes of an entry: name, attribute, first cluster, size and the rest. */
  function EntryAt(dir: seq<byte>, i: nat): seq<byte>
    requires Slot(dir, i)
  {
    dir[32 * i..32 * i + 32]
  }

  /** The bytes of an entry before its first cluster and size: name, attribute, times. */
  function HeadAt(dir: seq<byte>, i: nat): seq<byte>
    requires Slot(dir, i)
  {
    dir[32 * i..32 * i + 26]
  }

  function NameAt(dir: seq<byte>, i: nat): seq<byte>
    requires Slot(dir, i)
  {
    dir[32 * i..32 * i + 11]
  }

  function StartAt(dir: seq<byte>, i: nat): nat
    requires Slot(dir, i)
  {
    Word16(dir, 32 * i + 26)
  }

  function SizeAt(dir: seq<byte>, i: nat): nat
    requires Slot(dir, i)
  {
    Word32(dir, 32 * i + 28)
  }

  predicate InUse(dir: seq<byte>, i: nat)
    requires Slot(dir, i)
  {
    dir[32 * i] != 0 && dir[32 * i] != 0xE5
  }

  /** Nothing follows the entry that ends the directory. */
  ghost predicate EndClosed(dir: seq<byte>) {
    forall i, j :: 0 <= i < j && Slot(dir, j) && dir[32 * i] == 0 ==> dir[32 * j] == 0
  }

  /** fat12_find: the first entry in use with this name, up to the end mark. */
  function Find(dir: seq<byte>, name: seq<byte>, i: nat): (r: int)
    ensures r == -1 || (i <= r && Slot(dir, r))
    decreases |dir| - 32 * i
  {
    if !Slot(dir, i) || dir[32 * i] == 0 then -1
    else if dir[32 * i] != 0xE5 && NameAt(dir, i) == name then i
    else Find(dir, name, i + 1)
  }

  /** fat12_find_free_entry. */
  function FindFree(dir: seq<byte>, i: nat): (r: int)
    ensures r == -1 || (i <= r && Slot(dir, r) && !InUse(dir, r))
    ensures forall j :: i <= j && Slot(dir, j) && (r == -1 || j < r) ==> InUse(dir, j)
    decreases |dir| - 32 * i
  {
    if !Slot(dir, i) then -1
    else if dir[32 * i] == 0 || dir[32 * i] == 0xE5 then i
    else FindFree(dir, i + 1)
  }

  ghost predicate Matches(dir: seq<byte>, name: seq<byte>, i: nat)
    requires Slot(dir, i)
  {
    InUse(dir, i) && NameAt(dir, i) == name
  }

  ghost predicate FirstMatch(dir: seq<byte>, name: seq<byte>, from: nat, r: int) {
    (r == -1 || (from <= r && Slot(dir, r) && Matches(dir, name, r))) &&
    forall j :: from <= j && Slot(dir, j) && (r == -1 || j < r) ==> !Matches(dir, name, j)
  }

  lemma {:induction false} FindIsFirstMatch(dir: seq<byte>, name: seq<byte>, i: nat)
    requires EndClosed(dir)
    ensures FirstMatch(dir, name, i, Find(dir, name, i))
    decreases |dir| - 32 * i
  {
    if Slot(dir, i) && dir[32 * i] != 0 && (dir[32 * i] == 0xE5 || NameAt(dir, i) != name) {
      FindIsFirstMatch(dir, name, i + 1);
    }
  }

  /** The directories differ at most in entry `e`. */
  ghost predicate SameBut(dir: seq<byte>, dir': seq<byte>, e: nat) {
    |dir'| == |dir| && forall k :: 0 <= k < |dir| && k / 32 != e ==> dir'[k] == dir[k]
  }

  lemma OtherEntry(dir: seq<byte>, dir': seq<byte>, e: nat, j: nat)
    requires SameBut(dir, dir', e) && Slot(dir, j) && j != e
    ensures dir'[32 * j] == dir[32 * j] && NameAt(dir', j) == NameAt(dir, j)
    ensures StartAt(dir', j) == StartAt(dir, j) && SizeAt(dir', j) == SizeAt(dir, j)
    ensures InUse(dir', j) == InUse(dir, j) && EntryAt(dir', j) == EntryAt(dir, j)
  {
    forall k | 32 * j <= k < 32 * j + 32 ensures dir'[k] == dir[k] { assert k / 32 == j; }
  }

  /** Rewriting one entry at or before the end changes lookups of its own old
      and new name only. */
  lemma FindFrame(dir: seq<byte>, dir': seq<byte>, e: nat, name: seq<byte>)
    requires SameBut(dir, dir', e) && Slot(dir, e) && EndClosed(dir) && dir'[32 * e] != 0
    requires forall j :: 0 <= j < e ==> dir[32 * j] != 0
    requires Matches(dir', name, e) ==> Find(dir, name, 0) == -1 || Find(dir, name, 0) == e
    ensures EndClosed(dir')
    ensures Matches(dir', name, e) ==> Find(dir', name, 0) == e
    ensures !Matches(dir', name, e) && !Matches(dir, name, e) ==> Find(dir', name, 0) == Find(dir, name, 0)
  {
    forall i, j | 0 <= i < j && Slot(dir', j) && dir'[32 * i] == 0
      ensures dir'[32 * j] == 0
    {
      assert Slot(dir, i);
      if j == e {
        OtherEntry(dir, dir', e, i);
      } else {
        OtherEntry(dir, dir', e, j); if i != e { OtherEntry(dir, dir', e, i); }
      }
    }
    FindIsFirstMatch(dir, name, 0);
    FindIsFirstMatch(dir', name, 0);
    forall j | Slot(dir, j) && j != e ensures Matches(dir', name, j) == Matches(dir, name, j) {
      OtherEntry(dir, dir', e, j);
    }
  }

  // ----- the data area

  function ClusterOffset(cs: nat, c: nat): (o: int)
    requires c >= 2
  {
    Span(c - 2, cs)
  }

  /** Cluster `c` lies inside the data area. */
  ghost predicate Inside(data: seq<byte>, cs: nat, c: nat) {
    c >= 2 && 0 <= ClusterOffset(cs, c) && ClusterOffset(cs, c) + cs <= |data|
  }

  ghost function Cluster(data: seq<byte>, cs: nat, c: nat): (s: seq<byte>)
    requires Inside(data, cs, c)
    ensures |s| == cs
  {
    data[ClusterOffset(cs, c)..ClusterOffset(cs, c) + cs]
  }

  lemma ClusterInside(data: seq<byte>, cs: nat, total: nat, c: nat)
    requires |data| == Span(total, cs) && 2 <= c < total + 2
    ensures Inside(data, cs, c)
  {
    MulMonotone(0, c - 2, cs);
    MulMonotone(c - 1, total, cs);
    MulDistribute(c - 2, 1, cs);
  }

  lemma ClustersApart(cs: nat, c: nat, d: nat)
    requires 2 <= c < d
    ensures ClusterOffset(cs, c) + cs <= ClusterOffset(cs, d)
  {
    MulMonotone(c - 1, d - 2, cs);
    MulDistribute(c - 2, 1, cs);
  }

  /** Writing at the front of one cluster leaves every other cluster alone. */
  lemma PutOtherCluster(data: seq<byte>, cs: nat, c: nat, x: seq<byte>, d: nat)
    requires Inside(data, cs, c) && |x| <= cs && Inside(data, cs, d) && d != c
    ensures var r := Put(data, ClusterOffset(cs, c), x); Inside(r, cs, d) && Cluster(r, cs, d) == Cluster(data, cs, d)
  {
    hide ClusterOffset;
    if c < d { ClustersApart(cs, c, d); } else { ClustersApart(cs, d, c); }
  }

  lemma PutOwnCluster(data: seq<byte>, cs: nat, c: nat, x: seq<byte>)
    requires Inside(data, cs, c) && |x| <= cs
    ensures var r := Put(data, ClusterOffset(cs, c), x); Inside(r, cs, c) && Cluster(r, cs, c)[..|x|] == x
  {
    hide ClusterOffset;
  }

  ghost predicate AllInside(data: seq<byte>, cs: nat, s: seq<nat>) {
    forall k :: 0 <= k < |s| ==> Inside(data, cs, s[k])
  }

  /** The clusters of a chain, end to end. */
  ghost function ChainBytes(data: seq<byte>, cs: nat, s: seq<nat>): (r: seq<byte>)
    requires AllInside(data, cs, s)
    ensures |r| == Span(|s|, cs)
  {
    if s == [] then [] else
      assert AllInside(data, cs, s[1..]);
      MulDistribute(1, |s| - 1, cs);
      Cluster(data, cs, s[0]) + ChainBytes(data, cs, s[1..])
  }

  lemma {:induction false} ChainBytesFrame(data: seq<byte>, data': seq<byte>, cs: nat, s: seq<nat>)
    requires AllInside(data, cs, s) && |data'| == |data|
    requires forall k :: 0 <= k < |s| ==> Inside(data', cs, s[k]) && Cluster(data', cs, s[k]) == Cluster(data, cs, s[k])
    ensures AllInside(data', cs, s) && ChainBytes(data', cs, s) == ChainBytes(data, cs, s)
  {
    if s != [] {
      assert AllInside(data, cs, s[1..]);
      ChainBytesFrame(data, data', cs, s[1..]);
    }
  }

  /** fat12_write_chain_data: whole clusters first, the last one partly. */
  ghost function Stored(data: seq<byte>, cs: nat, s: seq<nat>, bytes: seq<byte>): (r: seq<byte>)
    requires AllInside(data, cs, s)
    ensures |r| == |data|
    decreases |s|
  {
    if s == [] || bytes == [] then data
    else
      var n := Min(cs, |bytes|);
      var data' := Put(data, ClusterOffset(cs, s[0]), bytes[..n]);
      assert AllInside(data', cs, s[1..]);
      Stored(data', cs, s[1..], bytes[n..])
  }

  /** Clusters outside the chain keep their bytes. */
  lemma {:induction false} StoredElsewhere(data: seq<byte>, cs: nat, s: seq<nat>, bytes: seq<byte>, d: nat)
    requires AllInside(data, cs, s) && Inside(data, cs, d) && d !in s
    ensures Inside(Stored(data, cs, s, bytes), cs, d)
    ensures Cluster(Stored(data, cs, s, bytes), cs, d) == Cluster(data, cs, d)
    decreases |s|
  {
    if s != [] && bytes != [] {
      var n := Min(cs, |bytes|);
      PutOtherCluster(data, cs, s[0], bytes[..n], d);
      var data' := Put(data, ClusterOffset(cs, s[0]), bytes[..n]);
      assert AllInside(data', cs, s[1..]);
      StoredElsewhere(data', cs, s[1..], bytes[n..], d);
    }
  }

  /** What was stored along a chain of distinct clusters is read back along it. */
  lemma {:induction false} StoredReadsBack(data: seq<byte>, cs: nat, s: seq<nat>, bytes: seq<byte>)
    requires AllInside(data, cs, s) && |bytes| <= Span(|s|, cs)
    requires forall j, k :: 0 <= j < k < |s| ==> s[j] != s[k]
    ensures AllInside(Stored(data, cs, s, bytes), cs, s)
    ensures |bytes| <= |ChainBytes(Stored(data, cs, s, bytes), cs, s)|
    ensures ChainBytes(Stored(data, cs, s, bytes), cs, s)[..|bytes|] == bytes
    decreases |s|
  {
    var r := Stored(data, cs, s, bytes);
    assert AllInside(r, cs, s);
    if s != [] && bytes != [] {
      var n := Min(cs, |bytes|);
      var front, rest := bytes[..n], bytes[n..];
      var data' := Put(data, ClusterOffset(cs, s[0]), front);
      assert AllInside(data', cs, s[1..]);
      MulDistribute(1, |s| - 1, cs);
      PutOwnCluster(data, cs, s[0], front);
      StoredElsewhere(data', cs, s[1..], rest, s[0]);
      if rest != [] {
        StoredReadsBack(data', cs, s[1..], rest);
        assert AllInside(r, cs, s[1..]);
        JoinPrefix(Cluster(r, cs, s[0]), ChainBytes(r, cs, s[1..]), front, rest);
      } else {
        assert AllInside(r, cs, s[1..]);
        PrefixOfJoin(Cluster(r, cs, s[0]), ChainBytes(r, cs, s[1..]), front);
      }
      assert front + rest == bytes;
    }
  }

  lemma JoinPrefix(a: seq<byte>, b: seq<byte>, x: seq<byte>, y: seq<byte>)
    requires |a| == |x| && a[..|x|] == x && |y| <= |b| && b[..|y|] == y
    ensures (a + b)[..|x| + |y|] == x + y
  {
    assert a == x;
  }

  lemma PrefixOfJoin(a: seq<byte>, b: seq<byte>, x: seq<byte>)
    requires |x| <= |a| && a[..|x|] == x
    ensures (a + b)[..|x|] == x
  {
  }

  /** The k-th cluster of a chain is the k-th stretch of its bytes. */
  lemma {:induction false} ChainBytesAt(data: seq<byte>, cs: nat, s: seq<nat>, k: nat)
    requires AllInside(data, cs, s) && k < |s|
    ensures 0 <= Span(k, cs) && Span(k, cs) + cs <= |ChainBytes(data, cs, s)|
    ensures ChainBytes(data, cs, s)[Span(k, cs)..Span(k, cs) + cs] == Cluster(data, cs, s[k])
  {
    assert AllInside(data, cs, s[1..]);
    MulDistribute(1, |s| - 1, cs);
    if k > 0 {
      ChainBytesAt(data, cs, s[1..], k - 1);
      MulDistribute(k - 1, 1, cs);
      SkipFirst(Cluster(data, cs, s[0]), ChainBytes(data, cs, s[1..]), Span(k - 1, cs), cs);
    } else {
      assert Span(0, cs) == 0;
    }
  }

  lemma SkipFirst(a: seq<byte>, b: seq<byte>, o: nat, n: nat)
    requires o + n <= |b|
    ensures (a + b)[|a| + o..|a| + o + n] == b[o..o + n]
  {
  }

  // ----- volumes whose directory and table agree

  /** The first cluster each entry owns; 0 for an unused entry. */
  ghost function Starts(dir: seq<byte>): (r: seq<nat>)
    ensures |r| == |dir| / 32
    ensures forall i :: 0 <= i < |r| ==> Slot(dir, i) && r[i] == if InUse(dir, i) then StartAt(dir, i) else 0
  {
    seq(|dir| / 32, i requires 0 <= i < |dir| / 32 => if InUse(dir, i) then StartAt(dir, i) else 0)
  }

  /** `chains[i]` is the chain of entry i: chains are disjoint, in range, and long
      enough for the sizes the directory records. */
  ghost predicate Sound(p: Parts, chains: seq<seq<nat>>) {
    p.Ok() && EndClosed(p.dir) && Owned(p.Table(), Starts(p.dir), chains) &&
    forall i :: Slot(p.dir, i) && InUse(p.dir, i) ==> SizeAt(p.dir, i) <= Span(|chains[i]|, p.Geo().ClusterSize())
  }

  lemma ClustersInside(data: seq<byte>, cs: nat, total: nat, t: Table, s: seq<nat>)
    requires |data| == Span(total, cs) && |t| == total + 2 && Clusters(t, s)
    ensures AllInside(data, cs, s)
  {
    hide Inside;
    forall k | 0 <= k < |s| ensures Inside(data, cs, s[k]) {
      ClusterInside(data, cs, total, s[k]);
    }
  }

  lemma OwnedClusters(t: Table, starts: seq<nat>, chains: seq<seq<nat>>, i: nat)
    requires Owned(t, starts, chains) && i < |chains|
    ensures Clusters(t, chains[i])
  {
  }

  lemma ChainInside(p: Parts, chains: seq<seq<nat>>, i: nat)
    requires p.Ok() && i < |chains|
    requires Owned(p.Table(), Starts(p.dir), chains)
    ensures AllInside(p.data, p.Geo().ClusterSize(), chains[i])
  {
    OwnedClusters(p.Table(), Starts(p.dir), chains, i);
    hide AllInside, Clusters, Owned, Starts, Geometry.ClusterSize, Geometry.FatSectors, Geometry.RootSectors;
    ClustersInside(p.data, p.Geo().ClusterSize(), p.Geo().TotalClusters(), p.Table(), chains[i]);
  }

  /** The bytes of the file in entry i. */
  ghost function Contents(p: Parts, chains: seq<seq<nat>>, i: nat): seq<byte>
    requires Sound(p, chains) && Slot(p.dir, i) && InUse(p.dir, i)
  {
    ChainInside(p, chains, i);
    ChainBytes(p.data, p.Geo().ClusterSize(), chains[i])[..SizeAt(p.dir, i)]
  }

  /** All bytes of the clusters of entry i, whatever size the directory records. */
  ghost function WholeChain(p: Parts, chains: seq<seq<nat>>, i: nat): seq<byte>
    requires Sound(p, chains) && i < |chains|
  {
    ChainInside(p, chains, i);
    ChainBytes(p.data, p.Geo().ClusterSize(), chains[i])
  }

  /** No two entries in use share a name. */
  ghost predicate NamesDistinct(dir: seq<byte>) {
    forall i, j :: 0 <= i < j && Slot(dir, j) && InUse(dir, i) && InUse(dir, j) ==> NameAt(dir, i) != NameAt(dir, j)
  }

  /** What the volume holds under an 8.3 name. */
  ghost function Lookup(p: Parts, chains: seq<seq<nat>>, name: seq<byte>): Option<seq<byte>>
    requires Sound(p, chains)
  {
    FindIsFirstMatch(p.dir, name, 0);
    var i := Find(p.dir, name, 0);
    if i == -1 then None else Some(Contents(p, chains, i))
  }
}
