/** The FAT12 driver of src/fs/fat12.c on its RAM copy of the volume. */
module Fat12 {
  import opened Bytes
  import opened Arith
  import opened Memory
  import opened Fat12Table
  import opened Fat12Chains
  import opened Fat12Layout

  lemma UpdateMiddle(a: seq<byte>, m: seq<byte>, z: seq<byte>, i: nat, b: byte)
    requires i < |m|
    ensures (a + m + z)[|a| + i] == m[i]
    ensures (a + m + z)[|a| + i := b] == a + m[i := b] + z
  {
  }

  /** Where each part starts, and that a store there changes that part alone. */
  lemma FatStore(p: Parts, i: nat, b: byte)
    requires p.Ok() && i < |p.fat|
    ensures var q := p.(fat := p.fat[i := b]);
            q.Ok() && q.Geo() == p.Geo() && p.Geo().FatOffset() + i < VOLUME_SIZE &&
            p.Join()[p.Geo().FatOffset() + i] == p.fat[i] &&
            q.Join() == p.Join()[p.Geo().FatOffset() + i := b]
  {
    hide Geometry.Fits, Geometry.TotalClusters, Geometry.FatSectors, Geometry.ClusterSize;
    var z := p.spare + p.dir + p.data + p.tail;
    UpdateMiddle(p.head, p.fat, z, i, b);
    assert p.Join() == p.head + p.fat + z;
    assert p.(fat := p.fat[i := b]).Join() == p.head + p.fat[i := b] + z;
  }

  lemma DirStore(p: Parts, i: nat, b: byte)
    requires p.Ok() && i < |p.dir|
    ensures var q := p.(dir := p.dir[i := b]);
            q.Ok() && q.Geo() == p.Geo() && p.Geo().RootOffset() + i < VOLUME_SIZE &&
            p.Join()[p.Geo().RootOffset() + i] == p.dir[i] &&
            q.Join() == p.Join()[p.Geo().RootOffset() + i := b]
  {
    hide Geometry.Fits, Geometry.TotalClusters, Geometry.FatSectors, Geometry.ClusterSize;
    var a, z := p.head + p.fat + p.spare, p.data + p.tail;
    UpdateMiddle(a, p.dir, z, i, b);
    assert p.Join() == a + p.dir + z;
    assert p.(dir := p.dir[i := b]).Join() == a + p.dir[i := b] + z;
  }

  lemma RootBytes(n: nat)
    requires n % 16 == 0
    ensures 32 * n == SECTOR * (n * 32 / SECTOR)
  {
    assert n == 16 * (n / 16);
  }

  lemma DataStore(p: Parts, i: nat, b: byte)
    requires p.Ok() && i < |p.data|
    ensures var q := p.(data := p.data[i := b]);
            q.Ok() && q.Geo() == p.Geo() && p.Geo().DataOffset() + i < VOLUME_SIZE &&
            p.Join()[p.Geo().DataOffset() + i] == p.data[i] &&
            q.Join() == p.Join()[p.Geo().DataOffset() + i := b]
  {
    RootBytes(p.Geo().rootEntries);
    hide Geometry.Fits, Geometry.TotalClusters, Geometry.FatSectors, Geometry.ClusterSize, Geometry.RootSectors;
    var a := p.head + p.fat + p.spare + p.dir;
    UpdateMiddle(a, p.data, p.tail, i, b);
    assert p.Join() == a + p.data + p.tail;
    assert p.(data := p.data[i := b]).Join() == a + p.data[i := b] + p.tail;
  }

  /** `q` differs from `p` at most in table entries that exist. */
  ghost predicate OnlyEntries(p: Parts, q: Parts) {
    p.Ok() && q.Ok() && q == p.(fat := q.fat) && SameTail(q.fat, p.fat, |p.Table()|)
  }

  lemma OnlyEntriesTwice(p: Parts, q: Parts, r: Parts)
    requires OnlyEntries(p, q) && OnlyEntries(q, r)
    ensures OnlyEntries(p, r)
  {
  }

  lemma OnlyEntriesSelf(p: Parts)
    requires p.Ok()
    ensures OnlyEntries(p, p)
  {
  }

  /** With every entry back, so is every byte. */
  lemma EntriesDetermine(p: Parts, q: Parts)
    requires OnlyEntries(p, q) && q.Table() == p.Table()
    ensures q == p
  {
    TableDetermines(q.fat, p.fat, |p.Table()|);
  }

  lemma EntryFits(p: Parts, c: nat)
    requires p.Ok() && c < |p.Table()|
    ensures EntryOffset(c) + 1 < |p.fat| && p.Table()[c] == Entry(p.fat, c)
  {
  }

  lemma EntryStored(p: Parts, c: nat, v: nat)
    requires p.Ok() && c < |p.Table()| && v < 0x1000
    ensures EntryOffset(c) + 1 < |p.fat|
    ensures var q := p.(fat := SetEntry(p.fat, c, v));
            q.Ok() ==> OnlyEntries(p, q) && q.Table() == p.Table()[c := v]
  {
    hide SetEntry;
    TableAfterSet(p.fat, |p.Table()|, c, v);
  }

  lemma HeadGeometry(p: Parts)
    requires p.Ok()
    ensures ReadGeometry(p.Join()) == p.Geo()
  {
    assert p.Join()[..|p.head|] == p.head;
    assert forall k :: 0 <= k < 24 ==> p.Join()[k] == p.head[k];
  }

  class Volume {
    const image: array<byte>
    var ready: bool
    var locked: bool
    ghost var parts: Parts            // the image, divided
    ghost var chains: seq<seq<nat>>   // the clusters each directory entry owns

    /** fat12_init: the volume is read sector by sector and accepted when its
        sectors are 512 bytes; the driver checks no other field, so any division `p`
        of the bytes may be meant, and is in place if it fits. Writing starts locked. */
    constructor (disk: seq<byte>, readable: bool, ghost p: Parts, ghost owners: seq<seq<nat>>)
      requires |disk| == VOLUME_SIZE
      ensures locked && fresh(image) && parts == p && chains == owners
      ensures ready <==> readable && Word16(disk, 11) == SECTOR
      ensures readable ==> image[..] == disk && (Valid() <==> p.Ok() && disk == p.Join())
    {
      image := new byte[VOLUME_SIZE](_ => 0);
      ready, locked := false, true;
      parts, chains := p, owners;
      new;
      if !readable { return; }
      for lba := 0 to 4096
        invariant locked && !ready && parts == p && chains == owners
        invariant forall k :: 0 <= k < SECTOR * lba ==> image[k] == disk[k]
      {
        for i := 0 to SECTOR
          invariant locked && !ready && parts == p && chains == owners
          invariant forall k :: 0 <= k < SECTOR * lba + i ==> image[k] == disk[k]
        {
          image[SECTOR * lba + i] := disk[SECTOR * lba + i];
        }
      }
      assert image[..] == disk;
      if image[11] as int + 256 * (image[12] as int) == SECTOR {
        ready := true;
      }
    }

    /** The image is a laid-out volume; nothing is said yet about its contents. */
    ghost predicate Valid()
      reads this, image
    {
      parts.Ok() && image[..] == parts.Join()
    }

    method Geo() returns (g: Geometry)
      requires Valid()
      ensures g == parts.Geo()
    {
      HeadGeometry(parts);
      g := Geometry(image[11] as int + 256 * (image[12] as int), image[13],
                    image[14] as int + 256 * (image[15] as int), image[16],
                    image[17] as int + 256 * (image[18] as int),
                    image[19] as int + 256 * (image[20] as int),
                    image[22] as int + 256 * (image[23] as int));
    }

    method PutFat(g: Geometry, i: nat, b: byte)
      requires Valid() && g == parts.Geo() && i < |parts.fat|
      modifies image, `parts
      ensures Valid() && parts.Geo() == g
      ensures parts == old(parts).(fat := old(parts.fat)[i := b])
    {
      FatStore(parts, i, b);
      image[g.FatOffset() + i] := b;
      parts := parts.(fat := parts.fat[i := b]);
    }

    method PutDir(g: Geometry, i: nat, b: byte)
      requires Valid() && g == parts.Geo() && i < |parts.dir|
      modifies image, `parts
      ensures Valid() && parts.Geo() == g
      ensures parts == old(parts).(dir := old(parts.dir)[i := b])
    {
      DirStore(parts, i, b);
      image[g.RootOffset() + i] := b;
      parts := parts.(dir := parts.dir[i := b]);
    }

    method PutData(g: Geometry, i: nat, b: byte)
      requires Valid() && g == parts.Geo() && i < |parts.data|
      modifies image, `parts
      ensures Valid() && parts.Geo() == g
      ensures parts == old(parts).(data := old(parts.data)[i := b])
    {
      DataStore(parts, i, b);
      image[g.DataOffset() + i] := b;
      parts := parts.(data := parts.data[i := b]);
    }

    method FatByte(g: Geometry, i: nat) returns (b: byte)
      requires Valid() && g == parts.Geo() && i < |parts.fat|
      ensures b == parts.fat[i]
    {
      FatStore(parts, i, 0);
      b := image[g.FatOffset() + i];
    }

    method DirByte(g: Geometry, i: nat) returns (b: byte)
      requires Valid() && g == parts.Geo() && i < |parts.dir|
      ensures b == parts.dir[i]
    {
      DirStore(parts, i, 0);
      b := image[g.RootOffset() + i];
    }

    method DataByte(g: Geometry, i: nat) returns (b: byte)
      requires Valid() && g == parts.Geo() && i < |parts.data|
      ensures b == parts.data[i]
    {
      DataStore(parts, i, 0);
      b := image[g.DataOffset() + i];
    }

    // ----- the allocation table

    method GetEntry(g: Geometry, c: nat) returns (v: nat)
      requires Valid() && g == parts.Geo() && EntryOffset(c) + 1 < |parts.fat|
      ensures v == Entry(parts.fat, c)
    {
      var o := c + c / 2;
      var lo := FatByte(g, o);
      var hi := FatByte(g, o + 1);
      var value := lo as int + 256 * (hi as int);
      if c % 2 == 1 {
        v := value / 16;
      } else {
        v := value % 0x1000;
      }
    }

    method PutEntry(g: Geometry, c: nat, v: nat)
      requires Valid() && g == parts.Geo() && EntryOffset(c) + 1 < |parts.fat|
      modifies image, `parts
      ensures Valid() && parts.Geo() == g
      ensures parts == old(parts).(fat := SetEntry(old(parts.fat), c, v))
    {
      hide Parts.Ok, Parts.Geo;
      var o := c + c / 2;
      var lo := FatByte(g, o);
      var hi := FatByte(g, o + 1);
      if c % 2 == 1 {
        PutFat(g, o, lo % 16 + v % 16 * 16);
        PutFat(g, o + 1, v / 16 % 256);
      } else {
        PutFat(g, o, v % 256);
        PutFat(g, o + 1, hi / 16 * 16 + v / 256 % 16);
      }
    }

    method EntryOf(g: Geometry, c: nat) returns (v: nat)
      requires Valid() && g == parts.Geo() && c < |parts.Table()|
      ensures v == parts.Table()[c]
    {
      EntryFits(parts, c);
      v := GetEntry(g, c);
    }

    method SetTo(g: Geometry, c: nat, v: nat)
      requires Valid() && g == parts.Geo() && c < |parts.Table()| && v < 0x1000
      modifies image, `parts
      ensures Valid() && parts.Geo() == g && OnlyEntries(old(parts), parts)
      ensures parts.Table() == old(parts.Table())[c := v]
    {
      EntryStored(parts, c, v);
      PutEntry(g, c, v);
    }

    /** fat12_free_chain. */
    method FreeChain(g: Geometry, start: nat, ghost s: seq<nat>)
      requires Valid() && g == parts.Geo() && Usable(parts.Table())
      requires Path(parts.Table(), s) && s[0] == start
      modifies image, `parts
      ensures Valid() && parts.Geo() == g && OnlyEntries(old(parts), parts)
      ensures parts.Table() == Freed(old(parts.Table()), s)
    {
      hide Geometry.Fits, Geometry.TotalClusters, Geometry.FatSectors, Geometry.ClusterSize, Parts.Join;
      ghost var t := parts.Table();
      ghost var k := 0;
      var cluster := start;
      assert s[..0] == [];
      while 2 <= cluster < 0xFF8
        invariant Valid() && parts.Geo() == g && OnlyEntries(old(parts), parts)
        invariant 0 <= k <= |s| && parts.Table() == Freed(t, s[..k])
        invariant if k < |s| then cluster == s[k] else !IsLink(cluster)
        decreases |s| - k
      {
        FreedStep(t, s, k);
        var next := EntryOf(g, cluster);
        SetTo(g, cluster, 0);
        k := k + 1;
        cluster := next;
      }
      assert s[..k] == s;
    }

    method TotalClusters(g: Geometry) returns (total: nat)
      requires Valid() && g == parts.Geo()
      ensures total + 2 == |parts.Table()|
    {
      total := g.TotalClusters();
    }

    /** The scan of fat12_alloc_chain: links free clusters in order until `n` are
        found or none is left. */
    method LinkFree(g: Geometry, n: nat) returns (first: nat, prev: nat, ghost s: seq<nat>, taken: nat)
      requires Valid() && g == parts.Geo() && Usable(parts.Table())
      modifies image, `parts
      ensures Valid() && parts.Geo() == g && OnlyEntries(old(parts), parts)
      ensures s == FirstFree(old(parts.Table()), 2, n) && taken == |s|
      ensures FreeBelow(old(parts.Table()), s, |old(parts.Table())|)
      ensures parts.Table() == Link(old(parts.Table()), s)
      ensures Ends(s, first, prev)
    {
      hide Geometry.Fits, Geometry.TotalClusters, Geometry.FatSectors, Geometry.ClusterSize, Parts.Join;
      hide FirstFree, Link, Scanned, FreeBelow, OnlyEntries, Clusters, Ends;
      ghost var t := parts.Table();
      var total := TotalClusters(g);
      OnlyEntriesSelf(parts);
      EndsNone();
      first, prev, taken, s := 0, 0, 0, [];
      var c := 2;
      ScanStart(t, n);
      while c <= total + 1 && taken < n
        invariant Valid() && parts.Geo() == g && OnlyEntries(old(parts), parts)
        invariant 2 <= c <= total + 2 && taken == |s| <= n && Scanned(t, s, c, n) && Clusters(t, s)
        invariant parts.Table() == Link(t, s)
        invariant Ends(s, first, prev) && (prev != 0 <==> s != [])
        decreases total + 2 - c
      {
        ScanStep(t, s, c, n);
        var v := EntryOf(g, c);
        if v == 0 {
          EndsNext(s, first, prev, c);
          if prev != 0 {
            ghost var was := parts;
            SetTo(g, prev, c);
            OnlyEntriesTwice(old(parts), was, parts);
          } else {
            first := c;
          }
          s := s + [c];
          prev := c;
          taken := taken + 1;
        }
        c := c + 1;
      }
      ScanDone(t, s, c, n);
    }

    /** fat12_alloc_chain: the first free clusters linked in order, or nothing. */
    method AllocChain(g: Geometry, n: nat) returns (first: nat, ghost s: seq<nat>)
      requires Valid() && g == parts.Geo() && Usable(parts.Table())
      modifies image, `parts
      ensures Valid() && parts.Geo() == g && OnlyEntries(old(parts), parts)
      ensures s == FirstFree(old(parts.Table()), 2, n)
      ensures first != 0 <==> n > 0 && |s| == n
      ensures first != 0 ==>
              FreeBelow(old(parts.Table()), s, |old(parts.Table())|) && first == s[0] &&
              parts.Table() == Allocated(old(parts.Table()), s)
      ensures first == 0 ==> parts == old(parts)
    {
      hide Geometry.Fits, Geometry.TotalClusters, Geometry.FatSectors, Geometry.ClusterSize, Parts.Join;
      hide FirstFree, Link;
      ghost var t := parts.Table();
      assert FirstFree(t, 2, 0) == [];
      if n == 0 { return 0, []; }
      var prev, taken;
      first, prev, s, taken := LinkFree(g, n);
      if taken < n {
        if first != 0 {
          PartialChain(t, s);
          FreeChain(g, first, s);
        } else {
          ScanStart(t, n);
        }
        EntriesDetermine(old(parts), parts);
        return 0, s;
      }
      SetTo(g, prev, 0xFFF);
    }
  }
}
