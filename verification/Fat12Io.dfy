/** Moving bytes in and out of chains and directory entries (src/fs/fat12.c). */
module Fat12Io {
  import opened Bytes
  import opened Arith
  import opened Memory
  import opened Fat12Chains
  import opened Fat12Layout
  import opened Fat12

  // ----- chains

  lemma PutMore(d: seq<byte>, o: nat, x: seq<byte>, b: byte)
    requires o + |x| < |d|
    ensures Put(d, o, x)[o + |x| := b] == Put(d, o, x + [b])
  {
  }

  method CopyIn(v: Volume, g: Geometry, o: nat, data: seq<byte>, from: nat, n: nat)
    requires v.Valid() && g == v.parts.Geo() && from + n <= |data| && o + n <= |v.parts.data|
    modifies v.image, v`parts
    ensures v.Valid() && v.parts.Geo() == g
    ensures v.parts == old(v.parts).(data := Put(old(v.parts.data), o, data[from..from + n]))
  {
    hide Parts.Join, Geometry.Fits, Geometry.FatSectors, Geometry.ClusterSize, Geometry.TotalClusters, Put;
    ghost var d := v.parts.data;
    PutNothing(d, o);
    assert data[from..from + 0] == [];
    for i := 0 to n
      invariant v.Valid() && v.parts.Geo() == g && |v.parts.data| == |d|
      invariant v.parts == old(v.parts).(data := Put(d, o, data[from..from + i]))
    {
      PutMore(d, o, data[from..from + i], data[from + i]);
      assert data[from..from + i + 1] == data[from..from + i] + [data[from + i]];
      v.PutData(g, o + i, data[from + i]);
    }
  }

  lemma PutNothing(d: seq<byte>, o: nat)
    requires o <= |d|
    ensures Put(d, o, []) == d
  {
  }

  /** One round of the write loop, on the data area alone. */
  lemma StoredStep(data: seq<byte>, cs: nat, s: seq<nat>, k: nat, bytes: seq<byte>, written: nat)
    requires AllInside(data, cs, s) && k < |s| && written < |bytes|
    ensures AllInside(data, cs, s[k..]) && AllInside(data, cs, s[k + 1..])
    ensures var n := Min(cs, |bytes| - written);
            var data' := Put(data, ClusterOffset(cs, s[k]), bytes[written..written + n]);
            AllInside(data', cs, s) && AllInside(data', cs, s[k + 1..]) &&
            Stored(data, cs, s[k..], bytes[written..]) == Stored(data', cs, s[k + 1..], bytes[written + n..])
  {
    var n := Min(cs, |bytes| - written);
    var data' := Put(data, ClusterOffset(cs, s[k]), bytes[written..written + n]);
    assert s[k..][0] == s[k] && s[k..][1..] == s[k + 1..];
    assert bytes[written..][..n] == bytes[written..written + n] && bytes[written..][n..] == bytes[written + n..];
    assert AllInside(data', cs, s);
  }

  lemma StoredDone(data: seq<byte>, cs: nat, s: seq<nat>, bytes: seq<byte>)
    requires AllInside(data, cs, s) && (s == [] || bytes == [])
    ensures Stored(data, cs, s, bytes) == data
  {
  }

  lemma SuffixInside(data: seq<byte>, cs: nat, s: seq<nat>, k: nat)
    requires AllInside(data, cs, s) && k <= |s|
    ensures AllInside(data, cs, s[k..])
  {
  }

  /** fat12_write_chain_data. */
  method WriteChainData(v: Volume, g: Geometry, start: nat, data: seq<byte>, ghost s: seq<nat>)
    requires v.Valid() && g == v.parts.Geo() && Usable(v.parts.Table())
    requires |s| > 0 && Path(v.parts.Table(), s) && s[0] == start
    modifies v.image, v`parts
    ensures v.Valid() && v.parts.Geo() == g
    ensures AllInside(old(v.parts.data), g.ClusterSize(), s)
    ensures v.parts == old(v.parts).(data := Stored(old(v.parts.data), g.ClusterSize(), s, data))
  {
    hide Parts.Join, Geometry.Fits, Geometry.FatSectors, Geometry.RootSectors, Geometry.TotalClusters;
    hide Put, Stored, ClusterOffset, AllInside, Clusters, Path, Geometry.ClusterSize;
    ghost var d := v.parts.data;
    PathInside(v.parts, s);
    SuffixInside(d, g.ClusterSize(), s, 0);
    var clusterSize := g.ClusterSize();
    var cluster: nat, written: nat := start, 0;
    ghost var k := 0;
    assert s[0..] == s && data[0..] == data;
    while 2 <= cluster < 0xFF8 && written < |data|
      invariant v.Valid() && v.parts.Geo() == g && v.parts == old(v.parts).(data := v.parts.data)
      invariant 0 <= k <= |s| && written <= |data| && |v.parts.data| == |d|
      invariant if k < |s| then cluster == s[k] else !IsLink(cluster)
      invariant AllInside(v.parts.data, clusterSize, s) && AllInside(v.parts.data, clusterSize, s[k..])
      invariant Stored(d, clusterSize, s, data) == Stored(v.parts.data, clusterSize, s[k..], data[written..])
      decreases |s| - k
    {
      StoredStep(v.parts.data, clusterSize, s, k, data, written);
      var chunk := clusterSize;
      if chunk > |data| - written { chunk := |data| - written; }
      ClusterFits(v.parts.data, clusterSize, s, k);
      CopyIn(v, g, ClusterOffset(clusterSize, cluster), data, written, chunk);
      written := written + chunk;
      PathNext(v.parts.Table(), s, k);
      cluster := v.EntryOf(g, cluster);
      k := k + 1;
    }
    if k < |s| { PathNext(v.parts.Table(), s, k); }
    SuffixInside(v.parts.data, clusterSize, s, k);
    StoredDone(v.parts.data, clusterSize, s[k..], data[written..]);
  }

  lemma PathClusters(t: Table, s: seq<nat>)
    requires Path(t, s)
    ensures Clusters(t, s)
  {
  }

  lemma PathInside(p: Parts, s: seq<nat>)
    requires p.Ok() && Path(p.Table(), s)
    ensures AllInside(p.data, p.Geo().ClusterSize(), s)
  {
    PathClusters(p.Table(), s);
    hide Path, Clusters, AllInside, Geometry.ClusterSize, Geometry.FatSectors, Geometry.RootSectors;
    ClustersInside(p.data, p.Geo().ClusterSize(), p.Geo().TotalClusters(), p.Table(), s);
  }

  lemma PathNext(t: Table, s: seq<nat>, k: nat)
    requires Path(t, s) && k < |s|
    ensures 2 <= s[k] < |t| && if k + 1 < |s| then t[s[k]] == s[k + 1] else !IsLink(t[s[k]])
  {
  }

  lemma ClusterFits(data: seq<byte>, cs: nat, s: seq<nat>, k: nat)
    requires AllInside(data, cs, s) && k < |s|
    ensures s[k] >= 2 && 0 <= ClusterOffset(cs, s[k]) && ClusterOffset(cs, s[k]) + cs <= |data|
  {
  }

  /** What the k-th round of the read loop appends. */
  lemma ChunkRead(d: seq<byte>, cs: nat, s: seq<nat>, k: nat, n: nat)
    requires AllInside(d, cs, s) && k < |s| && n <= cs
    ensures 0 <= Span(k, cs) && Span(k + 1, cs) == Span(k, cs) + cs <= |ChainBytes(d, cs, s)|
    ensures s[k] >= 2 && 0 <= ClusterOffset(cs, s[k]) && ClusterOffset(cs, s[k]) + cs <= |d|
    ensures ChainBytes(d, cs, s)[..Span(k, cs) + n] ==
            ChainBytes(d, cs, s)[..Span(k, cs)] + d[ClusterOffset(cs, s[k])..ClusterOffset(cs, s[k]) + n]
  {
    hide ChainBytes, AllInside, ClusterOffset;
    ChainBytesAt(d, cs, s, k);
    ClusterFits(d, cs, s, k);
    MulDistribute(k, 1, cs);
    var all, c := ChainBytes(d, cs, s), Cluster(d, cs, s[k]);
    assert c[..n] == d[ClusterOffset(cs, s[k])..ClusterOffset(cs, s[k]) + n];
    assert all[..Span(k, cs) + n] == all[..Span(k, cs)] + all[Span(k, cs)..Span(k, cs) + cs][..n];
  }

  lemma ChainCases(t: Table, start: nat, s: seq<nat>)
    requires ChainOf(t, start, s)
    ensures if s == [] then start == 0 else Path(t, s) && start == s[0]
  {
  }

  method CopyOut(v: Volume, g: Geometry, o: nat, buffer: array<byte>, at: nat, n: nat)
    requires v.Valid() && g == v.parts.Geo() && o + n <= |v.parts.data| && at + n <= buffer.Length
    requires buffer != v.image
    modifies buffer
    ensures buffer[..at + n] == old(buffer[..at]) + v.parts.data[o..o + n]
    ensures forall j :: at + n <= j < buffer.Length ==> buffer[j] == old(buffer[j])
  {
    hide Parts.Join, Geometry.Fits, Geometry.FatSectors, Geometry.ClusterSize, Geometry.TotalClusters;
    for i := 0 to n
      invariant v.Valid() && v.parts.Geo() == g
      invariant forall k :: 0 <= k < buffer.Length && !(at <= k < at + i) ==> buffer[k] == old(buffer[k])
      invariant forall k :: at <= k < at + i ==> buffer[k] == v.parts.data[o + (k - at)]
    {
      buffer[at + i] := v.DataByte(g, o + i);
    }
  }

  /** fat12_read_file on an entry with the given chain. */
  method ReadChain(v: Volume, g: Geometry, start: nat, size: nat, buffer: array<byte>, max: nat, ghost s: seq<nat>)
      returns (total: nat)
    requires v.Valid() && g == v.parts.Geo() && Usable(v.parts.Table()) && buffer != v.image && max <= buffer.Length
    requires ChainOf(v.parts.Table(), start, s) && size <= Span(|s|, g.ClusterSize())
    requires AllInside(v.parts.data, g.ClusterSize(), s)
    modifies buffer
    ensures total == Min(size, max)
    ensures buffer[..total] == ChainBytes(v.parts.data, g.ClusterSize(), s)[..total]
    ensures forall j :: total <= j < buffer.Length ==> buffer[j] == old(buffer[j])
  {
    hide Parts.Join, Geometry.Fits, Geometry.FatSectors, Geometry.RootSectors, Geometry.TotalClusters;
    hide ClusterOffset, AllInside, Clusters, Path, Geometry.ClusterSize, ChainBytes;
    var clusterSize := g.ClusterSize();
    ghost var d := v.parts.data;
    ghost var all := ChainBytes(d, clusterSize, s);
    ghost var limit := Min(size, max);
    var cluster: nat, remaining: nat := start, size;
    total := 0;
    ghost var k := 0;
    PositiveCluster(v.parts);
    ChainCases(v.parts.Table(), start, s);
    assert Span(0, clusterSize) == 0;
    hide Span;
    while 2 <= cluster < 0xFF8 && remaining > 0 && total < max
      invariant v.Valid() && v.parts.Geo() == g
      invariant 0 <= k <= |s| && remaining == size - total && total <= max
      invariant if k < |s| then cluster == s[k] else !IsLink(cluster)
      invariant total == Min(Span(k, clusterSize), limit) <= |all|
      invariant buffer[..total] == all[..total]
      invariant forall j :: total <= j < buffer.Length ==> buffer[j] == old(buffer[j])
      decreases |s| - k
    {
      var chunk := clusterSize;
      if chunk > remaining { chunk := remaining; }
      if chunk > max - total { chunk := max - total; }
      ChunkRead(d, clusterSize, s, k, chunk);
      CopyOut(v, g, ClusterOffset(clusterSize, cluster), buffer, total, chunk);
      total := total + chunk;
      remaining := remaining - chunk;
      PathNext(v.parts.Table(), s, k);
      cluster := v.EntryOf(g, cluster);
      k := k + 1;
    }
    if k < |s| { PathNext(v.parts.Table(), s, k); }
  }

  lemma PositiveCluster(p: Parts)
    requires p.Ok()
    ensures p.Geo().ClusterSize() > 0
  {
  }
}
