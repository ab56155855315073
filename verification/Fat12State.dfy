/** What changing one directory entry, with its chain, does to the whole volume:
    it stays sound, and every other name keeps its contents. */
module Fat12State {
  import opened Bytes
  import opened Arith
  import opened Memory
  import opened Wrappers
  import opened Fat12Chains
  import opened Fat12Layout

  ghost predicate NoLost(p: Parts, chains: seq<seq<nat>>)
    requires p.Ok()
  {
    NoneLost(p.Table(), chains)
  }

  /** Entry `e` can be rewritten: the directory does not end before it. */
  ghost predicate Reaches(dir: seq<byte>, e: nat) {
    Slot(dir, e) && forall j :: 0 <= j < e ==> dir[32 * j] != 0
  }

  lemma StartsChanged(dir: seq<byte>, dir': seq<byte>, e: nat)
    requires SameBut(dir, dir', e) && Slot(dir, e)
    ensures Starts(dir') == Starts(dir)[e := if InUse(dir', e) then StartAt(dir', e) else 0]
  {
    hide InUse, StartAt, SameBut;
    DirLength(dir, dir', e);
    forall i | 0 <= i < |dir| / 32 && i != e
      ensures Starts(dir')[i] == Starts(dir)[i]
    {
      assert Slot(dir, i);
      OtherEntry(dir, dir', e, i);
    }
  }

  lemma SoundShape(p: Parts, chains: seq<seq<nat>>)
    requires Sound(p, chains)
    ensures |chains| == |p.dir| / 32
  {
  }

  lemma SpanZero(cs: nat)
    ensures Span(0, cs) == 0
  {
  }

  lemma DirLength(dir: seq<byte>, dir': seq<byte>, e: nat)
    requires SameBut(dir, dir', e)
    ensures |dir'| == |dir|
  {
  }

  /** Contents depend on the entry's own chain, size and clusters only. */
  lemma ContentsFrame(p: Parts, chains: seq<seq<nat>>, q: Parts, chains': seq<seq<nat>>, i: nat)
    requires Sound(p, chains) && Sound(q, chains') && q.Geo() == p.Geo() && |q.data| == |p.data|
    requires Slot(p.dir, i) && Slot(q.dir, i) && InUse(p.dir, i) && InUse(q.dir, i)
    requires chains'[i] == chains[i] && SizeAt(q.dir, i) == SizeAt(p.dir, i)
    requires AllInside(p.data, p.Geo().ClusterSize(), chains[i]) && AllInside(q.data, p.Geo().ClusterSize(), chains[i])
    requires forall k :: 0 <= k < |chains[i]| ==>
               Cluster(q.data, p.Geo().ClusterSize(), chains[i][k]) ==
                 Cluster(p.data, p.Geo().ClusterSize(), chains[i][k])
    ensures Contents(q, chains', i) == Contents(p, chains, i)
  {
    SoundShape(p, chains);
    hide Span, Inside, Cluster, ChainBytes, Geometry.Fits, Geometry.TotalClusters, Geometry.FatSectors, Owned, Starts;
    ChainBytesFrame(p.data, q.data, p.Geo().ClusterSize(), chains[i]);
  }

  /** Entry i, a file or a directory, is kept: its 32 bytes in the directory, its
      chain, and every byte of its clusters. */
  ghost predicate EntryKept(p: Parts, chains: seq<seq<nat>>, q: Parts, chains': seq<seq<nat>>, i: nat)
    requires Sound(p, chains) && Sound(q, chains') && Slot(p.dir, i)
  {
    Slot(q.dir, i) && EntryAt(q.dir, i) == EntryAt(p.dir, i) &&
    i < |chains| && i < |chains'| && chains'[i] == chains[i] &&
    WholeChain(q, chains', i) == WholeChain(p, chains, i)
  }

  lemma EntryFields(dir: seq<byte>, dir': seq<byte>, i: nat)
    requires Slot(dir, i) && Slot(dir', i) && EntryAt(dir', i) == EntryAt(dir, i)
    ensures InUse(dir', i) == InUse(dir, i) && NameAt(dir', i) == NameAt(dir, i) && SizeAt(dir', i) == SizeAt(dir, i)
  {
    var x, y := EntryAt(dir, i), EntryAt(dir', i);
    assert forall k :: 0 <= k < 32 ==> dir[32 * i + k] == x[k] && dir'[32 * i + k] == y[k];
    assert NameAt(dir, i) == x[..11] && NameAt(dir', i) == y[..11];
  }

  /** A kept entry that its name still finds yields what it yielded. */
  lemma KeptLookup(p: Parts, chains: seq<seq<nat>>, q: Parts, chains': seq<seq<nat>>, name: seq<byte>)
    requires Sound(p, chains) && Sound(q, chains') && Find(p.dir, name, 0) != -1
    requires Find(q.dir, name, 0) == Find(p.dir, name, 0) && EntryKept(p, chains, q, chains', Find(p.dir, name, 0))
    ensures Lookup(q, chains', name) == Lookup(p, chains, name)
  {
    hide Find, EntryAt, Owned, Starts, Span, ChainBytes, AllInside, SizeAt, Geometry.Fits, Geometry.TotalClusters;
    var i := Find(p.dir, name, 0);
    EntryFields(p.dir, q.dir, i);
  }

  /** Rewriting an entry behind the one that a name finds does not change what it finds. */
  lemma FindEarlier(dir: seq<byte>, dir': seq<byte>, e: nat, name: seq<byte>)
    requires SameBut(dir, dir', e) && EndClosed(dir) && EndClosed(dir') && 0 <= Find(dir, name, 0) < e
    ensures Find(dir', name, 0) == Find(dir, name, 0)
  {
    FindIsFirstMatch(dir, name, 0);
    FindIsFirstMatch(dir', name, 0);
    forall j | Slot(dir, j) && j != e ensures Matches(dir', name, j) == Matches(dir, name, j) {
      OtherEntry(dir, dir', e, j);
    }
  }

  // ----- emptying an entry

  /** `q` is `p` with entry `e` rewritten to own nothing and its chain freed. */
  ghost predicate Empties(p: Parts, chains: seq<seq<nat>>, e: nat, q: Parts) {
    Sound(p, chains) && Reaches(p.dir, e) && q.Ok() && q.Geo() == p.Geo() && q.data == p.data &&
    SameBut(p.dir, q.dir, e) && q.dir[32 * e] != 0 &&
    (InUse(q.dir, e) ==> StartAt(q.dir, e) == 0 && SizeAt(q.dir, e) == 0) &&
    q.Table() == Freed(p.Table(), chains[e])
  }

  lemma EmptiedSound(p: Parts, chains: seq<seq<nat>>, e: nat, q: Parts)
    requires Empties(p, chains, e, q)
    ensures Sound(q, chains[e := []])
    ensures NoLost(p, chains) ==> NoLost(q, chains[e := []])
  {
    SoundShape(p, chains);
    hide Span, Geometry.Fits, Geometry.ClusterSize, Geometry.TotalClusters, Geometry.FatSectors, Owned, NoneLost, Freed;
    FreeOwned(p.Table(), Starts(p.dir), chains, e);
    StartsChanged(p.dir, q.dir, e);
    FindFrame(p.dir, q.dir, e, []);
    forall i | Slot(q.dir, i) && InUse(q.dir, i)
      ensures SizeAt(q.dir, i) <= Span(|chains[e := []][i]|, q.Geo().ClusterSize())
    {
      if i == e { SpanZero(q.Geo().ClusterSize()); } else { OtherEntry(p.dir, q.dir, e, i); }
    }
  }

  lemma EmptiedElsewhere(p: Parts, chains: seq<seq<nat>>, e: nat, q: Parts, name: seq<byte>)
    requires Empties(p, chains, e, q) && Sound(q, chains[e := []])
    requires !Matches(p.dir, name, e) && !Matches(q.dir, name, e)
    ensures Lookup(q, chains[e := []], name) == Lookup(p, chains, name)
  {
    SoundShape(p, chains);
    hide Span, Geometry.Fits, Geometry.ClusterSize, Geometry.TotalClusters, Geometry.FatSectors, Owned, Contents;
    hide AllInside, Freed;
    FindFrame(p.dir, q.dir, e, name);
    FindIsFirstMatch(p.dir, name, 0);
    FindIsFirstMatch(q.dir, name, 0);
    var i := Find(p.dir, name, 0);
    if i != -1 {
      OtherEntry(p.dir, q.dir, e, i);
      ChainInside(p, chains, i);
      ContentsFrame(p, chains, q, chains[e := []], i);
    }
  }

  lemma EmptiedEntry(p: Parts, chains: seq<seq<nat>>, e: nat, q: Parts, i: nat)
    requires Empties(p, chains, e, q) && Sound(q, chains[e := []]) && Slot(p.dir, i) && i != e
    ensures EntryKept(p, chains, q, chains[e := []], i)
  {
    SoundShape(p, chains);
    hide Span, Geometry.Fits, Geometry.ClusterSize, Geometry.TotalClusters, Geometry.FatSectors, Owned, AllInside;
    hide Freed;
    OtherEntry(p.dir, q.dir, e, i);
  }

  lemma EmptiedHere(p: Parts, chains: seq<seq<nat>>, e: nat, q: Parts, name: seq<byte>)
    requires Empties(p, chains, e, q) && Sound(q, chains[e := []])
    requires Matches(q.dir, name, e) && (Find(p.dir, name, 0) == -1 || Find(p.dir, name, 0) == e)
    ensures Find(q.dir, name, 0) == e
    ensures Lookup(q, chains[e := []], name) == Some([])
  {
    SoundShape(p, chains);
    hide Span, Geometry.Fits, Geometry.ClusterSize, Geometry.TotalClusters, Geometry.FatSectors, Owned, Freed;
    FindFrame(p.dir, q.dir, e, name);
  }

  // ----- filling an empty entry

  /** `q` is `p` with entry `e`, which owned nothing, given the free clusters `s`
      holding `bytes`, of which `n` are the file; its name is kept. */
  ghost predicate Fills(p: Parts, chains: seq<seq<nat>>, e: nat, s: seq<nat>, bytes: seq<byte>, n: nat, q: Parts) {
    Sound(p, chains) && Reaches(p.dir, e) && p.dir[32 * e] != 0 && chains[e] == [] &&
    |s| > 0 && FreeBelow(p.Table(), s, |p.Table()|) &&
    AllInside(p.data, p.Geo().ClusterSize(), s) && n <= |bytes| <= Span(|s|, p.Geo().ClusterSize()) &&
    q.Ok() && q.Geo() == p.Geo() && q.Table() == Allocated(p.Table(), s) &&
    q.data == Stored(p.data, p.Geo().ClusterSize(), s, bytes) &&
    SameBut(p.dir, q.dir, e) && NameAt(q.dir, e) == NameAt(p.dir, e) && q.dir[32 * e] == p.dir[32 * e] &&
    StartAt(q.dir, e) == s[0] && SizeAt(q.dir, e) == n
  }

  /** The owners after filling: nobody owns the clusters of a deleted entry. */
  ghost function FilledChains(p: Parts, chains: seq<seq<nat>>, e: nat, s: seq<nat>): seq<seq<nat>>
    requires Slot(p.dir, e) && e < |chains|
  {
    if InUse(p.dir, e) then chains[e := s] else chains
  }

  lemma FilledOwners(p: Parts, chains: seq<seq<nat>>, e: nat, s: seq<nat>, bytes: seq<byte>, n: nat, q: Parts)
    requires Fills(p, chains, e, s, bytes, n, q)
    ensures Owned(q.Table(), Starts(q.dir), FilledChains(p, chains, e, s))
    ensures NoLost(p, chains) ==> (NoLost(q, FilledChains(p, chains, e, s)) <==> InUse(p.dir, e))
  {
    SoundShape(p, chains);
    hide Span, Geometry.Fits, Geometry.ClusterSize, Geometry.TotalClusters, Geometry.FatSectors, SameBut, AllInside;
    hide Stored, EndClosed, FreeBelow;
    StartsChanged(p.dir, q.dir, e);
    assert ChainOf(p.Table(), Starts(p.dir)[e], chains[e]);
    hide Starts, ChainOf;
    if InUse(p.dir, e) {
      AllocateOwned(p.Table(), Starts(p.dir), chains, e, s);
    } else {
      AllocateUnowned(p.Table(), Starts(p.dir), chains, s);
      assert Starts(p.dir)[e := 0] == Starts(p.dir);
    }
  }

  lemma FilledSound(p: Parts, chains: seq<seq<nat>>, e: nat, s: seq<nat>, bytes: seq<byte>, n: nat, q: Parts)
    requires Fills(p, chains, e, s, bytes, n, q)
    ensures Sound(q, FilledChains(p, chains, e, s))
  {
    SoundShape(p, chains);
    hide Span, Geometry.Fits, Geometry.ClusterSize, Geometry.TotalClusters, Geometry.FatSectors, Stored, Allocated;
    hide Freed, Owned;
    FilledOwners(p, chains, e, s, bytes, n, q);
    FindFrame(p.dir, q.dir, e, []);
    forall i | Slot(q.dir, i) && InUse(q.dir, i)
      ensures SizeAt(q.dir, i) <= Span(|FilledChains(p, chains, e, s)[i]|, q.Geo().ClusterSize())
    {
      if i != e { OtherEntry(p.dir, q.dir, e, i); }
    }
  }

  /** An owned chain avoids every cluster that was free. */
  lemma OwnedAvoidsFree(t: Table, starts: seq<nat>, chains: seq<seq<nat>>, i: nat, s: seq<nat>)
    requires Owned(t, starts, chains) && i < |chains| && FreeBelow(t, s, |t|)
    ensures forall c :: c in chains[i] ==> c !in s
  {
    forall c | c in chains[i] ensures c !in s {
      OwnedEntryNonzero(t, starts, chains, i, c);
    }
  }

  lemma KeptClusters(data: seq<byte>, cs: nat, s: seq<nat>, bytes: seq<byte>, chain: seq<nat>)
    requires AllInside(data, cs, s) && AllInside(data, cs, chain)
    requires forall c :: c in chain ==> c !in s
    ensures AllInside(Stored(data, cs, s, bytes), cs, chain)
    ensures forall k :: 0 <= k < |chain| ==>
            Cluster(Stored(data, cs, s, bytes), cs, chain[k]) == Cluster(data, cs, chain[k])
  {
    hide Stored, Cluster, Inside;
    forall k | 0 <= k < |chain|
      ensures Inside(Stored(data, cs, s, bytes), cs, chain[k])
      ensures Cluster(Stored(data, cs, s, bytes), cs, chain[k]) == Cluster(data, cs, chain[k])
    {
      assert chain[k] in chain;
      StoredElsewhere(data, cs, s, bytes, chain[k]);
    }
  }

  lemma FilledElsewhere(p: Parts, chains: seq<seq<nat>>, e: nat, s: seq<nat>, bytes: seq<byte>, n: nat, q: Parts,
        name: seq<byte>)
    requires Fills(p, chains, e, s, bytes, n, q) && Sound(q, FilledChains(p, chains, e, s))
    requires !Matches(p.dir, name, e)
    ensures Lookup(q, FilledChains(p, chains, e, s), name) == Lookup(p, chains, name)
  {
    SoundShape(p, chains);
    hide Span, Geometry.Fits, Geometry.ClusterSize, Geometry.TotalClusters, Geometry.FatSectors, Owned, Contents;
    hide AllInside, Allocated, Stored, FreeBelow;
    FindFrame(p.dir, q.dir, e, name);
    FindIsFirstMatch(p.dir, name, 0);
    FindIsFirstMatch(q.dir, name, 0);
    var i := Find(p.dir, name, 0);
    if i != -1 {
      OtherEntry(p.dir, q.dir, e, i);
      ChainInside(p, chains, i);
      OwnedAvoidsFree(p.Table(), Starts(p.dir), chains, i, s);
      KeptClusters(p.data, p.Geo().ClusterSize(), s, bytes, chains[i]);
      ContentsFrame(p, chains, q, FilledChains(p, chains, e, s), i);
    }
  }

  lemma FilledEntry(p: Parts, chains: seq<seq<nat>>, e: nat, s: seq<nat>, bytes: seq<byte>, n: nat, q: Parts, i: nat)
    requires Fills(p, chains, e, s, bytes, n, q) && Sound(q, FilledChains(p, chains, e, s)) && Slot(p.dir, i) && i != e
    ensures EntryKept(p, chains, q, FilledChains(p, chains, e, s), i)
  {
    SoundShape(p, chains);
    hide Span, Geometry.Fits, Geometry.ClusterSize, Geometry.TotalClusters, Geometry.FatSectors, Owned, AllInside;
    hide Inside, Cluster, Allocated;
    hide Stored, FreeBelow, ChainBytes;
    OtherEntry(p.dir, q.dir, e, i);
    ChainInside(p, chains, i);
    OwnedAvoidsFree(p.Table(), Starts(p.dir), chains, i, s);
    KeptClusters(p.data, p.Geo().ClusterSize(), s, bytes, chains[i]);
    KeptChain(p.data, p.Geo().ClusterSize(), s, bytes, chains[i]);
  }

  lemma KeptChain(data: seq<byte>, cs: nat, s: seq<nat>, bytes: seq<byte>, chain: seq<nat>)
    requires AllInside(data, cs, s) && AllInside(data, cs, chain)
    requires AllInside(Stored(data, cs, s, bytes), cs, chain)
    requires forall k :: 0 <= k < |chain| ==>
             Cluster(Stored(data, cs, s, bytes), cs, chain[k]) == Cluster(data, cs, chain[k])
    ensures ChainBytes(Stored(data, cs, s, bytes), cs, chain) == ChainBytes(data, cs, chain)
  {
    hide Stored, Inside, Cluster, ChainBytes;
    ChainBytesFrame(data, Stored(data, cs, s, bytes), cs, chain);
  }

  /** The name of the filled entry now yields exactly the bytes written. */
  lemma FilledHere(p: Parts, chains: seq<seq<nat>>, e: nat, s: seq<nat>, bytes: seq<byte>, n: nat, q: Parts,
        name: seq<byte>)
    requires Fills(p, chains, e, s, bytes, n, q) && Sound(q, FilledChains(p, chains, e, s))
    requires Matches(p.dir, name, e) && Find(p.dir, name, 0) == e
    ensures Lookup(q, FilledChains(p, chains, e, s), name) == Some(bytes[..n])
  {
    SoundShape(p, chains);
    hide Span, Geometry.Fits, Geometry.ClusterSize, Geometry.TotalClusters, Geometry.FatSectors, Owned, AllInside;
    hide Allocated, Stored, ChainBytes;
    FindFrame(p.dir, q.dir, e, name);
    StoredReadsBack(p.data, p.Geo().ClusterSize(), s, bytes);
    TakeTwice(ChainBytes(q.data, p.Geo().ClusterSize(), s), bytes, n);
  }

  lemma TakeTwice(all: seq<byte>, bytes: seq<byte>, n: nat)
    requires n <= |bytes| <= |all| && all[..|bytes|] == bytes
    ensures all[..n] == bytes[..n]
  {
  }

  /** Rewriting an entry keeps names distinct when its new name, if any, was free. */
  lemma NamesStayDistinct(dir: seq<byte>, dir': seq<byte>, e: nat)
    requires NamesDistinct(dir) && SameBut(dir, dir', e) && Slot(dir, e)
    requires InUse(dir', e) ==> forall j :: 0 <= j && Slot(dir, j) && j != e ==> !Matches(dir, NameAt(dir', e), j)
    ensures NamesDistinct(dir')
  {
    hide InUse, NameAt, SameBut;
    DirLength(dir, dir', e);
    forall i, j | 0 <= i < j && Slot(dir', j) && InUse(dir', i) && InUse(dir', j)
      ensures NameAt(dir', i) != NameAt(dir', j)
    {
      assert Slot(dir, i) && Slot(dir, j);
      if i != e { OtherEntry(dir, dir', e, i); }
      if j != e { OtherEntry(dir, dir', e, j); }
    }
  }
}
