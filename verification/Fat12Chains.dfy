/** Cluster chains over the table's entries as numbers: which clusters a chain
    visits, what allocating and freeing one does to the table. */
module Fat12Chains {
  type Table = seq<nat>

  /** Entries from here up end a chain; fat12_alloc_chain writes 0xFFF. */
  const END_MIN: nat := 0xFF8
  const END_OF_CHAIN: nat := 0xFFF

  /** The loops go on while the cluster number is one of these. */
  predicate IsLink(v: nat) {
    2 <= v < END_MIN
  }

  /** Cluster numbers 0 and 1 do not exist, and the rest must not look like an end mark. */
  ghost predicate Usable(t: Table) {
    2 <= |t| <= END_MIN
  }

  ghost predicate Clusters(t: Table, s: seq<nat>) {
    (forall k :: 0 <= k < |s| ==> 2 <= s[k] < |t|) &&
    (forall j, k :: 0 <= j < k < |s| ==> s[j] != s[k])
  }

  /** `s` is what the loops visit from s[0]: each entry names the next cluster,
      the last one stops the loop. */
  ghost predicate Path(t: Table, s: seq<nat>) {
    |s| > 0 && Clusters(t, s) &&
    (forall k :: 0 <= k < |s| - 1 ==> t[s[k]] == s[k + 1]) &&
    !IsLink(t[s[|s| - 1]])
  }

  /** The chain of a directory entry: none when it starts at cluster 0. */
  ghost predicate ChainOf(t: Table, start: nat, s: seq<nat>) {
    if start == 0 then s == [] else Path(t, s) && s[0] == start && t[s[|s| - 1]] >= END_MIN
  }

  /** The table with every cluster of `s` free. */
  ghost function Freed(t: Table, s: seq<nat>): (r: Table)
    ensures |r| == |t|
    ensures forall c :: 0 <= c < |t| ==> r[c] == if c in s then 0 else t[c]
  {
    seq(|t|, c requires 0 <= c < |t| => if c in s then 0 else t[c])
  }

  lemma FreedStep(t: Table, s: seq<nat>, k: nat)
    requires Clusters(t, s) && k < |s|
    ensures Freed(t, s[..k])[s[k]] == t[s[k]]
    ensures Freed(t, s[..k])[s[k] := 0] == Freed(t, s[..k + 1])
  {
    assert s[..k + 1] == s[..k] + [s[k]];
  }

  /** The first `n` free clusters at or after `from`, in increasing order. */
  ghost function FirstFree(t: Table, from: nat, n: nat): (s: seq<nat>)
    ensures |s| <= n
    ensures forall k :: 0 <= k < |s| ==> from <= s[k] < |t| && t[s[k]] == 0
    ensures forall j, k :: 0 <= j < k < |s| ==> s[j] < s[k]
    decreases |t| - from
  {
    if n == 0 || from >= |t| then []
    else if t[from] == 0 then [from] + FirstFree(t, from + 1, n - 1)
    else FirstFree(t, from + 1, n)
  }

  /** The two ends of the chain under construction; 0 before there is one. */
  ghost predicate Ends(s: seq<nat>, first: nat, last: nat) {
    if s == [] then first == 0 && last == 0 else first == s[0] && last == s[|s| - 1]
  }

  lemma EndsNone()
    ensures Ends([], 0, 0)
  {
  }

  lemma EndsNext(s: seq<nat>, first: nat, last: nat, c: nat)
    requires Ends(s, first, last)
    ensures Ends(s + [c], if s == [] then c else first, c)
    ensures s != [] ==> last == s[|s| - 1]
  {
  }

  ghost function FreeCount(t: Table, from: nat): nat
    decreases |t| - from
  {
    if from >= |t| then 0 else (if t[from] == 0 then 1 else 0) + FreeCount(t, from + 1)
  }

  /** Allocation can only fail for want of free clusters. */
  lemma {:induction false} FirstFreeCount(t: Table, from: nat, n: nat)
    ensures |FirstFree(t, from, n)| == if n <= FreeCount(t, from) then n else FreeCount(t, from)
    decreases |t| - from
  {
    if from < |t| {
      FirstFreeCount(t, from + 1, n);
      if n > 0 { FirstFreeCount(t, from + 1, n - 1); }
    }
  }

  /** The table while a chain is being built: linked, the last entry still zero. */
  ghost function Link(t: Table, s: seq<nat>): (r: Table)
    requires Clusters(t, s)
    ensures |r| == |t|
  {
    if |s| <= 1 then t
    else Link(t, s[..|s| - 1])[s[|s| - 2] := s[|s| - 1]]
  }

  lemma {:induction false} LinkEntries(t: Table, s: seq<nat>)
    requires Clusters(t, s)
    ensures forall k :: 0 <= k < |s| - 1 ==> Link(t, s)[s[k]] == s[k + 1]
    ensures forall c :: 0 <= c < |t| && (c !in s || c == s[|s| - 1]) ==> Link(t, s)[c] == t[c]
  {
    if |s| > 1 {
      var h := s[..|s| - 1];
      LinkEntries(t, h);
      assert h[|h| - 1] == s[|s| - 2];
      forall c | 0 <= c < |t| && (c !in s || c == s[|s| - 1])
        ensures Link(t, s)[c] == t[c]
      {
        assert c !in h;
      }
    }
  }

  lemma LinkMore(t: Table, s: seq<nat>, c: nat)
    requires |s| > 0 && Clusters(t, s + [c])
    ensures Clusters(t, s)
    ensures Link(t, s + [c]) == Link(t, s)[s[|s| - 1] := c]
  {
    assert (s + [c])[..|s|] == s;
    forall k | 0 <= k < |s| ensures 2 <= s[k] < |t| { assert (s + [c])[k] == s[k]; }
    forall j, k | 0 <= j < k < |s| ensures s[j] != s[k] { assert (s + [c])[j] == s[j] && (s + [c])[k] == s[k]; }
  }

  /** Distinct free clusters below `c`. */
  ghost predicate FreeBelow(t: Table, s: seq<nat>, c: nat) {
    Clusters(t, s) && forall k :: 0 <= k < |s| ==> s[k] < c && t[s[k]] == 0
  }

  /** The scan has reached `c`, and `s` is what it has found so far. */
  ghost predicate Scanned(t: Table, s: seq<nat>, c: nat, n: nat) {
    |s| <= n && FreeBelow(t, s, c) && FirstFree(t, 2, n) == s + FirstFree(t, c, n - |s|)
  }

  lemma ScanStart(t: Table, n: nat)
    ensures Scanned(t, [], 2, n) && Clusters(t, []) && Link(t, []) == t
  {
    assert [] + FirstFree(t, 2, n) == FirstFree(t, 2, n);
  }

  lemma FoundStep(t: Table, s: seq<nat>, c: nat, n: nat)
    requires |s| < n && c < |t|
    ensures var all := s + FirstFree(t, c, n - |s|);
            if t[c] == 0 then all == s + [c] + FirstFree(t, c + 1, n - |s| - 1)
            else all == s + FirstFree(t, c + 1, n - |s|)
  {
    assert s + ([c] + FirstFree(t, c + 1, n - |s| - 1)) == s + [c] + FirstFree(t, c + 1, n - |s| - 1);
  }

  lemma LinkNext(t: Table, s: seq<nat>, c: nat)
    requires FreeBelow(t, s, c) && 2 <= c < |t|
    ensures Clusters(t, s) && Link(t, s)[c] == t[c] && FreeBelow(t, s, c + 1)
    ensures s != [] ==> s[|s| - 1] < |t|
    ensures t[c] == 0 ==> FreeBelow(t, s + [c], c + 1) && Clusters(t, s + [c])
    ensures t[c] == 0 ==> Link(t, s + [c]) == if s == [] then t else Link(t, s)[s[|s| - 1] := c]
  {
    LinkEntries(t, s);
    FreeNext(t, s, c);
    hide Link, FreeBelow, Clusters;
    if t[c] == 0 {
      if s == [] { LinkOne(t, c); } else { LinkMore(t, s, c); }
    }
  }

  lemma LinkOne(t: Table, c: nat)
    requires Clusters(t, [] + [c])
    ensures Link(t, [] + [c]) == t
  {
  }

  lemma FreeNext(t: Table, s: seq<nat>, c: nat)
    requires FreeBelow(t, s, c) && 2 <= c < |t|
    ensures c !in s && FreeBelow(t, s, c + 1)
    ensures t[c] == 0 ==> FreeBelow(t, s + [c], c + 1)
  {
  }

  /** Going one cluster further, and linking it in when it is free. */
  lemma ScanStep(t: Table, s: seq<nat>, c: nat, n: nat)
    requires Scanned(t, s, c, n) && |s| < n && 2 <= c < |t|
    ensures Clusters(t, s) && Link(t, s)[c] == t[c]
    ensures s != [] ==> s[|s| - 1] < |t|
    ensures t[c] != 0 ==> Scanned(t, s, c + 1, n)
    ensures t[c] == 0 ==> Scanned(t, s + [c], c + 1, n) && Clusters(t, s + [c])
    ensures t[c] == 0 ==> Link(t, s + [c]) == if s == [] then t else Link(t, s)[s[|s| - 1] := c]
  {
    hide FreeBelow, FirstFree, Link, Clusters;
    LinkNext(t, s, c);
    FoundStep(t, s, c, n);
  }

  lemma ScanDone(t: Table, s: seq<nat>, c: nat, n: nat)
    requires Scanned(t, s, c, n) && c <= |t| && (|s| == n || c == |t|)
    ensures FirstFree(t, 2, n) == s && FreeBelow(t, s, |t|)
  {
  }

  /** The table after a successful allocation of the clusters `s`. */
  ghost function Allocated(t: Table, s: seq<nat>): (r: Table)
    requires |s| > 0 && Clusters(t, s)
    ensures |r| == |t|
  {
    Link(t, s)[s[|s| - 1] := END_OF_CHAIN]
  }

  /** A new chain runs through exactly the chosen clusters, nothing else changes,
      and freeing it gives the table back. */
  lemma AllocatedChain(t: Table, s: seq<nat>)
    requires Usable(t) && |s| > 0 && FreeBelow(t, s, |t|)
    ensures ChainOf(Allocated(t, s), s[0], s) && Allocated(t, s)[s[|s| - 1]] == 0xFFF
    ensures forall c :: 0 <= c < |t| && c !in s ==> Allocated(t, s)[c] == t[c]
    ensures Freed(Allocated(t, s), s) == t
  {
    LinkEntries(t, s);
  }

  /** A failed allocation: the partial chain is a path, and freeing it gives the
      table back. */
  lemma PartialChain(t: Table, s: seq<nat>)
    requires Usable(t) && |s| > 0 && FreeBelow(t, s, |t|)
    ensures Path(Link(t, s), s) && Freed(Link(t, s), s) == t
  {
    LinkEntries(t, s);
  }

  lemma ChainFrame(t: Table, t': Table, start: nat, s: seq<nat>)
    requires ChainOf(t, start, s) && |t'| == |t|
    requires forall k :: 0 <= k < |s| ==> t'[s[k]] == t[s[k]]
    ensures ChainOf(t', start, s)
  {
  }

  // ----- who owns which cluster

  ghost predicate Disjoint(chains: seq<seq<nat>>) {
    forall i, j, c :: 0 <= i < j < |chains| && c in chains[i] ==> c !in chains[j]
  }

  /** Entry i of `starts` owns chains[i], and no cluster has two owners. */
  ghost predicate Owned(t: Table, starts: seq<nat>, chains: seq<seq<nat>>) {
    Usable(t) && |chains| == |starts| && Disjoint(chains) &&
    forall i :: 0 <= i < |starts| ==> ChainOf(t, starts[i], chains[i])
  }

  ghost predicate NoneLost(t: Table, chains: seq<seq<nat>>) {
    forall c :: 2 <= c < |t| && t[c] != 0 ==> exists i :: 0 <= i < |chains| && c in chains[i]
  }

  /** Freeing one entry's chain leaves every other chain as it was. */
  lemma FreeOwned(t: Table, starts: seq<nat>, chains: seq<seq<nat>>, i: nat)
    requires Owned(t, starts, chains) && i < |starts|
    ensures Owned(Freed(t, chains[i]), starts[i := 0], chains[i := []])
    ensures NoneLost(t, chains) ==> NoneLost(Freed(t, chains[i]), chains[i := []])
  {
    var t', starts', chains' := Freed(t, chains[i]), starts[i := 0], chains[i := []];
    forall j | 0 <= j < |starts|
      ensures ChainOf(t', starts'[j], chains'[j])
    {
      if j != i {
        assert forall k :: 0 <= k < |chains[j]| ==> chains[j][k] in chains[j];
        ChainFrame(t, t', starts[j], chains[j]);
      }
    }
    if NoneLost(t, chains) {
      forall c | 2 <= c < |t'| && t'[c] != 0
        ensures exists j :: 0 <= j < |chains'| && c in chains'[j]
      {
        var j :| 0 <= j < |chains| && c in chains[j];
        assert j != i && c in chains'[j];
      }
    }
  }

  /** Giving freshly allocated clusters to an entry without a chain. */
  lemma AllocateOwned(t: Table, starts: seq<nat>, chains: seq<seq<nat>>, i: nat, s: seq<nat>)
    requires Owned(t, starts, chains) && i < |starts| && starts[i] == 0
    requires |s| > 0 && FreeBelow(t, s, |t|)
    ensures Owned(Allocated(t, s), starts[i := s[0]], chains[i := s])
    ensures NoneLost(t, chains) ==> NoneLost(Allocated(t, s), chains[i := s])
  {
    AllocatedChain(t, s);
    var t', starts', chains' := Allocated(t, s), starts[i := s[0]], chains[i := s];
    forall j, c | 0 <= j < |chains| && c in chains[j]
      ensures c !in s
    {
      OwnedEntryNonzero(t, starts, chains, j, c);
    }
    forall j | 0 <= j < |starts|
      ensures ChainOf(t', starts'[j], chains'[j])
    {
      if j != i {
        assert forall k :: 0 <= k < |chains[j]| ==> chains[j][k] in chains[j];
        ChainFrame(t, t', starts[j], chains[j]);
      }
    }
    if NoneLost(t, chains) {
      forall c | 2 <= c < |t'| && t'[c] != 0
        ensures exists j :: 0 <= j < |chains'| && c in chains'[j]
      {
        if c in s {
          assert c in chains'[i];
        } else {
          var j :| 0 <= j < |chains| && c in chains[j];
          assert j != i && c in chains'[j];
        }
      }
    }
  }

  /** Clusters allocated for nobody: the owners keep theirs, but these are lost. */
  lemma AllocateUnowned(t: Table, starts: seq<nat>, chains: seq<seq<nat>>, s: seq<nat>)
    requires Owned(t, starts, chains) && |s| > 0 && FreeBelow(t, s, |t|)
    ensures Owned(Allocated(t, s), starts, chains) && !NoneLost(Allocated(t, s), chains)
  {
    AllocatedChain(t, s);
    LinkEntries(t, s);
    forall j, c | 0 <= j < |chains| && c in chains[j]
      ensures c !in s
    {
      OwnedEntryNonzero(t, starts, chains, j, c);
    }
    forall j | 0 <= j < |starts|
      ensures ChainOf(Allocated(t, s), starts[j], chains[j])
    {
      assert forall k :: 0 <= k < |chains[j]| ==> chains[j][k] in chains[j];
      ChainFrame(t, Allocated(t, s), starts[j], chains[j]);
    }
    var last := s[|s| - 1];
    assert Allocated(t, s)[last] != 0 && last in s;
  }

  lemma OwnedEntryNonzero(t: Table, starts: seq<nat>, chains: seq<seq<nat>>, j: nat, c: nat)
    requires Owned(t, starts, chains) && j < |chains| && c in chains[j]
    ensures 2 <= c < |t| && t[c] != 0
  {
    var s := chains[j];
    assert ChainOf(t, starts[j], s);
    var k :| 0 <= k < |s| && s[k] == c;
    if k < |s| - 1 { assert t[s[k]] == s[k + 1]; }
  }
}
