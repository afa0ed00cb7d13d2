// Cluster chains over the decoded allocation table.
//
// `limit` is the number of the first cluster that does not lie in the data
// area of the volume.
module FatChains {
  import opened Bytes
  import opened FatTable
  import Runs
  import opened Sequences

  // An allocated cluster that is not marked reserved or bad.
  predicate Live(t: seq<nat>, limit: nat, c: nat) {
    && limit <= |t|
    && 2 <= c < limit
    && t[c] != 0
    && !(0xFF0 <= t[c] < 0xFF8)
  }

  ghost predicate IsChain(t: seq<nat>, limit: nat, s: seq<nat>) {
    && |s| > 0
    && (forall i :: 0 <= i < |s| ==> Live(t, limit, s[i]))
    && (forall i {:trigger Next(t, s[i])} :: 0 <= i < |s| - 1 ==> Next(t, s[i]) == s[i + 1])
    && Next(t, s[|s| - 1]) == 0
  }

  ghost predicate Disjoint(s: seq<nat>, u: seq<nat>) {
    forall c :: c in s ==> c !in u
  }

  ghost predicate HasChain(t: seq<nat>, limit: nat, c: nat) {
    exists s :: IsChain(t, limit, s) && s[0] == c
  }

  // Links stay among live clusters, no two clusters share a successor, and
  // every live cluster starts a terminated chain.
  ghost predicate WellFormed(t: seq<nat>, limit: nat) {
    && 2 <= limit <= |t|
    && limit <= 0xFF0
    && t[0] != 0 && t[1] != 0
    && LinksLive(t, limit)
    && NoJoins(t, limit)
    && AllTerminated(t, limit)
  }

  ghost predicate LinksLive(t: seq<nat>, limit: nat) {
    forall c :: Live(t, limit, c) ==> Next(t, c) == 0 || Live(t, limit, Next(t, c))
  }

  ghost predicate NoJoins(t: seq<nat>, limit: nat) {
    forall c, d :: Live(t, limit, c) && Live(t, limit, d) && Next(t, c) == Next(t, d) != 0 ==> c == d
  }

  ghost predicate AllTerminated(t: seq<nat>, limit: nat) {
    forall c :: Live(t, limit, c) ==> HasChain(t, limit, c)
  }

  // What a chain is, entry by entry: 0xFF8 and above end it, and the rest are
  // the numbers of the clusters that follow.
  lemma {:induction false} ChainEntries(t: seq<nat>, limit: nat, s: seq<nat>)
    requires limit <= 0xFF0
    ensures IsChain(t, limit, s) <==>
      && |s| > 0 && limit <= |t| && (forall i :: 0 <= i < |s| ==> 2 <= s[i] < limit)
      && (forall i, j :: 0 <= i && j == i + 1 && j < |s| ==> t[s[i]] == s[j])
      && t[s[|s| - 1]] >= 0xFF8
  {
    if IsChain(t, limit, s) {
      assert Live(t, limit, s[0]) && Live(t, limit, s[|s| - 1]);
      forall i | 0 <= i < |s| - 1
        ensures t[s[i]] == s[i + 1]
      {
        assert Live(t, limit, s[i]) && Live(t, limit, s[i + 1]) && Next(t, s[i]) == s[i + 1];
      }
    } else if |s| > 0 && limit <= |t| && (forall i :: 0 <= i < |s| ==> 2 <= s[i] < limit)
              && (forall i, j :: 0 <= i && j == i + 1 && j < |s| ==> t[s[i]] == s[j]) && t[s[|s| - 1]] >= 0xFF8 {
      forall i | 0 <= i < |s| - 1
        ensures Live(t, limit, s[i]) && Next(t, s[i]) == s[i + 1]
      {
        assert 2 <= s[i + 1] < limit && t[s[i]] == s[i + 1];
      }
      assert false;
    }
  }

  // --- Chains of a well-formed table ---

  lemma {:induction false} ChainTail(t: seq<nat>, limit: nat, s: seq<nat>, k: nat)
    requires IsChain(t, limit, s) && k < |s|
    ensures IsChain(t, limit, s[k..]) && s[k..][0] == s[k]
  {
  }

  // A chain is determined by its first cluster.
  lemma {:induction false} ChainUnique(t: seq<nat>, limit: nat, s: seq<nat>, u: seq<nat>)
    requires IsChain(t, limit, s) && IsChain(t, limit, u) && s[0] == u[0]
    ensures s == u
  {
    SameSuccessor(t, limit, s, u);
    if |s| > 1 {
      ChainTail(t, limit, s, 1);
      ChainTail(t, limit, u, 1);
      ChainUnique(t, limit, s[1..], u[1..]);
      assert s == [s[0]] + s[1..] && u == [u[0]] + u[1..];
    }
  }

  lemma {:induction false} SameSuccessor(t: seq<nat>, limit: nat, s: seq<nat>, u: seq<nat>)
    requires IsChain(t, limit, s) && IsChain(t, limit, u) && s[0] == u[0]
    ensures |s| > 1 <==> |u| > 1
    ensures |s| > 1 ==> s[1] == u[1]
  {
    InnerHasSuccessor(t, limit, s, 0);
    InnerHasSuccessor(t, limit, u, 0);
  }

  lemma {:induction false} SamePlace(t: seq<nat>, limit: nat, s: seq<nat>, i: nat, j: nat)
    requires IsChain(t, limit, s) && i < |s| && j < |s| && s[i] == s[j]
    ensures i == j
  {
    ChainTail(t, limit, s, i);
    ChainTail(t, limit, s, j);
    ChainUnique(t, limit, s[i..], s[j..]);
    assert |s[i..]| == |s| - i && |s[j..]| == |s| - j;
  }

  lemma {:induction false} ChainNoDuplicates(t: seq<nat>, limit: nat, s: seq<nat>)
    requires IsChain(t, limit, s)
    ensures NoDuplicates(s)
  {
    hide IsChain;
    forall i, j | 0 <= i < |s| && 0 <= j < |s| && s[i] == s[j]
      ensures i == j
    {
      SamePlace(t, limit, s, i, j);
    }
  }

  lemma {:induction false} Pigeonhole(s: seq<nat>, n: nat)
    requires NoDuplicates(s) && forall i :: 0 <= i < |s| ==> s[i] < n
    ensures |s| <= n
    decreases n
  {
    if |s| > 0 {
      hide NoDuplicates;
      var k := if n - 1 in s then (var k :| 0 <= k < |s| && s[k] == n - 1; k) else 0;
      Unique(s, k);
      NoDuplicatesWithout(s, k);
      var u := s[..k] + s[k + 1..];
      forall i | 0 <= i < |u|
        ensures u[i] < n - 1
      {
        assert u[i] == s[if i < k then i else i + 1];
      }
      Pigeonhole(u, n - 1);
    }
  }

  // Following the table `k` times from cluster `c`; 0 is the end.
  function Walk(t: seq<nat>, c: nat, k: nat): nat
    decreases k
  {
    if k == 0 || c >= |t| then c else Walk(t, Next(t, c), k - 1)
  }

  ghost function ChainOf(t: seq<nat>, limit: nat, c: nat): (s: seq<nat>)
    requires HasChain(t, limit, c)
    ensures IsChain(t, limit, s) && s[0] == c
  {
    var s :| IsChain(t, limit, s) && s[0] == c;
    s
  }

  lemma {:induction false} WalkAlongChain(t: seq<nat>, limit: nat, s: seq<nat>, k: nat)
    requires IsChain(t, limit, s)
    ensures Walk(t, s[0], k) == if k < |s| then s[k] else 0
    decreases k
  {
    if k > 0 {
      if |s| > 1 {
        ChainTail(t, limit, s, 1);
        WalkAlongChain(t, limit, s[1..], k - 1);
      } else {
        WalkFromEnd(t, k - 1);
      }
    }
  }

  lemma {:induction false} WalkFromEnd(t: seq<nat>, k: nat)
    ensures Walk(t, 0, k) == 0
  {
    if k > 0 && |t| > 0 {
      WalkFromEnd(t, k - 1);
    }
  }

  lemma {:induction false} ChainBound(t: seq<nat>, limit: nat, s: seq<nat>)
    requires IsChain(t, limit, s)
    ensures 1 <= |s| <= limit - 2
  {
    ChainNoDuplicates(t, limit, s);
    Pigeonhole(seq(|s|, i requires 0 <= i < |s| => s[i] - 2), limit - 2);
  }

  lemma {:induction false} WalkStaysLive(t: seq<nat>, limit: nat, s: seq<nat>, k: nat)
    requires IsChain(t, limit, s)
    ensures k < |s| ==> Live(t, limit, Walk(t, s[0], k))
    ensures k == |s| ==> Walk(t, s[0], k) == 0
  {
    WalkAlongChain(t, limit, s, k);
  }

  // Following the table from c ends after n steps and meets live clusters only.
  ghost predicate WalkEnds(t: seq<nat>, limit: nat, c: nat, n: nat) {
    Walk(t, c, n) == 0 && forall k :: 0 <= k < n ==> Live(t, limit, Walk(t, c, k))
  }

  // Chain walking terminates: the end is reached after exactly the length of
  // the chain, never more than the number of data clusters.
  lemma {:induction false} WalkTerminates(t: seq<nat>, limit: nat, c: nat)
    requires WellFormed(t, limit) && Live(t, limit, c)
    ensures exists n :: 1 <= n <= limit - 2 && WalkEnds(t, limit, c, n)
  {
    var s := ChainOf(t, limit, c);
    ChainBound(t, limit, s);
    hide WellFormed, IsChain, Walk, Live;
    forall k: nat | k <= |s|
      ensures k < |s| ==> Live(t, limit, Walk(t, c, k))
      ensures k == |s| ==> Walk(t, c, k) == 0
    {
      WalkStaysLive(t, limit, s, k);
    }
    assert WalkEnds(t, limit, c, |s|);
  }

  // Two chains that share a cluster agree from there back to a head.
  lemma {:induction false} SharedPrefix(t: seq<nat>, limit: nat, s: seq<nat>, i: nat, u: seq<nat>, j: nat)
    requires NoJoins(t, limit) && IsChain(t, limit, s) && IsChain(t, limit, u)
    requires i < |s| && j < |u| && s[i] == u[j] && i <= j
    ensures s[0] == u[j - i]
    decreases i
  {
    if i > 0 {
      SharedPredecessor(t, limit, s, i, u, j);
      SharedPrefix(t, limit, s, i - 1, u, j - 1);
    }
  }

  lemma {:induction false} SharedPredecessor(t: seq<nat>, limit: nat, s: seq<nat>, i: nat, u: seq<nat>, j: nat)
    requires NoJoins(t, limit) && IsChain(t, limit, s) && IsChain(t, limit, u)
    requires 0 < i < |s| && 0 < j < |u| && s[i] == u[j]
    ensures s[i - 1] == u[j - 1]
  {
    var c, d := s[i - 1], u[j - 1];
    assert Live(t, limit, c) && Live(t, limit, d) && Live(t, limit, s[i]);
    assert Next(t, c) == s[i] && Next(t, d) == u[j];
  }

  ghost predicate IsHead(t: seq<nat>, limit: nat, c: nat) {
    forall d :: Live(t, limit, d) ==> Next(t, d) != c
  }

  lemma {:induction false} InnerIsNoHead(t: seq<nat>, limit: nat, s: seq<nat>, i: nat)
    requires IsChain(t, limit, s) && i < |s|
    ensures i > 0 ==> !IsHead(t, limit, s[i])
  {
    if i > 0 {
      assert Next(t, s[i - 1]) == s[i];
    }
  }

  // Chains with different heads are disjoint.
  lemma {:induction false} HeadsAreDisjoint(t: seq<nat>, limit: nat, s: seq<nat>, u: seq<nat>)
    requires NoJoins(t, limit) && IsChain(t, limit, s) && IsChain(t, limit, u)
    requires IsHead(t, limit, s[0]) && IsHead(t, limit, u[0])
    ensures s[0] != u[0] ==> Disjoint(s, u)
  {
    hide NoJoins, IsChain, IsHead;
    forall i, j | 0 <= i < |s| && 0 <= j < |u| && s[i] == u[j]
      ensures s[0] == u[0]
    {
      if i <= j {
        SharedPrefix(t, limit, s, i, u, j);
        InnerIsNoHead(t, limit, u, j - i);
      } else {
        SharedPrefix(t, limit, u, j, s, i);
        InnerIsNoHead(t, limit, s, i - j);
      }
    }
  }

  // --- AddCluster ---

  ghost predicate IsLowestFree(t: seq<nat>, f: nat) {
    f < |t| && t[f] == 0 && forall c :: 0 <= c < f ==> t[c] != 0
  }

  ghost predicate HasFree(t: seq<nat>) {
    exists f: nat :: IsLowestFree(t, f)
  }

  // The free clusters of the data area.
  ghost function FreeSet(t: seq<nat>, limit: nat): set<nat> {
    set c: nat | c < |t| && c < limit && t[c] == 0
  }

  ghost function FreeCount(t: seq<nat>, limit: nat): nat {
    |FreeSet(t, limit)|
  }

  ghost predicate FreeBelow(t: seq<nat>, limit: nat) {
    exists c: nat :: c < |t| && c < limit && t[c] == 0
  }

  // No entry behind the data area is zero.
  ghost predicate NoStray(t: seq<nat>, limit: nat) {
    forall c :: limit <= c < |t| ==> t[c] != 0
  }

  // The scan of AddCluster, which covers the whole table, stays in the data area.
  ghost predicate Ample(t: seq<nat>, limit: nat) {
    HasFree(t) ==> FreeBelow(t, limit)
  }

  lemma {:induction false} NoFreeMeansFull(t: seq<nat>, limit: nat)
    ensures FreeBelow(t, limit) <==> FreeCount(t, limit) > 0
    ensures FreeBelow(t, limit) ==> HasFree(t)
    ensures NoStray(t, limit) || FreeBelow(t, limit) ==> Ample(t, limit)
  {
    if FreeSet(t, limit) != {} {
      var c :| c in FreeSet(t, limit);
      LowestFreeBelow(t, c);
    }
    if FreeBelow(t, limit) {
      var c: nat :| c < |t| && c < limit && t[c] == 0;
      assert c in FreeSet(t, limit);
    }
    if HasFree(t) {
      var f: nat :| IsLowestFree(t, f);
      assert f < limit ==> f in FreeSet(t, limit);
    }
  }

  lemma {:induction false} LowestFreeBelow(t: seq<nat>, c: nat)
    requires c < |t| && t[c] == 0
    ensures HasFree(t)
  {
    if f :| 0 <= f < c && t[f] == 0 {
      LowestFreeBelow(t, f);
    } else {
      assert IsLowestFree(t, c);
    }
  }

  // The scan runs past the data area exactly when no data cluster is free.
  lemma {:induction false} ScanStaysInside(t: seq<nat>, limit: nat, f: nat)
    requires IsLowestFree(t, f)
    ensures f < limit <==> FreeBelow(t, limit)
    ensures f < limit <==> Ample(t, limit)
  {
    if FreeBelow(t, limit) {
      var c: nat :| c < |t| && c < limit && t[c] == 0;
      assert f <= c;
    }
  }

  // The table after the two SetCluster calls of AddCluster.
  function Linked(t: seq<nat>, parent: nat, f: nat): (r: seq<nat>)
    requires parent < |t| && f < |t|
    ensures |r| == |t|
  {
    (if parent > 0 then t[parent := f] else t)[f := CLUSTER_LAST]
  }

  ghost predicate CanAdd(t: seq<nat>, limit: nat, parent: nat, f: nat) {
    && WellFormed(t, limit)
    && (parent == 0 || (Live(t, limit, parent) && Next(t, parent) == 0))
    && IsLowestFree(t, f) && f < limit
  }

  lemma {:induction false} FreeIsDataCluster(t: seq<nat>, limit: nat, f: nat)
    requires WellFormed(t, limit) && IsLowestFree(t, f) && f < limit
    ensures 2 <= f < limit && !Live(t, limit, f)
  {
  }

  lemma {:induction false} LinkedLive(t: seq<nat>, limit: nat, parent: nat, f: nat)
    requires CanAdd(t, limit, parent, f)
    ensures forall c :: Live(Linked(t, parent, f), limit, c) <==> Live(t, limit, c) || c == f
    ensures forall c :: Live(t, limit, c) ==>
                          Next(Linked(t, parent, f), c) == if c == parent then f else Next(t, c)
    ensures Next(Linked(t, parent, f), f) == 0
    ensures parent != f && parent < limit && 2 <= f < limit <= |t| && !Live(t, limit, f)
  {
    hide LinksLive, NoJoins, AllTerminated;
    FreeIsDataCluster(t, limit, f);
  }

  lemma {:induction false} InnerHasSuccessor(t: seq<nat>, limit: nat, s: seq<nat>, i: nat)
    requires IsChain(t, limit, s) && i < |s|
    ensures Next(t, s[i]) == 0 <==> i == |s| - 1
  {
    assert i < |s| - 1 ==> Next(t, s[i]) == s[i + 1];
  }

  // The chain of every cluster afterwards: only the chain ending in `parent`
  // has grown, by the new cluster.
  function Grown(s: seq<nat>, parent: nat, f: nat): seq<nat> {
    if parent in s then s + [f] else s
  }

  lemma {:induction false} NotZero(t: seq<nat>, limit: nat, u: seq<nat>)
    requires IsChain(t, limit, u)
    ensures 0 !in u
  {
  }

  // Link i of a chain.
  ghost predicate IsLink(t: seq<nat>, limit: nat, s: seq<nat>, i: nat)
    requires i < |s|
  {
    Live(t, limit, s[i]) && Next(t, s[i]) == if i + 1 < |s| then s[i + 1] else 0
  }

  lemma {:induction false} ChainLink(t: seq<nat>, limit: nat, s: seq<nat>, i: nat)
    requires IsChain(t, limit, s) && i < |s|
    ensures IsLink(t, limit, s, i)
  {
  }

  lemma {:induction false} ChainOfLinks(t: seq<nat>, limit: nat, s: seq<nat>)
    requires s != [] && forall i {:trigger IsLink(t, limit, s, i)} :: 0 <= i < |s| ==> IsLink(t, limit, s, i)
    ensures IsChain(t, limit, s)
  {
    assert IsLink(t, limit, s, |s| - 1);
    forall i | 0 <= i < |s|
      ensures Live(t, limit, s[i])
      ensures i < |s| - 1 ==> Next(t, s[i]) == s[i + 1]
    {
      assert IsLink(t, limit, s, i);
    }
  }

  // The parent can only be the last cluster of a chain.
  lemma {:induction false} ParentIsLast(t: seq<nat>, limit: nat, parent: nat, s: seq<nat>, i: nat)
    requires IsChain(t, limit, s) && i < |s| && parent < |t| && Next(t, parent) == 0
    ensures s[i] == parent ==> i == |s| - 1
    ensures parent in s ==> s[|s| - 1] == parent
  {
    InnerHasSuccessor(t, limit, s, i);
    if parent in s {
      var k :| 0 <= k < |s| && s[k] == parent;
      InnerHasSuccessor(t, limit, s, k);
    }
  }

  lemma {:induction false} LinkedAt(t: seq<nat>, limit: nat, parent: nat, f: nat, c: nat)
    requires CanAdd(t, limit, parent, f) && (Live(t, limit, c) || c == f)
    ensures Live(Linked(t, parent, f), limit, c) && Next(Linked(t, parent, f), f) == 0
    ensures Live(t, limit, c) ==>
      c != f && Next(Linked(t, parent, f), c) == if c == parent then f else Next(t, c)
    ensures parent == 0 || (parent < |t| && Next(t, parent) == 0)
  {
    LinkedLive(t, limit, parent, f);
    hide WellFormed, Linked, IsLowestFree, Next;
  }

  lemma {:induction false} GrownLink(t: seq<nat>, limit: nat, parent: nat, f: nat, s: seq<nat>, i: nat)
    requires CanAdd(t, limit, parent, f) && IsChain(t, limit, s) && i < |Grown(s, parent, f)|
    ensures IsLink(Linked(t, parent, f), limit, Grown(s, parent, f), i)
    ensures i < |s| ==> s[i] != f
  {
    hide WellFormed, Linked, IsChain, Next, Live, IsLowestFree;
    NotZero(t, limit, s);
    LinkedAt(t, limit, parent, f, f);
    if i < |s| {
      ChainLink(t, limit, s, i);
      LinkedAt(t, limit, parent, f, s[i]);
      if parent > 0 {
        ParentIsLast(t, limit, parent, s, i);
      }
    }
  }

  lemma {:induction false} AddGrowsOneChain(t: seq<nat>, limit: nat, parent: nat, f: nat, s: seq<nat>)
    requires CanAdd(t, limit, parent, f) && IsChain(t, limit, s)
    ensures IsChain(Linked(t, parent, f), limit, Grown(s, parent, f))
    ensures f !in s
  {
    ChainNonempty(t, limit, s);
    hide CanAdd, Linked, IsChain, IsLink;
    forall i | 0 <= i < |Grown(s, parent, f)|
      ensures IsLink(Linked(t, parent, f), limit, Grown(s, parent, f), i)
      ensures i < |s| ==> s[i] != f
    {
      GrownLink(t, limit, parent, f, s, i);
    }
    ChainOfLinks(Linked(t, parent, f), limit, Grown(s, parent, f));
  }

  lemma {:induction false} AddStartsChain(t: seq<nat>, limit: nat, parent: nat, f: nat)
    requires CanAdd(t, limit, parent, f)
    ensures IsChain(Linked(t, parent, f), limit, [f])
    ensures HasChain(Linked(t, parent, f), limit, f)
  {
    LinkedLive(t, limit, parent, f);
    assert [f][0] == f;
  }

  lemma {:induction false} AddKeepsLinks(t: seq<nat>, limit: nat, parent: nat, f: nat)
    requires CanAdd(t, limit, parent, f)
    ensures LinksLive(Linked(t, parent, f), limit) && NoJoins(Linked(t, parent, f), limit)
  {
    LinkedLive(t, limit, parent, f);
    FreeIsDataCluster(t, limit, f);
    hide Linked, IsLowestFree, Live, Next, AllTerminated;
  }

  lemma {:induction false} ClusterKeepsChain(t: seq<nat>, limit: nat, parent: nat, f: nat, c: nat)
    requires CanAdd(t, limit, parent, f) && HasChain(t, limit, c)
    ensures HasChain(Linked(t, parent, f), limit, c)
  {
    var s := ChainOf(t, limit, c);
    AddGrowsOneChain(t, limit, parent, f, s);
    ChainNonempty(t, limit, s);
    assert Grown(s, parent, f)[0] == c;
  }

  lemma {:induction false} AddKeepsTerminated(t: seq<nat>, limit: nat, parent: nat, f: nat)
    requires CanAdd(t, limit, parent, f)
    ensures AllTerminated(Linked(t, parent, f), limit)
  {
    LinkedLive(t, limit, parent, f);
    AddStartsChain(t, limit, parent, f);
    var t' := Linked(t, parent, f);
    hide HasChain, LinksLive, NoJoins, IsLowestFree, Linked, Live;
    forall c | Live(t', limit, c)
      ensures HasChain(t', limit, c)
    {
      if c != f {
        assert HasChain(t, limit, c);
        ClusterKeepsChain(t, limit, parent, f, c);
      }
    }
  }

  lemma {:induction false} ChainNonempty(t: seq<nat>, limit: nat, s: seq<nat>)
    requires IsChain(t, limit, s)
    ensures |s| > 0
  {
  }

  lemma {:induction false} AddKeepsWellFormed(t: seq<nat>, limit: nat, parent: nat, f: nat)
    requires CanAdd(t, limit, parent, f)
    ensures WellFormed(Linked(t, parent, f), limit)
  {
    AddKeepsLinks(t, limit, parent, f);
    AddKeepsTerminated(t, limit, parent, f);
    FreeIsDataCluster(t, limit, f);
    hide LinksLive, NoJoins, AllTerminated;
  }

  lemma {:induction false} AddTakesOneFree(t: seq<nat>, limit: nat, parent: nat, f: nat)
    requires CanAdd(t, limit, parent, f)
    ensures FreeCount(Linked(t, parent, f), limit) + 1 == FreeCount(t, limit)
    ensures NoStray(t, limit) ==> NoStray(Linked(t, parent, f), limit)
  {
    hide LinksLive, NoJoins, AllTerminated;
    var t' := Linked(t, parent, f);
    assert FreeSet(t, limit) == FreeSet(t', limit) + {f};
    assert f !in FreeSet(t', limit);
  }

  // A cluster that headed a chain still does, and without a parent the new
  // cluster heads one too.
  lemma {:induction false} AddKeepsHeads(t: seq<nat>, limit: nat, parent: nat, f: nat, c: nat)
    requires CanAdd(t, limit, parent, f)
    ensures c != f && c != 0 && IsHead(t, limit, c) ==> IsHead(Linked(t, parent, f), limit, c)
    ensures parent == 0 ==> IsHead(Linked(t, parent, f), limit, f)
  {
    LinkedLive(t, limit, parent, f);
    FreeIsDataCluster(t, limit, f);
  }

  // Linking a cluster behind the data area instead breaks the chain.
  lemma {:induction false} AddExtendsIff(t: seq<nat>, limit: nat, parent: nat, f: nat, s: seq<nat>)
    requires WellFormed(t, limit) && IsLowestFree(t, f)
    requires if parent == 0 then s == [] else IsChain(t, limit, s) && s[|s| - 1] == parent
    ensures IsChain(Linked(t, parent, f), limit, s + [f]) <==> f < limit
  {
    var u := s + [f];
    assert u[|s|] == f;
    if f < limit {
      if parent == 0 {
        AddStartsChain(t, limit, parent, f);
        assert u == [f];
      } else {
        InnerHasSuccessor(t, limit, s, |s| - 1);
        AddGrowsOneChain(t, limit, parent, f, s);
        assert parent in s;
      }
    }
  }

  // For numbers that are no end or reserved mark, the table stays well-formed
  // exactly if the cluster lies in the data area, or is linked to no parent.
  lemma {:induction false} AddKeepsWellFormedIff(t: seq<nat>, limit: nat, parent: nat, f: nat)
    requires WellFormed(t, limit) && IsLowestFree(t, f) && f < 0xFF0
    requires parent == 0 || (Live(t, limit, parent) && Next(t, parent) == 0)
    ensures WellFormed(Linked(t, parent, f), limit) <==> f < limit || parent == 0
  {
    if f < limit {
      AddKeepsWellFormed(t, limit, parent, f);
    } else if parent == 0 {
      SameBelowLimit(t, Linked(t, parent, f), limit);
    } else {
      hide AllTerminated, NoJoins;
      var t' := Linked(t, parent, f);
      assert Live(t', limit, parent) && Next(t', parent) == f && !Live(t', limit, f);
    }
  }

  lemma {:induction false} SameChain(t: seq<nat>, t': seq<nat>, limit: nat, s: seq<nat>)
    requires IsChain(t, limit, s) && |t'| == |t| && forall c :: 0 <= c < limit ==> c < |t| && t'[c] == t[c]
    ensures IsChain(t', limit, s)
  {
    ChainNonempty(t, limit, s);
    forall i | 0 <= i < |s|
      ensures IsLink(t', limit, s, i)
    {
      ChainLink(t, limit, s, i);
    }
    hide IsChain, IsLink;
    ChainOfLinks(t', limit, s);
  }

  // Entries behind the data area do not matter.
  lemma {:induction false} SameBelowLimit(t: seq<nat>, t': seq<nat>, limit: nat)
    requires WellFormed(t, limit) && |t'| == |t| && forall c :: 0 <= c < limit ==> t'[c] == t[c]
    ensures WellFormed(t', limit)
  {
    SameLinks(t, t', limit);
    hide IsChain, LinksLive, NoJoins, Next;
    forall c | Live(t', limit, c)
      ensures HasChain(t', limit, c)
    {
      assert Live(t, limit, c);
      var s := ChainOf(t, limit, c);
      SameChain(t, t', limit, s);
    }
  }

  lemma SameLinks(t: seq<nat>, t': seq<nat>, limit: nat)
    requires WellFormed(t, limit) && |t'| == |t| && forall c :: 0 <= c < limit ==> t'[c] == t[c]
    ensures LinksLive(t', limit) && NoJoins(t', limit)
  {
    hide AllTerminated;
    forall c | Live(t', limit, c)
      ensures Live(t, limit, c) && Next(t', c) == Next(t, c)
      ensures Next(t, c) == 0 || Live(t', limit, Next(t, c))
    {
    }
  }

  // The table of a freshly formatted volume: only the two reserved entries.
  lemma {:induction false} FormattedIsWellFormed(t: seq<nat>, limit: nat)
    requires 2 <= limit <= |t| && limit <= 0xFF0 && t[0] != 0 && t[1] != 0
    requires forall c :: 2 <= c < |t| ==> t[c] == 0
    ensures WellFormed(t, limit) && FreeCount(t, limit) == limit - 2
  {
    Runs.RangeCount(2, limit - 2);
    forall c: nat
      ensures c in FreeSet(t, limit) <==> c in Runs.Range(2, limit - 2)
    {
      assert Runs.InRange(c, 2, limit - 2) <==> 2 <= c < limit;
    }
    assert FreeSet(t, limit) == Runs.Range(2, limit - 2);
  }
}
