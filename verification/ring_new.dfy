/** `New` (container/consistent_hash/ring_build.go): the whole construction
    of a ring from a node list, with the inputs on which the source panics
    made explicit, and what a lookup on a built ring returns. */
module RingBuild {
  import opened Seqs
  import opened ConsistentHash
  import opened EntryHashing
  import opened RingRotation
  import opened RingStages

  /** `New` either returns a ring or panics (an index out of range or a
      negative `make` length). */
  datatype Outcome = Built(ring: Ring) | Panicked

  /** Which loop derives the preference lists: the source as written, or
      the corrected loop that moves on from the previous list. */
  datatype ListRule = AsWritten | Corrected

  /** The node-hash key of a node. */
  function IdKey(sha1: Sha1): Node -> uint64 {
    (n: Node) => NodeHash(sha1, n.hashId)
  }

  /** The nodes hash to pairwise different node hashes (so in particular
      they have different ids). */
  ghost predicate HashesDistinct(sha1: Sha1, l: seq<Node>) {
    forall a, b :: 0 <= a < b < |l| ==> NodeHash(sha1, l[a].hashId) != NodeHash(sha1, l[b].hashId)
  }

  /** An entry `wrap_nodes` and `make_entrie_hashes` can produce from `l`. */
  ghost predicate FromNodes(sha1: Sha1, l: seq<Node>, buckets: int, e: Entry) {
    && e.node in l
    && e.nodeId == e.node.hashId
    && e.partition < buckets
    && e.nodeHash == NodeHash(sha1, e.nodeId)
    && e.entryHash == EntryHash(sha1, e.nodeId, e.partition)
  }

  /** The table before sorting. */
  function HashedTable(sha1: Sha1, l: seq<Node>, buckets: nat): seq<Entry> {
    MakeEntryHashes(sha1, WrapNodes(l, buckets))
  }

  // ---------------------------------------------------------------------
  // The construction
  // ---------------------------------------------------------------------

  /** What a built ring looks like: its node list is the caller's list, its
      table is non-empty and sorted by entry hash, every entry is a
      partition of one of the nodes with the hashes of its id, every node
      owns an entry, no two neighbours on the circle belong to the same
      node, and every preference list is a permutation of the nodes. */
  ghost predicate WellBuilt(sha1: Sha1, l: seq<Node>, buckets: int, r: Ring) {
    && 2 <= |l| && Distinct(l)
    && r.nodes == l
    && 0 < |r.entries| && SortedByHash(r.entries)
    && (forall e :: e in r.entries ==> FromNodes(sha1, l, buckets, e) && multiset(e.ring) == multiset(l))
    && (forall n :: n in l ==> exists e :: e in r.entries && e.node == n)
    && (forall k :: 0 <= k < |r.entries| - 1 ==> r.entries[k].node != r.entries[k + 1].node)
    && r.entries[|r.entries| - 1].node != r.entries[0].node
  }

  /** Every entry's preference list starts with the entry's own node. */
  ghost predicate OwnersFirst(r: Ring) {
    forall e :: e in r.entries ==> 0 < |e.ring| && e.ring[0] == e.node
  }

  /** The first and the last entry list their own node first. */
  ghost predicate EndsOwnFirst(r: Ring) {
    && 0 < |r.entries|
    && 0 < |r.entries[0].ring| && r.entries[0].ring[0] == r.entries[0].node
    && var last := r.entries[|r.entries| - 1];
       0 < |last.ring| && last.ring[0] == last.node
  }

  /** Every node of `l` owns some entry of `D`. */
  ghost predicate Covers(D: seq<Entry>, l: seq<Node>) {
    forall i :: 0 <= i < |l| ==> exists e :: e in D && e.node == l[i]
  }

  /** What is left of the sorted table after `remove_duplicate_entries`,
      when something is: sorted, made of the nodes' entries, covering
      every node, and with no id repeated between neighbours on the
      circle. */
  ghost predicate Survivors(sha1: Sha1, l: seq<Node>, buckets: int, D: seq<Entry>) {
    && 2 <= |l| && 0 < |D| && SortedByHash(D)
    && (forall e :: e in D ==> FromNodes(sha1, l, buckets, e))
    && Covers(D, l)
    && (forall k :: 0 <= k < |D| - 1 ==> D[k].nodeId != D[k + 1].nodeId)
    && D[|D| - 1].nodeId != D[0].nodeId
  }

  /** The steps after sorting: `remove_duplicate_entries`, then
      `make_entry_rings`; panics when no entry survives. */
  function Assemble(sha1: Sha1, l: seq<Node>, buckets: nat, S: seq<Entry>, rule: ListRule): (r: Outcome)
    requires HashesDistinct(sha1, l) && 0 < |l| && 0 < buckets
    requires SortedPermutationOf(S, HashedTable(sha1, l, buckets))
    ensures r.Panicked? <==> |l| < 2
    ensures r.Built? ==> WellBuilt(sha1, l, buckets, r.ring)
    ensures r.Built? ==> EndsOwnFirst(r.ring)
    ensures r.Built? && rule == Corrected ==> OwnersFirst(r.ring)
  {
    SortedTableFacts(sha1, l, buckets, S);
    var D := RemoveDuplicateEntries(S);
    SurvivorFacts(sha1, l, buckets, S);
    if |D| == 0 then Panicked
    else
      BaseIsNodes(sha1, l, buckets, D);
      var es := if rule == AsWritten then MakeEntryRings(D, l) else MakeEntryRingsIntended(D, l);
      BuiltFacts(sha1, l, buckets, D, es, rule);
      Built(Ring(l, es))
  }

  /** `New`, with `sort.Sort` resolved to one admissible order. It panics
      exactly when there are fewer than two nodes or fewer than one bucket;
      otherwise the ring is well built and the first and last entries list
      their own node first. The result holds for every order `sort.Sort`
      may leave equal entry hashes in (see `Assemble`). */
  function New(sha1: Sha1, l: seq<Node>, buckets: int): (r: Outcome)
    requires HashesDistinct(sha1, l)
    ensures r.Panicked? <==> |l| < 2 || buckets < 1
    ensures r.Built? ==> WellBuilt(sha1, l, buckets, r.ring)
    ensures r.Built? ==> EndsOwnFirst(r.ring)
  {
    if |l| == 0 || buckets <= 0 then Panicked
    else Assemble(sha1, l, buckets, SortEntries(HashedTable(sha1, l, buckets)), AsWritten)
  }

  /** `New` with the corrected preference-list loop: in addition, every
      entry's list starts with its own node. */
  function NewCorrected(sha1: Sha1, l: seq<Node>, buckets: int): (r: Outcome)
    requires HashesDistinct(sha1, l)
    ensures r.Panicked? <==> |l| < 2 || buckets < 1
    ensures r.Built? ==> WellBuilt(sha1, l, buckets, r.ring) && OwnersFirst(r.ring)
  {
    if |l| == 0 || buckets <= 0 then Panicked
    else Assemble(sha1, l, buckets, SortEntries(HashedTable(sha1, l, buckets)), Corrected)
  }

  // ---------------------------------------------------------------------
  // Lookup on a built ring
  // ---------------------------------------------------------------------

  /** On a built ring, `Lookup(key, n)` returns `n` distinct nodes of the
      ring when `0 < n < len(nodes)`, and every node exactly once
      otherwise. */
  lemma LookupOnBuiltRing(sha1: Sha1, l: seq<Node>, buckets: int, r: Ring, key: string, n: int)
    requires WellBuilt(sha1, l, buckets, r)
    ensures |Lookup(r, sha1, key, n)| == (if 0 < n < |l| then n else |l|)
    ensures Distinct(Lookup(r, sha1, key, n))
    ensures forall x :: x in Lookup(r, sha1, key, n) ==> x in l
    ensures n <= 0 || |l| <= n ==> multiset(Lookup(r, sha1, key, n)) == multiset(l)
  {
    var res := Lookup(r, sha1, key, n);
    var idx :| PicksEntry(r.entries, KeyHash(sha1, key), idx) && res == Truncate(r.entries[idx].ring, n);
    var pref := r.entries[idx].ring;
    assert r.entries[idx] in r.entries;
    TruncatedPermutation(pref, l, n);
  }

  /** A truncated permutation of a duplicate-free list is duplicate-free,
      draws from the list, and is the whole permutation when not cut. */
  lemma TruncatedPermutation(pref: seq<Node>, l: seq<Node>, n: int)
    requires multiset(pref) == multiset(l) && Distinct(l)
    ensures |Truncate(pref, n)| == (if 0 < n < |l| then n else |l|)
    ensures Distinct(Truncate(pref, n))
    ensures forall x :: x in Truncate(pref, n) ==> x in l
    ensures n <= 0 || |l| <= n ==> multiset(Truncate(pref, n)) == multiset(l)
  {
    var res := Truncate(pref, n);
    PermutationOfDistinct(pref, l);
    forall x | x in res ensures x in l {
      assert x in multiset(pref);
    }
    forall a, b | 0 <= a < b < |res| ensures res[a] != res[b] {
      assert res[a] == pref[a] && res[b] == pref[b];
    }
  }

  /** With the corrected lists, the first node a lookup returns owns the
      entry the key hashes to. */
  lemma CorrectedLookupPrimary(sha1: Sha1, l: seq<Node>, buckets: int, r: Ring, key: string, n: int)
    requires WellBuilt(sha1, l, buckets, r) && OwnersFirst(r)
    ensures exists idx :: PicksEntry(r.entries, KeyHash(sha1, key), idx)
                          && 0 < |Lookup(r, sha1, key, n)| && Lookup(r, sha1, key, n)[0] == r.entries[idx].node
  {
    var res := Lookup(r, sha1, key, n);
    var idx :| PicksEntry(r.entries, KeyHash(sha1, key), idx) && res == Truncate(r.entries[idx].ring, n);
    assert r.entries[idx] in r.entries;
  }

  // ---------------------------------------------------------------------
  // Facts about the stages
  // ---------------------------------------------------------------------

  /** Two nodes of the list with the same node hash are the same node. */
  lemma SameHashSameNode(sha1: Sha1, l: seq<Node>, x: Node, y: Node)
    requires HashesDistinct(sha1, l) && x in l && y in l
    requires NodeHash(sha1, x.hashId) == NodeHash(sha1, y.hashId)
    ensures x == y
  {
    var a :| 0 <= a < |l| && l[a] == x;
    var b :| 0 <= b < |l| && l[b] == y;
    assert a == b;
  }

  lemma NodesDistinct(sha1: Sha1, l: seq<Node>)
    requires HashesDistinct(sha1, l)
    ensures Distinct(l)
  {
    forall a, b | 0 <= a < b < |l| ensures l[a] != l[b] {
      assert NodeHash(sha1, l[a].hashId) != NodeHash(sha1, l[b].hashId);
    }
  }

  /** Every entry of the hashed table comes from the nodes, and with at
      least one bucket every node has an entry. */
  lemma HashedTableFacts(sha1: Sha1, l: seq<Node>, buckets: nat)
    ensures forall e :: e in HashedTable(sha1, l, buckets) ==> FromNodes(sha1, l, buckets, e)
    ensures 0 < buckets ==> forall i :: 0 <= i < |l| ==>
              exists e :: e in HashedTable(sha1, l, buckets) && e.node == l[i]
  {
    var W := WrapNodes(l, buckets);
    var H := HashedTable(sha1, l, buckets);
    forall e | e in H ensures FromNodes(sha1, l, buckets, e) {
      var k :| 0 <= k < |H| && H[k] == e;
      assert W[k].node in l;
    }
    if 0 < buckets {
      forall i | 0 <= i < |l| ensures exists e :: e in H && e.node == l[i] {
        var k := Slot(i, 0, buckets);
        assert W[k] == Fresh(l[i], 0);
        assert H[k] in H;
      }
    }
  }

  /** The same holds for any sorted permutation of the table. */
  lemma SortedTableFacts(sha1: Sha1, l: seq<Node>, buckets: nat, S: seq<Entry>)
    requires 0 < |l| && 0 < buckets
    requires SortedPermutationOf(S, HashedTable(sha1, l, buckets))
    ensures 0 < |S| && SortedByHash(S)
    ensures forall e :: e in S ==> FromNodes(sha1, l, buckets, e)
    ensures forall i :: 0 <= i < |l| ==> exists e :: e in S && e.node == l[i]
  {
    var H := HashedTable(sha1, l, buckets);
    HashedTableFacts(sha1, l, buckets);
    forall e | e in S ensures FromNodes(sha1, l, buckets, e) {
      assert e in multiset(H);
    }
    forall i | 0 <= i < |l| ensures exists e :: e in S && e.node == l[i] {
      var e :| e in H && e.node == l[i];
      assert e in multiset(S);
    }
    var e0 :| e0 in S && e0.node == l[0];
  }

  /** What `remove_duplicate_entries` leaves of a sorted table: nothing
      when there is one node; otherwise a sorted selection holding an entry
      of every node, in which equal node hashes mean equal nodes. */
  lemma SurvivorFacts(sha1: Sha1, l: seq<Node>, buckets: nat, S: seq<Entry>)
    requires HashesDistinct(sha1, l) && 0 < |l| && 0 < buckets
    requires SortedPermutationOf(S, HashedTable(sha1, l, buckets))
    ensures 0 < |S|
    ensures |RemoveDuplicateEntries(S)| == 0 <==> |l| < 2
    ensures 0 < |RemoveDuplicateEntries(S)| ==> Survivors(sha1, l, buckets, RemoveDuplicateEntries(S))
  {
    SortedTableFacts(sha1, l, buckets, S);
    var D := RemoveDuplicateEntries(S);
    if |l| < 2 {
      OneNodeOneId(sha1, l, buckets, S);
    } else {
      SurvivorsCover(sha1, l, buckets, S);
      var e :| e in D && e.node == l[0];
    }
  }

  /** With a single node, every entry carries that node's id. */
  lemma OneNodeOneId(sha1: Sha1, l: seq<Node>, buckets: nat, S: seq<Entry>)
    requires |l| == 1 && 0 < |S| && forall e :: e in S ==> FromNodes(sha1, l, buckets, e)
    ensures forall k :: 0 <= k < |S| ==> S[k].nodeId == S[|S| - 1].nodeId
  {
    forall k | 0 <= k < |S| ensures S[k].nodeId == S[|S| - 1].nodeId {
      assert S[k] in S && S[|S| - 1] in S;
    }
  }

  /** With two or more nodes, every node keeps an entry through
      `remove_duplicate_entries`. */
  lemma SurvivorsCover(sha1: Sha1, l: seq<Node>, buckets: nat, S: seq<Entry>)
    requires HashesDistinct(sha1, l) && 2 <= |l| && 0 < |S|
    requires forall e :: e in S ==> FromNodes(sha1, l, buckets, e)
    requires forall i :: 0 <= i < |l| ==> exists e :: e in S && e.node == l[i]
    ensures Covers(RemoveDuplicateEntries(S), l)
  {
    var D := RemoveDuplicateEntries(S);
    forall i | 0 <= i < |l| ensures exists e :: e in D && e.node == l[i] {
      NodeSurvives(sha1, l, buckets, S, i);
    }
    assert Covers(D, l);
  }


  lemma NodeSurvives(sha1: Sha1, l: seq<Node>, buckets: nat, S: seq<Entry>, i: nat)
    requires HashesDistinct(sha1, l) && 2 <= |l| && i < |l|
    requires 0 < |S|
    requires forall e :: e in S ==> FromNodes(sha1, l, buckets, e)
    requires forall i :: 0 <= i < |l| ==> exists e :: e in S && e.node == l[i]
    ensures exists e :: e in RemoveDuplicateEntries(S) && e.node == l[i]
  {
    var j := if i == 0 then 1 else 0;
    if i < j {
      assert NodeHash(sha1, l[i].hashId) != NodeHash(sha1, l[j].hashId);
    } else {
      assert NodeHash(sha1, l[j].hashId) != NodeHash(sha1, l[i].hashId);
    }
    var ei :| ei in S && ei.node == l[i];
    var ej :| ej in S && ej.node == l[j];
    var k :| 0 <= k < |S| && S[k] == ei;
    var m :| 0 <= m < |S| && S[m] == ej;
    EveryIdSurvives(S, m, k);
    var e :| e in RemoveDuplicateEntries(S) && e.nodeId == S[k].nodeId;
    SameHashSameNode(sha1, l, e.node, l[i]);
  }

  /** On the surviving entries, the node hash identifies the node and the
      base list holds every node exactly once. */
  lemma BaseIsNodes(sha1: Sha1, l: seq<Node>, buckets: int, D: seq<Entry>)
    requires HashesDistinct(sha1, l) && Survivors(sha1, l, buckets, D)
    ensures HashIdentifiesNode(D) && KeyedBy(IdKey(sha1), D)
    ensures |FirstSeen(D, {})| == |l|
    ensures multiset(BaseList(D)) == multiset(l)
  {
    forall a, b | a in D && b in D ensures a.node == b.node <==> a.nodeHash == b.nodeHash {
      if a.nodeHash == b.nodeHash {
        SameHashSameNode(sha1, l, a.node, b.node);
      }
    }
    NodesDistinct(sha1, l);
    BaseListCoversTable(D);
    var base := BaseList(D);
    forall x ensures x in base <==> x in l {
      if x in l {
        var i :| 0 <= i < |l| && l[i] == x;
        var e :| e in D && e.node == l[i];
      }
    }
    SameElementsPermutation(base, l);
    assert |base| == |multiset(base)| == |multiset(l)| == |l|;
  }

  /** The table `make_entry_rings` returns, under either loop, makes a
      well-built ring. */
  lemma BuiltFacts(sha1: Sha1, l: seq<Node>, buckets: int, D: seq<Entry>, es: seq<Entry>, rule: ListRule)
    requires HashesDistinct(sha1, l) && Survivors(sha1, l, buckets, D)
    requires HashIdentifiesNode(D) && KeyedBy(IdKey(sha1), D)
    requires |FirstSeen(D, {})| == |l| && multiset(BaseList(D)) == multiset(l)
    requires es == if rule == AsWritten then MakeEntryRings(D, l) else MakeEntryRingsIntended(D, l)
    ensures WellBuilt(sha1, l, buckets, Ring(l, es))
    ensures EndsOwnFirst(Ring(l, es))
    ensures rule == Corrected ==> OwnersFirst(Ring(l, es))
  {
    if rule == AsWritten {
      BuiltAsWritten(sha1, l, buckets, D);
    } else {
      BuiltCorrected(sha1, l, buckets, D);
    }
  }

  lemma BuiltAsWritten(sha1: Sha1, l: seq<Node>, buckets: int, D: seq<Entry>)
    requires HashesDistinct(sha1, l) && Survivors(sha1, l, buckets, D)
    requires HashIdentifiesNode(D)
    requires |FirstSeen(D, {})| == |l| && multiset(BaseList(D)) == multiset(l)
    ensures WellBuilt(sha1, l, buckets, Ring(l, MakeEntryRings(D, l)))
    ensures EndsOwnFirst(Ring(l, MakeEntryRings(D, l)))
  {
    NodesDistinct(sha1, l);
    AsWrittenListsPermute(l, D);
    OwnNodeFirstAtEnds(D, l);
    RingedTable(sha1, l, buckets, D, MakeEntryRings(D, l));
  }

  lemma BuiltCorrected(sha1: Sha1, l: seq<Node>, buckets: int, D: seq<Entry>)
    requires HashesDistinct(sha1, l) && Survivors(sha1, l, buckets, D)
    requires HashIdentifiesNode(D) && KeyedBy(IdKey(sha1), D)
    requires |FirstSeen(D, {})| == |l| && multiset(BaseList(D)) == multiset(l)
    ensures WellBuilt(sha1, l, buckets, Ring(l, MakeEntryRingsIntended(D, l)))
    ensures OwnersFirst(Ring(l, MakeEntryRingsIntended(D, l)))
    ensures EndsOwnFirst(Ring(l, MakeEntryRingsIntended(D, l)))
  {
    var es := MakeEntryRingsIntended(D, l);
    NodesDistinct(sha1, l);
    IntendedOwnNodeFirst(IdKey(sha1), D, l);
    CorrectedOwnersFirst(D, es);
    RingedTable(sha1, l, buckets, D, es);
    assert es[0] in es && es[|es| - 1] in es;
  }

  /** Every list the source derives is a permutation of the nodes. */
  lemma AsWrittenListsPermute(l: seq<Node>, D: seq<Entry>)
    requires 0 < |D| && |FirstSeen(D, {})| == |l| && multiset(BaseList(D)) == multiset(l)
    requires HashIdentifiesNode(D)
    ensures forall k :: 0 <= k < |D| ==> multiset(MakeEntryRings(D, l)[k].ring) == multiset(l)
  {
    var es := MakeEntryRings(D, l);
    BaseListCoversTable(D);
    forall k | 0 <= k < |D| ensures multiset(es[k].ring) == multiset(l) {
      RotationKeepsOrder(es[k].ring, BaseList(D));
    }
  }

  lemma CorrectedOwnersFirst(D: seq<Entry>, es: seq<Entry>)
    requires |es| == |D|
    requires forall k :: 0 <= k < |D| ==> es[k] == D[k].(ring := es[k].ring)
    requires forall k :: 0 <= k < |D| ==> 0 < |es[k].ring| && es[k].ring[0] == D[k].node
    ensures OwnersFirst(Ring([], es))
  {
    forall e | e in es ensures 0 < |e.ring| && e.ring[0] == e.node {
      var k :| 0 <= k < |es| && es[k] == e;
    }
  }

  /** Giving every surviving entry a permutation of the nodes as its list
      yields a well-built ring. */
  lemma RingedTable(sha1: Sha1, l: seq<Node>, buckets: int, D: seq<Entry>, es: seq<Entry>)
    requires Distinct(l) && Survivors(sha1, l, buckets, D)
    requires |es| == |D| && forall k :: 0 <= k < |D| ==> es[k] == D[k].(ring := es[k].ring)
    requires forall k :: 0 <= k < |es| ==> multiset(es[k].ring) == multiset(l)
    ensures WellBuilt(sha1, l, buckets, Ring(l, es))
  {
    RingedEntries(sha1, l, buckets, D, es);
    RingedCovers(D, l, es);
    RingedNeighbours(D, es);
  }

  /** The relabelled entries keep their origin and their order, and carry
      permutations of the nodes. */
  lemma RingedEntries(sha1: Sha1, l: seq<Node>, buckets: int, D: seq<Entry>, es: seq<Entry>)
    requires SortedByHash(D) && forall e :: e in D ==> FromNodes(sha1, l, buckets, e)
    requires |es| == |D| && forall k :: 0 <= k < |D| ==> es[k] == D[k].(ring := es[k].ring)
    requires forall k :: 0 <= k < |es| ==> multiset(es[k].ring) == multiset(l)
    ensures forall e :: e in es ==> FromNodes(sha1, l, buckets, e) && multiset(e.ring) == multiset(l)
    ensures SortedByHash(es)
  {
    forall e | e in es ensures FromNodes(sha1, l, buckets, e) && multiset(e.ring) == multiset(l) {
      var k :| 0 <= k < |es| && es[k] == e;
      assert D[k] in D;
    }
    forall a, b | 0 <= a < b < |es| ensures es[a].entryHash <= es[b].entryHash {
      assert es[a].entryHash == D[a].entryHash && es[b].entryHash == D[b].entryHash;
    }
  }

  /** Relabelling keeps an entry for every node. */
  lemma RingedCovers(D: seq<Entry>, l: seq<Node>, es: seq<Entry>)
    requires Covers(D, l)
    requires |es| == |D| && forall k :: 0 <= k < |D| ==> es[k] == D[k].(ring := es[k].ring)
    ensures forall n :: n in l ==> exists e :: e in es && e.node == n
  {
    forall n | n in l ensures exists e :: e in es && e.node == n {
      var i :| 0 <= i < |l| && l[i] == n;
      var e :| e in D && e.node == l[i];
      var k :| 0 <= k < |D| && D[k] == e;
      assert es[k] in es;
    }
  }

  /** Relabelling keeps neighbours on different nodes, given that every
      entry's id is its node's id. */
  lemma RingedNeighbours(D: seq<Entry>, es: seq<Entry>)
    requires 0 < |D| && forall e :: e in D ==> e.nodeId == e.node.hashId
    requires forall k :: 0 <= k < |D| - 1 ==> D[k].nodeId != D[k + 1].nodeId
    requires D[|D| - 1].nodeId != D[0].nodeId
    requires |es| == |D| && forall k :: 0 <= k < |D| ==> es[k] == D[k].(ring := es[k].ring)
    ensures forall k :: 0 <= k < |es| - 1 ==> es[k].node != es[k + 1].node
    ensures es[|es| - 1].node != es[0].node
  {
    forall k | 0 <= k < |es| - 1 ensures es[k].node != es[k + 1].node {
      assert D[k] in D && D[k + 1] in D;
    }
    assert D[0] in D && D[|D| - 1] in D;
  }

}
