/** Preference lists for every entry (`make_entry_rings` in
    container/consistent_hash/ring_build.go).

    The base list is the nodes of the sorted, de-duplicated table in order
    of first appearance (first appearance decided by node hash); it becomes
    entry 0's list. The other entries are then visited from the last down
    to entry 1. A position map `known_a` (node hash -> position) starts as
    the positions in the base list; for each entry the position `idx` of its
    node is read from the map, and the entry's list is the BASE list with
    element `idx` moved to the front. When `idx` is not 0 the map is updated
    as if that move had been applied to the list the map describes.

    As written, the base list `l` is never replaced by the rotated list (the
    statement after the update is `r = r`), so the map drifts away from the
    list that is rotated. Every list is still a permutation of the base list,
    but only entry 0 and the last entry are guaranteed to list their own
    node first. `RotationsIntended` is the variant that advances `l`. */
module RingRotation {
  import opened Seqs
  import opened ConsistentHash
  import opened EntryHashing

  /** The node hashes occurring in a table. */
  ghost function HashesOf(es: seq<Entry>): set<uint64> {
    set e | e in es :: e.nodeHash
  }

  /** Within the table, two entries have the same node exactly when they
      have the same node hash (node hashes are injective on the nodes). */
  ghost predicate HashIdentifiesNode(es: seq<Entry>) {
    forall a, b :: a in es && b in es ==> (a.node == b.node <==> a.nodeHash == b.nodeHash)
  }

  // ---------------------------------------------------------------------
  // The base list
  // ---------------------------------------------------------------------

  /** The scan that builds the base list: keep an entry when its node hash
      has not been seen before. */
  function FirstSeen(es: seq<Entry>, seen: set<uint64>): (r: seq<Entry>)
    ensures forall e :: e in r ==> e in es && e.nodeHash !in seen
    ensures forall a, b :: 0 <= a < b < |r| ==> r[a].nodeHash != r[b].nodeHash
  {
    if |es| == 0 then []
    else if es[0].nodeHash in seen then FirstSeen(es[1..], seen)
    else [es[0]] + FirstSeen(es[1..], seen + {es[0].nodeHash})
  }

  /** The scan keeps one entry for every node hash not seen before it. */
  lemma {:induction false} FirstSeenHashes(es: seq<Entry>, seen: set<uint64>)
    ensures HashesOf(FirstSeen(es, seen)) == HashesOf(es) - seen
    ensures |es| > 0 && es[0].nodeHash !in seen ==> 0 < |FirstSeen(es, seen)| && FirstSeen(es, seen)[0] == es[0]
  {
    if |es| > 0 {
      assert es == [es[0]] + es[1..];
      HashesOfCons(es[0], es[1..]);
      if es[0].nodeHash in seen {
        FirstSeenHashes(es[1..], seen);
      } else {
        var rest := FirstSeen(es[1..], seen + {es[0].nodeHash});
        FirstSeenHashes(es[1..], seen + {es[0].nodeHash});
        HashesOfCons(es[0], rest);
      }
    }
  }

  lemma HashesOfCons(e: Entry, rest: seq<Entry>)
    ensures HashesOf([e] + rest) == {e.nodeHash} + HashesOf(rest)
  {
    var s := [e] + rest;
    forall x | x in s ensures x == e || x in rest {
      var t :| 0 <= t < |s| && s[t] == x;
      if t > 0 {
        assert x == rest[t - 1];
      }
    }
  }

  function NodesOf(es: seq<Entry>): (r: seq<Node>)
    ensures |r| == |es|
    ensures forall t :: 0 <= t < |es| ==> r[t] == es[t].node
  {
    seq(|es|, t requires 0 <= t < |es| => es[t].node)
  }

  function HashList(es: seq<Entry>): (r: seq<uint64>)
    ensures |r| == |es|
    ensures forall t :: 0 <= t < |es| ==> r[t] == es[t].nodeHash
  {
    seq(|es|, t requires 0 <= t < |es| => es[t].nodeHash)
  }

  /** Entry 0's list: each node once, in order of first appearance. */
  function BaseList(es: seq<Entry>): seq<Node> {
    NodesOf(FirstSeen(es, {}))
  }

  /** `es[k]` is the first entry of the table with its node hash. */
  ghost predicate IsFirstAppearance(es: seq<Entry>, k: int)
    requires 0 <= k < |es|
  {
    forall j :: 0 <= j < k ==> es[j].nodeHash != es[k].nodeHash
  }

  /** Reference definition: the entries at first-appearance positions from
      `k` on, in table order. */
  ghost function FirstAppearancesFrom(es: seq<Entry>, k: nat): seq<Entry>
    requires k <= |es|
    decreases |es| - k
  {
    if k == |es| then []
    else (if IsFirstAppearance(es, k) then [es[k]] else []) + FirstAppearancesFrom(es, k + 1)
  }

  lemma {:induction false} FirstSeenIsFirstAppearances(es: seq<Entry>, k: nat)
    requires k <= |es|
    ensures FirstSeen(es[k..], HashesOf(es[..k])) == FirstAppearancesFrom(es, k)
    decreases |es| - k
  {
    if k < |es| {
      var seen := HashesOf(es[..k]);
      assert es[k..][0] == es[k] && es[k..][1..] == es[k + 1..];
      assert es[..k + 1] == es[..k] + [es[k]];
      HashesOfSnoc(es[..k], es[k]);
      FirstAppearanceUnseen(es, k);
      FirstSeenIsFirstAppearances(es, k + 1);
      if es[k].nodeHash in seen {
        FirstSeenSkip(es[k..], seen);
        assert HashesOf(es[..k + 1]) == seen;
      } else {
        FirstSeenKeep(es[k..], seen);
      }
    }
  }

  lemma HashesOfSnoc(p: seq<Entry>, e: Entry)
    ensures HashesOf(p + [e]) == HashesOf(p) + {e.nodeHash}
  {
    var s := p + [e];
    forall x | x in s ensures x == e || x in p {
      var t :| 0 <= t < |s| && s[t] == x;
      if t < |p| {
        assert x == p[t];
      }
    }
  }

  /** An entry is a first appearance exactly when its node hash is not
      among those before it. */
  lemma FirstAppearanceUnseen(es: seq<Entry>, k: nat)
    requires k < |es|
    ensures IsFirstAppearance(es, k) <==> es[k].nodeHash !in HashesOf(es[..k])
  {
    if !IsFirstAppearance(es, k) {
      var j :| 0 <= j < k && es[j].nodeHash == es[k].nodeHash;
      assert es[..k][j] == es[j];
    }
  }

  /** The base list is the nodes of the first-appearance entries, in table
      order; its head is the node of entry 0. */
  lemma BaseListIsFirstAppearanceOrder(es: seq<Entry>)
    requires |es| > 0
    ensures BaseList(es) == NodesOf(FirstAppearancesFrom(es, 0))
    ensures BaseList(es)[0] == es[0].node
  {
    assert es[..0] == [] && es[0..] == es;
    assert HashesOf([]) == {};
    FirstSeenIsFirstAppearances(es, 0);
  }

  /** With hashes identifying nodes, the base list holds every node of the
      table exactly once and nothing else. */
  lemma BaseListCoversTable(es: seq<Entry>)
    requires HashIdentifiesNode(es)
    ensures Distinct(BaseList(es))
    ensures forall e :: e in es ==> e.node in BaseList(es)
    ensures forall x :: x in BaseList(es) ==> exists e :: e in es && e.node == x
  {
    var F := FirstSeen(es, {});
    var base := BaseList(es);
    forall a, b | 0 <= a < b < |base| ensures base[a] != base[b] {
      assert F[a] in F && F[b] in F;
    }
    FirstSeenHashes(es, {});
    forall e | e in es ensures e.node in base {
      assert e.nodeHash in HashesOf(es);
      assert e.nodeHash in HashesOf(F);
      var f :| f in F && f.nodeHash == e.nodeHash;
      var t :| 0 <= t < |F| && F[t] == f;
      assert base[t] == f.node;
    }
    forall x | x in base ensures exists e :: e in es && e.node == x {
      var t :| 0 <= t < |base| && base[t] == x;
      assert F[t] in F;
    }
  }

  // ---------------------------------------------------------------------
  // The position map `known_a`
  // ---------------------------------------------------------------------

  /** Position of every key in a duplicate-free key list. */
  function Positions(K: seq<uint64>): (P: map<uint64, nat>)
    requires Distinct(K)
    ensures forall t :: 0 <= t < |K| ==> K[t] in P && P[K[t]] == t
    ensures forall h :: h in P ==> h in K && P[h] < |K|
    decreases |K|
  {
    if |K| == 0 then map[]
    else
      var init := K[..|K| - 1];
      assert forall i, j :: 0 <= i < j < |init| ==> init[i] == K[i] && init[j] == K[j];
      Positions(init)[K[|K| - 1] := |K| - 1]
  }

  /** `known_a[h]`; a hash missing from the map reads as 0, as in Go. */
  function Position(P: map<uint64, nat>, h: uint64): nat {
    if h in P then P[h] else 0
  }

  /** The map update after moving position `idx` to the front: that key
      goes to 0, smaller positions move up by one, larger ones stay. */
  function UpdatePositions(P: map<uint64, nat>, idx: nat): (Q: map<uint64, nat>)
    ensures Q.Keys == P.Keys
  {
    map h | h in P :: if P[h] == idx then 0 else if P[h] < idx then P[h] + 1 else P[h]
  }

  /** `P` maps its keys one-to-one onto 0 .. n-1. */
  ghost predicate IsPositionMap(P: map<uint64, nat>, n: nat) {
    && (forall h :: h in P ==> P[h] < n)
    && (forall h1, h2 :: h1 in P && h2 in P && P[h1] == P[h2] ==> h1 == h2)
    && (forall t :: 0 <= t < n ==> t in P.Values)
  }

  lemma PositionsIsPositionMap(K: seq<uint64>)
    requires Distinct(K)
    ensures IsPositionMap(Positions(K), |K|)
  {
    var P := Positions(K);
    forall t | 0 <= t < |K| ensures t in P.Values {
      assert K[t] in P && P[K[t]] == t;
    }
  }

  /** Each update keeps the map a bijection onto 0 .. n-1. */
  lemma UpdateKeepsPositionMap(P: map<uint64, nat>, n: nat, idx: nat)
    requires IsPositionMap(P, n) && idx < n
    ensures IsPositionMap(UpdatePositions(P, idx), n)
  {
    var Q := UpdatePositions(P, idx);
    forall t | 0 <= t < n ensures t in Q.Values {
      var old_t := if t == 0 then idx else if t <= idx then t - 1 else t;
      assert old_t in P.Values;
      var h :| h in P && P[h] == old_t;
      assert Q[h] == t;
    }
  }

  /** Where `MoveToFront(s, idx)` puts the element at position `t`. */
  function MovedPosition(idx: nat, t: nat): nat {
    if t == idx then 0 else if t < idx then t + 1 else t
  }

  /** Where the element at position `p` of `MoveToFront(s, idx)` came from. */
  function SourcePosition(idx: nat, p: nat): nat {
    if p == 0 then idx else if p <= idx then p - 1 else p
  }

  lemma MovedPositions<T>(s: seq<T>, idx: nat)
    requires idx < |s|
    ensures forall t :: 0 <= t < |s| ==> MovedPosition(idx, t) < |s| && MoveToFront(s, idx)[MovedPosition(idx, t)] == s[t]
    ensures forall p :: 0 <= p < |s| ==> SourcePosition(idx, p) < |s| && MoveToFront(s, idx)[p] == s[SourcePosition(idx, p)]
  {
  }

  lemma MoveToFrontDistinct<T>(s: seq<T>, idx: nat)
    requires Distinct(s) && idx < |s|
    ensures Distinct(MoveToFront(s, idx))
  {
    var M := MoveToFront(s, idx);
    MovedPositions(s, idx);
    forall a, b | 0 <= a < b < |M| ensures M[a] != M[b] {
      assert M[a] == s[SourcePosition(idx, a)] && M[b] == s[SourcePosition(idx, b)];
    }
  }

  /** The update describes the move: the positions of the rotated key list
      are the updated positions of the original list. */
  lemma UpdateTracksMoveToFront(K: seq<uint64>, idx: nat)
    requires Distinct(K) && idx < |K|
    ensures Distinct(MoveToFront(K, idx))
    ensures UpdatePositions(Positions(K), idx) == Positions(MoveToFront(K, idx))
  {
    MoveToFrontDistinct(K, idx);
    var Q, R := UpdatePositions(Positions(K), idx), Positions(MoveToFront(K, idx));
    UpdatedKeysMoved(K, idx);
    MovedKeysUpdated(K, idx);
    SameEntriesSameMap(Q, R);
  }

  lemma SameEntriesSameMap(Q: map<uint64, nat>, R: map<uint64, nat>)
    requires forall h :: h in Q ==> h in R && Q[h] == R[h]
    requires forall h :: h in R ==> h in Q
    ensures Q == R
  {
    assert Q.Keys == R.Keys;
  }

  lemma UpdatedKeysMoved(K: seq<uint64>, idx: nat)
    requires idx < |K| && Distinct(K) && Distinct(MoveToFront(K, idx))
    ensures forall h :: h in UpdatePositions(Positions(K), idx) ==>
              h in Positions(MoveToFront(K, idx))
              && UpdatePositions(Positions(K), idx)[h] == Positions(MoveToFront(K, idx))[h]
  {
    var M := MoveToFront(K, idx);
    MovedPositions(K, idx);
    var P, Q, R := Positions(K), UpdatePositions(Positions(K), idx), Positions(M);
    forall h | h in Q ensures h in R && Q[h] == R[h] {
      var t :| 0 <= t < |K| && K[t] == h;
      assert P[h] == t;
      assert M[MovedPosition(idx, t)] == h;
    }
  }

  lemma MovedKeysUpdated(K: seq<uint64>, idx: nat)
    requires idx < |K| && Distinct(K) && Distinct(MoveToFront(K, idx))
    ensures forall h :: h in Positions(MoveToFront(K, idx)) ==> h in UpdatePositions(Positions(K), idx)
  {
    var M := MoveToFront(K, idx);
    MovedPositions(K, idx);
    forall h | h in Positions(M) ensures h in UpdatePositions(Positions(K), idx) {
      var p :| 0 <= p < |M| && M[p] == h;
      assert K[SourcePosition(idx, p)] == h;
    }
  }

  /** The node hashes of the base list are duplicate-free, and their
      position map ranges over the base list. */
  lemma BaseKeys(D: seq<Entry>)
    requires 0 < |D|
    ensures 0 < |FirstSeen(D, {})|
    ensures Distinct(HashList(FirstSeen(D, {})))
    ensures forall h :: h in Positions(HashList(FirstSeen(D, {}))) ==>
              Positions(HashList(FirstSeen(D, {})))[h] < |FirstSeen(D, {})|
  {
    var F := FirstSeen(D, {});
    FirstSeenHashes(D, {});
    var K := HashList(F);
    assert Distinct(K);
  }

  /** One entry's list: a copy of `l` when `idx` is 0, otherwise `l` with
      element `idx` moved to the front. */
  function RotateTo(l: seq<Node>, idx: nat): (r: seq<Node>)
    requires idx < |l|
    ensures r == MoveToFront(l, idx)
  {
    if idx == 0 then MoveToFrontZero(l); l else MoveToFront(l, idx)
  }

  /** The map after one entry: unchanged when `idx` is 0, updated otherwise. */
  function NextPositions(P: map<uint64, nat>, idx: nat): (Q: map<uint64, nat>)
    ensures Q == UpdatePositions(P, idx)
  {
    if idx == 0 then
      assert UpdatePositions(P, 0) == P;
      P
    else UpdatePositions(P, idx)
  }

  // ---------------------------------------------------------------------
  // The lists, as written
  // ---------------------------------------------------------------------

  /** The lists of entries 0 .. i as the loop leaves them when it is at
      entry `i` with position map `P`: entry i gets the base list rotated by
      the position the map gives, and the loop continues with the updated
      map. Entry 0 keeps the base list. */
  function Rotations(D: seq<Entry>, base: seq<Node>, P: map<uint64, nat>, i: nat): (rings: seq<seq<Node>>)
    requires i < |D| && 0 < |base|
    requires forall h :: h in P ==> P[h] < |base|
    ensures |rings| == i + 1
    ensures rings[0] == base
    ensures forall k :: 0 <= k <= i ==> IsRotationOf(rings[k], base)
    ensures 0 < i ==> rings[i] == MoveToFront(base, Position(P, D[i].nodeHash))
    decreases i
  {
    MoveToFrontZero(base);
    if i == 0 then [base]
    else
      var idx := Position(P, D[i].nodeHash);
      var ring := RotateTo(base, idx);
      var next := NextPositions(P, idx);
      Rotations(D, base, next, i - 1) + [ring]
  }

  /** The table with entry k's list set to `rings[k]`. */
  function WithRings(D: seq<Entry>, rings: seq<seq<Node>>): (r: seq<Entry>)
    requires |rings| == |D|
    ensures |r| == |D|
    ensures forall k :: 0 <= k < |D| ==> r[k] == D[k].(ring := rings[k])
    ensures forall k :: 0 <= k < |D| ==> r[k].ring == rings[k]
  {
    seq(|D|, k requires 0 <= k < |D| => D[k].(ring := rings[k]))
  }

  /** `make_entry_rings`. `nodes` is the caller's node list; the base list
      is `len(nodes)` long, so the table must hold exactly that many distinct
      node hashes. */
  function MakeEntryRings(D: seq<Entry>, nodes: seq<Node>): (r: seq<Entry>)
    requires 0 < |D| && |FirstSeen(D, {})| == |nodes|
    ensures |r| == |D|
    ensures forall k :: 0 <= k < |D| ==> r[k] == D[k].(ring := r[k].ring)
    ensures r[0].ring == BaseList(D)
    ensures forall k :: 0 <= k < |D| ==> IsRotationOf(r[k].ring, BaseList(D))
  {
    var F := FirstSeen(D, {});
    BaseKeys(D);
    var rings := Rotations(D, NodesOf(F), Positions(HashList(F)), |D| - 1);
    WithRings(D, rings)
  }

  /** Every list is a permutation of the base list in which only the head
      has moved: removing the head from the list and from the base list
      leaves the same sequence. */
  lemma RotationKeepsOrder(r: seq<Node>, base: seq<Node>)
    requires IsRotationOf(r, base) && Distinct(base)
    ensures multiset(r) == multiset(base) && Distinct(r)
    ensures 0 < |r| && Remove(r, r[0]) == Remove(base, r[0])
  {
    var idx :| 0 <= idx < |base| && r == MoveToFront(base, idx);
    MoveToFrontPermutes(base, idx);
    PermutationOfDistinct(r, base);
    MoveToFrontKeepsOthersInOrder(base, idx);
  }

  /** Entry 0 and the last entry list their own node first. */
  lemma OwnNodeFirstAtEnds(D: seq<Entry>, nodes: seq<Node>)
    requires 0 < |D| && |FirstSeen(D, {})| == |nodes|
    requires HashIdentifiesNode(D)
    ensures MakeEntryRings(D, nodes)[0].ring[0] == D[0].node
    ensures MakeEntryRings(D, nodes)[|D| - 1].ring[0] == D[|D| - 1].node
  {
    BaseListIsFirstAppearanceOrder(D);
    if |D| > 1 {
      var F := FirstSeen(D, {});
      BaseKeys(D);
      var base, P := NodesOf(F), Positions(HashList(F));
      var rings := Rotations(D, base, P, |D| - 1);
      assert MakeEntryRings(D, nodes)[|D| - 1].ring == rings[|D| - 1];
      var t := BasePositionOf(D, D[|D| - 1]);
      assert Position(P, D[|D| - 1].nodeHash) == t;
    }
  }

  /** Every entry's node hash has a position in the base list, and the node
      at that position is the entry's node. */
  lemma BasePositionOf(D: seq<Entry>, e: Entry) returns (t: nat)
    requires e in D && HashIdentifiesNode(D)
    ensures t < |FirstSeen(D, {})| && Distinct(HashList(FirstSeen(D, {})))
    ensures e.nodeHash in Positions(HashList(FirstSeen(D, {})))
    ensures Positions(HashList(FirstSeen(D, {})))[e.nodeHash] == t
    ensures NodesOf(FirstSeen(D, {}))[t] == e.node
  {
    var F := FirstSeen(D, {});
    BaseKeys(D);
    FirstSeenHashes(D, {});
    assert e.nodeHash in HashesOf(D);
    assert HashesOf(D) - {} == HashesOf(D);
    assert e.nodeHash in HashesOf(F);
    var f :| f in F && f.nodeHash == e.nodeHash;
    t :| 0 <= t < |F| && F[t] == f;
    assert HashList(F)[t] == e.nodeHash;
    assert f in D;
  }

  lemma SmallPositions()
    ensures Positions([1, 2, 3]) == map[1 := 0, 2 := 1, 3 := 2]
  {
    var K: seq<uint64> := [1, 2, 3];
    assert K[..2] == [1, 2] && K[..2][..1] == [1] && K[..2][..1][..0] == [];
    assert Positions([]) == map[];
    assert Positions([1]) == map[1 := 0];
    assert Positions([1, 2]) == map[1 := 0, 2 := 1];
  }

  lemma SmallUpdate()
    ensures UpdatePositions(map[1 := 0, 2 := 1, 3 := 2], 2) == map[1 := 1, 2 := 2, 3 := 0]
  {
    var Q := UpdatePositions(map[1 := 0, 2 := 1, 3 := 2], 2);
    assert Q[1] == 1 && Q[2] == 2 && Q[3] == 0;
    SameEntriesSameMap(Q, map[1 := 1, 2 := 2, 3 := 0]);
  }

  /** Unrolls the loop for its first two entries (the last two of the table). */
  lemma LastTwoRotations(D: seq<Entry>, base: seq<Node>, P: map<uint64, nat>, i: nat)
    requires 1 < i < |D| && 0 < |base|
    requires forall h :: h in P ==> P[h] < |base|
    requires Position(P, D[i].nodeHash) < |base|
    ensures var Q := UpdatePositions(P, Position(P, D[i].nodeHash));
            Rotations(D, base, P, i)[i - 1] == MoveToFront(base, Position(Q, D[i - 1].nodeHash))
  {
    var Q := UpdatePositions(P, Position(P, D[i].nodeHash));
    assert Rotations(D, base, P, i) == Rotations(D, base, Q, i - 1) + [RotateTo(base, Position(P, D[i].nodeHash))];
  }

  /** A sorted table of three nodes A, B, C (node hashes 1, 2, 3) in which
      A and C have a second entry: A, B, C, A, C. */
  function ExampleTable(): (D: seq<Entry>)
    ensures |D| == 5
  {
    [Entry(Node("A"), "A", 0, 1, 10, []), Entry(Node("B"), "B", 0, 2, 20, []),
     Entry(Node("C"), "C", 0, 3, 30, []), Entry(Node("A"), "A", 1, 1, 40, []),
     Entry(Node("C"), "C", 1, 3, 50, [])]
  }

  lemma ExampleBase()
    ensures FirstSeen(ExampleTable(), {}) == ExampleTable()[..3]
    ensures NodesOf(ExampleTable()[..3]) == [Node("A"), Node("B"), Node("C")]
    ensures HashList(ExampleTable()[..3]) == [1, 2, 3]
  {
    ExampleFirstSeen();
    var F := ExampleTable()[..3];
    ExampleKeys(F);
  }

  lemma ExampleFirstSeen()
    ensures FirstSeen(ExampleTable(), {}) == ExampleTable()[..3]
  {
    FirstSeenOfShape(ExampleTable());
  }

  /** Any five entries whose node hashes run 1, 2, 3, 1, 3 keep their first
      three. */
  lemma FirstSeenOfShape(D: seq<Entry>)
    requires |D| == 5 && D[0].nodeHash == 1 && D[1].nodeHash == 2 && D[2].nodeHash == 3
    requires D[3].nodeHash == 1 && D[4].nodeHash == 3
    ensures FirstSeen(D, {}) == D[..3]
  {
    var one, two: set<uint64> := {1}, {1, 2};
    FirstSeenOfShapeTail(D);
    var u := FirstSeen(D[1..], one);
    FirstSeenKeep(D[1..], one);
    assert D[1..][1..] == D[2..] && one + {D[1].nodeHash} == two;
    assert u == [D[1], D[2]];
    FirstSeenKeep(D, {});
    assert {} + {D[0].nodeHash} == one;
    SeqOfThree(D[..3], D[0], D[1], D[2]);
    ConsOfTwo(D[0], u, D[1], D[2]);
  }

  /** From the third of those entries on, with hashes 1 and 2 seen, only
      the third is kept. */
  lemma FirstSeenOfShapeTail(D: seq<Entry>)
    requires |D| == 5 && D[2].nodeHash == 3 && D[3].nodeHash == 1 && D[4].nodeHash == 3
    ensures FirstSeen(D[2..], {1, 2}) == [D[2]]
  {
    var two, three: set<uint64> := {1, 2}, {1, 2, 3};
    FirstSeenSkip(D[4..], three);
    assert D[4..][1..] == [];
    FirstSeenSkip(D[3..], three);
    assert D[3..][1..] == D[4..];
    FirstSeenKeep(D[2..], two);
    assert D[2..][1..] == D[3..] && two + {D[2].nodeHash} == three;
  }

  lemma ConsOfTwo<T>(x: T, u: seq<T>, y: T, z: T)
    requires u == [y, z]
    ensures [x] + u == [x, y, z]
  {
  }

  lemma FirstSeenSkip(es: seq<Entry>, seen: set<uint64>)
    requires 0 < |es| && es[0].nodeHash in seen
    ensures FirstSeen(es, seen) == FirstSeen(es[1..], seen)
  {
  }

  lemma FirstSeenKeep(es: seq<Entry>, seen: set<uint64>)
    requires 0 < |es| && es[0].nodeHash !in seen
    ensures FirstSeen(es, seen) == [es[0]] + FirstSeen(es[1..], seen + {es[0].nodeHash})
  {
  }

  lemma ExampleKeys(F: seq<Entry>)
    requires F == ExampleTable()[..3]
    ensures NodesOf(F) == [Node("A"), Node("B"), Node("C")]
    ensures HashList(F) == [1, 2, 3]
  {
    var N, K := NodesOf(F), HashList(F);
    assert N[0] == Node("A") && N[1] == Node("B") && N[2] == Node("C");
    assert K[0] == 1 && K[1] == 2 && K[2] == 3;
    SeqOfThree(N, Node("A"), Node("B"), Node("C"));
    SeqOfThree(K, 1, 2, 3);
  }

  lemma SeqOfThree<T>(s: seq<T>, x: T, y: T, z: T)
    requires |s| == 3 && s[0] == x && s[1] == y && s[2] == z
    ensures s == [x, y, z]
  {
  }

  /** The lists `MakeEntryRings` attaches are the ones `Rotations` builds
      from the base list and its position map. */
  lemma MakeEntryRingsUnfold(D: seq<Entry>, nodes: seq<Node>, k: nat)
    requires 0 < |D| && |FirstSeen(D, {})| == |nodes| && k < |D|
    ensures 0 < |FirstSeen(D, {})| && Distinct(HashList(FirstSeen(D, {})))
    ensures MakeEntryRings(D, nodes)[k].ring
            == Rotations(D, BaseList(D), Positions(HashList(FirstSeen(D, {}))), |D| - 1)[k]
  {
    BaseKeys(D);
  }

  /** The source as written: in the table A, B, C, A, C the entry at index 3
      belongs to node A but its list is B, A, C. */
  lemma MiddleEntryNotOwnNodeFirst()
    ensures |FirstSeen(ExampleTable(), {})| == 3
    ensures ExampleTable()[3].node == Node("A")
    ensures MakeEntryRings(ExampleTable(), BaseList(ExampleTable()))[3].ring
            == [Node("B"), Node("A"), Node("C")]
  {
    var D := ExampleTable();
    ExampleBase();
    var base := [Node("A"), Node("B"), Node("C")];
    MakeEntryRingsUnfold(D, base, 3);
    ExampleRotation(D, base);
  }

  /** Any table of five entries whose last two have node hashes 1 and 3,
      over a three-node base list with hashes 1, 2, 3: the loop gives entry
      3 the list with the second base node first. */
  lemma ExampleRotation(D: seq<Entry>, base: seq<Node>)
    requires |D| == 5 && D[4].nodeHash == 3 && D[3].nodeHash == 1 && |base| == 3
    ensures Rotations(D, base, Positions([1, 2, 3]), 4)[3] == [base[1], base[0], base[2]]
  {
    var P0 := Positions([1, 2, 3]);
    SmallPositions();
    SmallUpdate();
    var P1: map<uint64, nat> := map[1 := 1, 2 := 2, 3 := 0];
    assert Position(P0, D[4].nodeHash) == 2;
    assert Position(P1, D[3].nodeHash) == 1;
    LastTwoRotations(D, base, P0, 4);
    SeqOfThree(MoveToFront(base, 1), base[1], base[0], base[2]);
  }

  // ---------------------------------------------------------------------
  // The lists as evidently intended: `l` advanced to each new list
  // ---------------------------------------------------------------------

  /** The node hashes of the table are a function `key` of the node (in a
      built ring, `key` is the node hash of the node's id). */
  ghost predicate KeyedBy(key: Node -> uint64, es: seq<Entry>) {
    forall e :: e in es ==> e.nodeHash == key(e.node)
  }

  /** The keys of a node list. */
  function NodeKeys(key: Node -> uint64, nodes: seq<Node>): (K: seq<uint64>)
    ensures |K| == |nodes|
    ensures forall t {:trigger K[t]} :: 0 <= t < |nodes| ==> K[t] == key(nodes[t])
  {
    seq(|nodes|, t requires 0 <= t < |nodes| => key(nodes[t]))
  }

  /** Like `Rotations`, but each entry's list becomes the list the next
      (lower) entry rotates, so the position map always describes `cur`. */
  function RotationsIntended(D: seq<Entry>, base: seq<Node>, cur: seq<Node>, P: map<uint64, nat>, i: nat): (rings: seq<seq<Node>>)
    requires i < |D| && 0 < |cur|
    requires forall h :: h in P ==> P[h] < |cur|
    ensures |rings| == i + 1
    ensures rings[0] == base
    decreases i
  {
    if i == 0 then [base]
    else
      var idx := Position(P, D[i].nodeHash);
      var ring := RotateTo(cur, idx);
      var next := NextPositions(P, idx);
      RotationsIntended(D, base, ring, next, i - 1) + [ring]
  }

  /** `make_entry_rings` with `l = r` at the end of each iteration. */
  function MakeEntryRingsIntended(D: seq<Entry>, nodes: seq<Node>): (r: seq<Entry>)
    requires 0 < |D| && |FirstSeen(D, {})| == |nodes|
    ensures |r| == |D|
    ensures forall k :: 0 <= k < |D| ==> r[k] == D[k].(ring := r[k].ring)
    ensures r[0].ring == BaseList(D)
    ensures forall k :: 0 <= k < |D| ==> multiset(r[k].ring) == multiset(BaseList(D))
  {
    var F := FirstSeen(D, {});
    var base := NodesOf(F);
    BaseKeys(D);
    var rings := RotationsIntended(D, base, base, Positions(HashList(F)), |D| - 1);
    IntendedListsPermuteBase(D, base, Positions(HashList(F)), |D| - 1);
    WithRings(D, rings)
  }

  /** What the corrected lists give up: the as-written lists keep the other
      nodes in base-list order (`RotationKeepsOrder`), the corrected ones do
      not. In the table A, B, C, A, C the entry at index 3 gets A, C, B, and
      without its head that is C, B where the base list gives B, C. */
  lemma IntendedLosesBaseOrder()
    ensures BaseList(ExampleTable()) == [Node("A"), Node("B"), Node("C")]
    ensures var r := MakeEntryRingsIntended(ExampleTable(), BaseList(ExampleTable()))[3].ring;
            r == [Node("A"), Node("C"), Node("B")]
            && Remove(r, r[0]) != Remove(BaseList(ExampleTable()), r[0])
  {
    var D := ExampleTable();
    var A, B, C := Node("A"), Node("B"), Node("C");
    ExampleBase();
    var base := [A, B, C];
    IntendedRingsAre(D, base);
    ExampleIntendedRotation(D, base);
    RemoveFirstOfThree(A, C, B);
    RemoveFirstOfThree(A, B, C);
    assert [C, B][0] != [B, C][0];
  }

  /** Any table of five entries whose last two have node hashes 1 and 3,
      over a three-node base list with hashes 1, 2, 3: with `l = r`, entry
      3 gets the first base node, then the third, then the second. */
  lemma ExampleIntendedRotation(D: seq<Entry>, base: seq<Node>)
    requires |D| == 5 && D[4].nodeHash == 3 && D[3].nodeHash == 1 && |base| == 3
    ensures RotationsIntended(D, base, base, Positions([1, 2, 3]), 4)[3] == [base[0], base[2], base[1]]
  {
    var P0 := Positions([1, 2, 3]);
    SmallPositions();
    SmallUpdate();
    var P1: map<uint64, nat> := map[1 := 1, 2 := 2, 3 := 0];
    assert Position(P0, D[4].nodeHash) == 2;
    assert Position(P1, D[3].nodeHash) == 1;
    IntendedLastTwo(D, base, P0, 4);
    var ring4 := MoveToFront(base, 2);
    SeqOfThree(ring4, base[2], base[0], base[1]);
    SeqOfThree(MoveToFront(ring4, 1), base[0], base[2], base[1]);
  }

  /** Unrolls the corrected loop for its first two entries (the last two
      of the table): the second list is the first one rotated again. */
  lemma IntendedLastTwo(D: seq<Entry>, base: seq<Node>, P: map<uint64, nat>, i: nat)
    requires 1 < i < |D| && 0 < |base|
    requires forall h :: h in P ==> P[h] < |base|
    requires Position(P, D[i].nodeHash) < |base|
    ensures var idx := Position(P, D[i].nodeHash);
            var Q := UpdatePositions(P, idx);
            Position(Q, D[i - 1].nodeHash) < |base| ==>
              RotationsIntended(D, base, base, P, i)[i - 1]
              == MoveToFront(MoveToFront(base, idx), Position(Q, D[i - 1].nodeHash))
  {
    var idx := Position(P, D[i].nodeHash);
    var ring := RotateTo(base, idx);
    var Q := NextPositions(P, idx);
    assert RotationsIntended(D, base, base, P, i) == RotationsIntended(D, base, ring, Q, i - 1) + [ring];
    if Position(Q, D[i - 1].nodeHash) < |base| {
      var ring2 := RotateTo(ring, Position(Q, D[i - 1].nodeHash));
      assert RotationsIntended(D, base, ring, Q, i - 1)
          == RotationsIntended(D, base, ring2, NextPositions(Q, Position(Q, D[i - 1].nodeHash)), i - 2) + [ring2];
    }
  }

  lemma RemoveFirstOfThree<T>(x: T, y: T, z: T)
    requires x != y && x != z
    ensures Remove([x, y, z], x) == [y, z]
  {
    assert [x, y, z][1..] == [y, z] && [y, z][1..] == [z] && [z][1..] == [];
    assert Remove([z], x) == [z] + Remove([], x);
    assert Remove([y, z], x) == [y] + Remove([z], x);
    assert Remove([x, y, z], x) == [] + Remove([y, z], x);
  }


  lemma IntendedListsPermuteBase(D: seq<Entry>, base: seq<Node>, P: map<uint64, nat>, i: nat)
    requires i < |D| && 0 < |base|
    requires forall h :: h in P ==> P[h] < |base|
    ensures forall k :: 0 <= k <= i ==> multiset(RotationsIntended(D, base, base, P, i)[k]) == multiset(base)
  {
    var rings := RotationsIntended(D, base, base, P, i);
    IntendedListsPermute(D, base, base, P, i);
    forall k | 0 <= k <= i ensures multiset(rings[k]) == multiset(base) {
      if k == 0 {
        assert rings[0] == base;
      }
    }
  }

  /** Every list after the first is a permutation of the list the chain
      starts rotating. */
  lemma {:induction false} IntendedListsPermute(D: seq<Entry>, base: seq<Node>, cur: seq<Node>, P: map<uint64, nat>, i: nat)
    requires i < |D| && 0 < |cur|
    requires forall h :: h in P ==> P[h] < |cur|
    ensures forall k :: 1 <= k <= i ==> multiset(RotationsIntended(D, base, cur, P, i)[k]) == multiset(cur)
    decreases i
  {
    if i > 0 {
      var idx := Position(P, D[i].nodeHash);
      var ring, next := RotateTo(cur, idx), NextPositions(P, idx);
      MoveToFrontPermutes(cur, idx);
      IntendedListsPermute(D, base, ring, next, i - 1);
      var rest, all := RotationsIntended(D, base, ring, next, i - 1), RotationsIntended(D, base, cur, P, i);
      assert all == rest + [ring];
      forall k | 1 <= k <= i ensures multiset(all[k]) == multiset(cur) {
        if k < i {
          assert all[k] == rest[k];
        }
      }
    }
  }

  lemma NodeKeysOfMove(key: Node -> uint64, cur: seq<Node>, idx: nat)
    requires idx < |cur|
    ensures NodeKeys(key, MoveToFront(cur, idx)) == MoveToFront(NodeKeys(key, cur), idx)
  {
  }

  /** `P` gives the position of every key of `K`, and nothing past its end. */
  ghost predicate Describes(P: map<uint64, nat>, K: seq<uint64>) {
    && (forall t :: 0 <= t < |K| ==> K[t] in P && P[K[t]] == t)
    && (forall h :: h in P ==> P[h] < |K|)
  }

  /** The update keeps the map describing the list after the move. */
  lemma UpdateDescribesMove(P: map<uint64, nat>, K: seq<uint64>, idx: nat)
    requires Describes(P, K) && idx < |K|
    ensures Describes(UpdatePositions(P, idx), MoveToFront(K, idx))
  {
    var M, Q := MoveToFront(K, idx), UpdatePositions(P, idx);
    MovedPositions(K, idx);
    forall t | 0 <= t < |M| ensures M[t] in Q && Q[M[t]] == t {
      var src := SourcePosition(idx, t);
      assert M[t] == K[src] && P[K[src]] == src;
    }
  }

  /** One step of the corrected loop: the map gives the position of the
      entry's node in `cur`, the new list starts with that node, and the
      updated map describes the new list. */
  lemma IntendedStep(key: Node -> uint64, cur: seq<Node>, P: map<uint64, nat>, e: Entry)
    requires Describes(P, NodeKeys(key, cur))
    requires e.nodeHash == key(e.node) && e.node in cur
    ensures Position(P, e.nodeHash) < |cur|
    ensures var ring := RotateTo(cur, Position(P, e.nodeHash));
            && ring[0] == e.node
            && multiset(ring) == multiset(cur)
            && Describes(NextPositions(P, Position(P, e.nodeHash)), NodeKeys(key, ring))
  {
    var K := NodeKeys(key, cur);
    var t :| 0 <= t < |cur| && cur[t] == e.node;
    assert K[t] == e.nodeHash;
    var idx := Position(P, e.nodeHash);
    assert idx == t;
    MoveToFrontPermutes(cur, idx);
    UpdateDescribesMove(P, K, idx);
    NodeKeysOfMove(key, cur, idx);
  }

  /** Lists 1 .. i each start with their entry's own node. */
  ghost predicate OwnNodeFirst(D: seq<Entry>, rings: seq<seq<Node>>, i: nat) {
    forall k :: 1 <= k <= i && k < |D| && k < |rings| ==> 0 < |rings[k]| && rings[k][0] == D[k].node
  }

  lemma OwnNodeFirstAt(D: seq<Entry>, rings: seq<seq<Node>>, i: nat, k: nat)
    requires OwnNodeFirst(D, rings, i) && 1 <= k <= i && k < |D| && k < |rings|
    ensures 0 < |rings[k]| && rings[k][0] == D[k].node
  {
  }

  /** With a map describing `cur`, every list produced from here on puts its
      entry's own node first. */
  lemma {:induction false} IntendedRotationsOwnNodeFirst(
    key: Node -> uint64, D: seq<Entry>, base: seq<Node>, cur: seq<Node>, P: map<uint64, nat>, i: nat)
    requires i < |D| && 0 < |cur| && Describes(P, NodeKeys(key, cur))
    requires KeyedBy(key, D)
    requires forall k :: 1 <= k <= i ==> D[k].node in cur
    ensures OwnNodeFirst(D, RotationsIntended(D, base, cur, P, i), i)
    decreases i
  {
    if i > 0 {
      var ring, next := IntendedAdvance(key, D, base, cur, P, i);
      IntendedRotationsOwnNodeFirst(key, D, base, ring, next, i - 1);
    }
  }

  /** The list and map the corrected loop moves on with after entry `i`;
      if the lists after it start with their own nodes, so do the lists
      from entry `i` on. */
  lemma IntendedAdvance(key: Node -> uint64, D: seq<Entry>, base: seq<Node>, cur: seq<Node>, P: map<uint64, nat>, i: nat)
    returns (ring: seq<Node>, next: map<uint64, nat>)
    requires 0 < i < |D| && 0 < |cur| && Describes(P, NodeKeys(key, cur))
    requires KeyedBy(key, D)
    requires forall k :: 1 <= k <= i ==> D[k].node in cur
    ensures 0 < |ring| && Describes(next, NodeKeys(key, ring))
    ensures forall k :: 1 <= k <= i - 1 ==> D[k].node in ring
    ensures OwnNodeFirst(D, RotationsIntended(D, base, ring, next, i - 1), i - 1) ==>
            OwnNodeFirst(D, RotationsIntended(D, base, cur, P, i), i)
  {
    var e := D[i];
    assert e in D;
    IntendedStep(key, cur, P, e);
    var idx := Position(P, e.nodeHash);
    ring, next := RotateTo(cur, idx), NextPositions(P, idx);
    forall k | 1 <= k <= i - 1 ensures D[k].node in ring {
      assert D[k].node in multiset(cur);
    }
    var rest := RotationsIntended(D, base, ring, next, i - 1);
    assert RotationsIntended(D, base, cur, P, i) == rest + [ring];
    if OwnNodeFirst(D, rest, i - 1) {
      OwnNodeFirstSnoc(D, rest, ring, i);
    }
  }

  /** Appending list `i`, which starts with entry `i`'s node, to lists
      that already put their own nodes first. */
  lemma OwnNodeFirstSnoc(D: seq<Entry>, rest: seq<seq<Node>>, ring: seq<Node>, i: nat)
    requires 0 < i < |D| && |rest| == i
    requires OwnNodeFirst(D, rest, i - 1) && 0 < |ring| && ring[0] == D[i].node
    ensures OwnNodeFirst(D, rest + [ring], i)
  {
    var all := rest + [ring];
    forall k | 1 <= k <= i && k < |D| && k < |all| ensures 0 < |all[k]| && all[k][0] == D[k].node {
      if k < i {
        assert all[k] == rest[k];
      }
    }
  }

  /** The corrected construction lists every entry's own node first. */
  lemma IntendedOwnNodeFirst(key: Node -> uint64, D: seq<Entry>, nodes: seq<Node>)
    requires 0 < |D| && |FirstSeen(D, {})| == |nodes|
    requires HashIdentifiesNode(D) && KeyedBy(key, D)
    ensures forall k :: 0 <= k < |D| ==> MakeEntryRingsIntended(D, nodes)[k].ring[0] == D[k].node
  {
    var F := FirstSeen(D, {});
    IntendedChainOwnNodeFirst(key, D);
    IntendedRingsAre(D, nodes);
    BaseListIsFirstAppearanceOrder(D);
    var rings := RotationsIntended(D, NodesOf(F), NodesOf(F), Positions(HashList(F)), |D| - 1);
    assert rings[0] == NodesOf(F);
    OwnNodeFirstEverywhere(D, MakeEntryRingsIntended(D, nodes), rings);
  }

  /** The chain of lists the corrected loop builds from the base list puts
      each entry's own node first. */
  lemma IntendedChainOwnNodeFirst(key: Node -> uint64, D: seq<Entry>)
    requires 0 < |D| && HashIdentifiesNode(D) && KeyedBy(key, D)
    ensures 0 < |FirstSeen(D, {})|
    ensures var F := FirstSeen(D, {});
            OwnNodeFirst(D, RotationsIntended(D, NodesOf(F), NodesOf(F), Positions(HashList(F)), |D| - 1), |D| - 1)
  {
    var F := FirstSeen(D, {});
    IntendedStart(key, D);
    IntendedRotationsOwnNodeFirst(key, D, NodesOf(F), NodesOf(F), Positions(HashList(F)), |D| - 1);
  }

  /** The entries the corrected construction returns carry the chain of
      lists, one each. */
  lemma IntendedRingsAre(D: seq<Entry>, nodes: seq<Node>)
    requires 0 < |D| && |FirstSeen(D, {})| == |nodes|
    ensures 0 < |FirstSeen(D, {})|
    ensures var F := FirstSeen(D, {});
            var rings := RotationsIntended(D, NodesOf(F), NodesOf(F), Positions(HashList(F)), |D| - 1);
            forall k :: 0 <= k < |D| ==> MakeEntryRingsIntended(D, nodes)[k].ring == rings[k]
  {
    BaseKeys(D);
  }

  /** Lists 1 .. |D|-1 start with their entries' nodes by `OwnNodeFirst`,
      and list 0 is the base list, which starts with the first entry's
      node. */
  lemma OwnNodeFirstEverywhere(D: seq<Entry>, r: seq<Entry>, rings: seq<seq<Node>>)
    requires 0 < |D| && |r| == |D| && |rings| == |D|
    requires forall k :: 0 <= k < |D| ==> r[k].ring == rings[k]
    requires 0 < |rings[0]| && rings[0][0] == D[0].node
    requires OwnNodeFirst(D, rings, |D| - 1)
    ensures forall k :: 0 <= k < |D| ==> 0 < |r[k].ring| && r[k].ring[0] == D[k].node
  {
    forall k | 0 <= k < |D| ensures 0 < |r[k].ring| && r[k].ring[0] == D[k].node {
      if k > 0 {
        OwnNodeFirstAt(D, rings, |D| - 1, k);
      }
    }
  }

  /** The corrected loop starts from the base list and a map describing it,
      and the base list holds every entry's node. */
  lemma IntendedStart(key: Node -> uint64, D: seq<Entry>)
    requires 0 < |D| && HashIdentifiesNode(D) && KeyedBy(key, D)
    ensures 0 < |NodesOf(FirstSeen(D, {}))|
    ensures Describes(Positions(HashList(FirstSeen(D, {}))), NodeKeys(key, NodesOf(FirstSeen(D, {}))))
    ensures forall k :: 0 <= k < |D| ==> D[k].node in NodesOf(FirstSeen(D, {}))
  {
    var F := FirstSeen(D, {});
    var base := NodesOf(F);
    BaseListCoversTable(D);
    BaseKeys(D);
    assert NodeKeys(key, base) == HashList(F) by {
      forall t | 0 <= t < |F| ensures NodeKeys(key, base)[t] == HashList(F)[t] {
        assert F[t] in D;
      }
    }
    forall k | 0 <= k < |D| ensures D[k].node in base {
      assert D[k] in D;
    }
  }
}
