/** The stages of `New` before the preference lists
    (container/consistent_hash/ring_build.go): expanding the nodes into
    virtual entries, sorting them by entry hash, and removing entries whose
    node id repeats the one before them on the circle. */
module RingStages {
  import opened Seqs
  import opened ConsistentHash

  // ---------------------------------------------------------------------
  // wrap_nodes
  // ---------------------------------------------------------------------

  /** The index `wrap_nodes` writes partition `j` of node `i` to. */
  function Slot(i: nat, j: nat, buckets: nat): nat {
    i * buckets + j
  }

  /** A not yet hashed entry: node, its id, the partition, zero hashes and
      no list. */
  function Fresh(n: Node, j: nat): Entry {
    Entry(n, n.hashId, j, 0, 0, [])
  }

  /** The `buckets` partitions of one node, in partition order. */
  function Partitions(n: Node, buckets: nat): (r: seq<Entry>)
    ensures |r| == buckets
    ensures forall j :: 0 <= j < buckets ==> r[j] == Fresh(n, j)
  {
    seq(buckets, j requires 0 <= j < buckets => Fresh(n, j))
  }

  /** `wrap_nodes`: exactly `len(l) * buckets` entries; the entry at slot
      (i, j) is partition j of node l[i], and nothing else is produced. */
  function WrapNodes(l: seq<Node>, buckets: nat): (r: seq<Entry>)
    ensures |r| == |l| * buckets
    ensures forall i, j :: 0 <= i < |l| && 0 <= j < buckets ==>
              Slot(i, j, buckets) < |r| && r[Slot(i, j, buckets)] == Fresh(l[i], j)
    ensures forall k :: 0 <= k < |r| ==>
              r[k].node in l && r[k].nodeId == r[k].node.hashId && r[k].partition < buckets
  {
    if |l| == 0 then []
    else
      var first, rest := Partitions(l[0], buckets), WrapNodes(l[1..], buckets);
      WrapStep(l, buckets, first, rest);
      first + rest
  }

  /** One node's partitions in front of the entries of the other nodes. */
  lemma WrapStep(l: seq<Node>, buckets: nat, first: seq<Entry>, rest: seq<Entry>)
    requires 0 < |l| && first == Partitions(l[0], buckets)
    requires |rest| == (|l| - 1) * buckets
    requires forall i, j :: 0 <= i < |l| - 1 && 0 <= j < buckets ==>
               Slot(i, j, buckets) < |rest| && rest[Slot(i, j, buckets)] == Fresh(l[1..][i], j)
    requires forall k :: 0 <= k < |rest| ==>
               rest[k].node in l[1..] && rest[k].nodeId == rest[k].node.hashId && rest[k].partition < buckets
    ensures |first + rest| == |l| * buckets
    ensures forall i, j :: 0 <= i < |l| && 0 <= j < buckets ==>
              Slot(i, j, buckets) < |first + rest| && (first + rest)[Slot(i, j, buckets)] == Fresh(l[i], j)
    ensures forall k :: 0 <= k < |first + rest| ==>
              (first + rest)[k].node in l && (first + rest)[k].nodeId == (first + rest)[k].node.hashId
              && (first + rest)[k].partition < buckets
  {
    var r := first + rest;
    assert |l| * buckets == buckets + (|l| - 1) * buckets;
    forall i, j | 0 <= i < |l| && 0 <= j < buckets
      ensures Slot(i, j, buckets) < |r| && r[Slot(i, j, buckets)] == Fresh(l[i], j)
    {
      if i > 0 {
        assert i * buckets == buckets + (i - 1) * buckets;
        assert Slot(i, j, buckets) == buckets + Slot(i - 1, j, buckets);
        assert l[1..][i - 1] == l[i];
      }
    }
    forall k | 0 <= k < |r|
      ensures r[k].node in l && r[k].nodeId == r[k].node.hashId && r[k].partition < buckets
    {
      if k >= buckets {
        assert r[k] == rest[k - buckets];
        assert rest[k - buckets].node in l[1..];
      }
    }
  }

  // ---------------------------------------------------------------------
  // sort_entries
  // ---------------------------------------------------------------------

  /** `sort.Sort` with `entry_sorter` may leave entries with equal hashes in
      any order; the rest of the construction is stated for every order it
      may produce. */
  ghost predicate SortedPermutationOf(s: seq<Entry>, t: seq<Entry>) {
    SortedByHash(s) && multiset(s) == multiset(t)
  }

  /** Insertion of one entry into a sorted table. */
  function Insert(e: Entry, s: seq<Entry>): (r: seq<Entry>)
    requires SortedByHash(s)
    ensures SortedByHash(r)
    ensures multiset(r) == multiset(s) + multiset{e}
  {
    if |s| == 0 then [e]
    else if e.entryHash <= s[0].entryHash then [e] + s
    else
      var rest := Insert(e, s[1..]);
      assert s == [s[0]] + s[1..];
      InsertedAbove(s[0], e, s[1..], rest);
      [s[0]] + rest
  }

  lemma InsertedAbove(x: Entry, e: Entry, s: seq<Entry>, rest: seq<Entry>)
    requires SortedByHash([x] + s) && x.entryHash < e.entryHash
    requires SortedByHash(rest) && multiset(rest) == multiset(s) + multiset{e}
    ensures SortedByHash([x] + rest)
  {
    forall k | 0 <= k < |rest| ensures x.entryHash <= rest[k].entryHash {
      assert rest[k] in multiset(rest);
      assert ([x] + s)[0] == x;
      if rest[k] != e {
        assert rest[k] in s;
        var m :| 0 <= m < |s| && s[m] == rest[k];
        assert ([x] + s)[m + 1] == s[m];
      }
    }
    forall a, b | 0 <= a < b < |[x] + rest| ensures ([x] + rest)[a].entryHash <= ([x] + rest)[b].entryHash {
      if a > 0 {
        assert ([x] + rest)[a] == rest[a - 1] && ([x] + rest)[b] == rest[b - 1];
      } else {
        assert ([x] + rest)[b] == rest[b - 1];
      }
    }
  }

  /** `sort_entries`, one of the orders `sort.Sort` may produce. */
  function SortEntries(s: seq<Entry>): (r: seq<Entry>)
    ensures SortedPermutationOf(r, s)
  {
    if |s| == 0 then []
    else
      assert s == [s[0]] + s[1..];
      Insert(s[0], SortEntries(s[1..]))
  }

  // ---------------------------------------------------------------------
  // remove_duplicate_entries
  // ---------------------------------------------------------------------

  /** The position before `k` on the circle of `n` entries. */
  function Prev(n: nat, k: nat): nat
    requires k < n
  {
    if k == 0 then n - 1 else k - 1
  }

  /** Reference definition: an entry survives exactly when its node id
      differs from the entry before it on the circle. */
  predicate Kept(l: seq<Entry>, k: nat)
    requires k < |l|
  {
    l[k].nodeId != l[Prev(|l|, k)].nodeId
  }

  /** The surviving entries from position `k` on, in table order. */
  function KeepFrom(l: seq<Entry>, k: nat): (r: seq<Entry>)
    requires k <= |l|
    ensures forall q :: k <= q < |l| && Kept(l, q) ==> l[q] in r
    decreases |l| - k
  {
    if k == |l| then []
    else (if Kept(l, k) then [l[k]] else []) + KeepFrom(l, k + 1)
  }

  /** The scan of `remove_duplicate_entries`, carrying the id of the last
      entry seen. */
  function DedupFrom(es: seq<Entry>, last: string): (r: seq<Entry>)
    ensures forall e :: e in r ==> e in es
    ensures |r| > 0 ==> r[0].nodeId != last
    ensures forall k :: 0 <= k < |r| - 1 ==> r[k].nodeId != r[k + 1].nodeId
    ensures |r| == 0 <==> forall k :: 0 <= k < |es| ==> es[k].nodeId == last
    ensures |r| > 0 ==> r[|r| - 1].nodeId == es[|es| - 1].nodeId
    ensures SortedByHash(es) ==> SortedByHash(r)
  {
    if |es| == 0 then []
    else if es[0].nodeId == last then
      var r := DedupFrom(es[1..], last);
      assert forall k :: 1 <= k < |es| ==> es[k] == es[1..][k - 1];
      SortedTail(es);
      assert |r| > 0 ==> es[1..][|es| - 2] == es[|es| - 1];
      r
    else
      var rest := DedupFrom(es[1..], es[0].nodeId);
      assert forall k :: 1 <= k < |es| ==> es[k] == es[1..][k - 1];
      SortedTail(es);
      HeadBelowRest(es, rest);
      assert |es| > 1 ==> es[1..][|es| - 2] == es[|es| - 1];
      [es[0]] + rest
  }

  lemma SortedTail(es: seq<Entry>)
    requires 0 < |es|
    ensures SortedByHash(es) ==> SortedByHash(es[1..])
  {
    if SortedByHash(es) {
      forall a, b | 0 <= a < b < |es[1..]| ensures es[1..][a].entryHash <= es[1..][b].entryHash {
        assert es[1..][a] == es[a + 1] && es[1..][b] == es[b + 1];
      }
    }
  }

  /** Putting the head of a sorted table before a sorted selection of its
      tail keeps the order. */
  lemma HeadBelowRest(es: seq<Entry>, rest: seq<Entry>)
    requires 0 < |es| && forall e :: e in rest ==> e in es[1..]
    requires SortedByHash(es[1..]) ==> SortedByHash(rest)
    ensures SortedByHash(es) ==> SortedByHash([es[0]] + rest)
  {
    if SortedByHash(es) {
      SortedTail(es);
      forall e | e in rest ensures es[0].entryHash <= e.entryHash {
        var m :| 0 <= m < |es[1..]| && es[1..][m] == e;
        assert es[m + 1] == e;
      }
      ConsSorted(es[0], rest);
    }
  }

  lemma ConsSorted(x: Entry, s: seq<Entry>)
    requires SortedByHash(s)
    requires forall e :: e in s ==> x.entryHash <= e.entryHash
    ensures SortedByHash([x] + s)
  {
    forall a, b | 0 <= a < b < |[x] + s| ensures ([x] + s)[a].entryHash <= ([x] + s)[b].entryHash {
      assert ([x] + s)[b] == s[b - 1];
      if a > 0 {
        assert ([x] + s)[a] == s[a - 1];
      } else {
        assert s[b - 1] in s;
      }
    }
  }

  /** `remove_duplicate_entries`. The source reads `l[len(l)-1]`, so the
      table must not be empty. No two neighbours on the circle of survivors
      share a node id (so there are never exactly one survivor), the result
      is empty exactly when every entry has the same id, and the order of
      the table is kept. */
  function RemoveDuplicateEntries(l: seq<Entry>): (r: seq<Entry>)
    requires |l| > 0
    ensures forall e :: e in r ==> e in l
    ensures forall k :: 0 <= k < |r| - 1 ==> r[k].nodeId != r[k + 1].nodeId
    ensures |r| > 0 ==> r[|r| - 1].nodeId != r[0].nodeId
    ensures |r| == 0 <==> forall k :: 0 <= k < |l| ==> l[k].nodeId == l[|l| - 1].nodeId
    ensures SortedByHash(l) ==> SortedByHash(r)
  {
    DedupFrom(l, l[|l| - 1].nodeId)
  }

  /** The scan computes the reference definition: the entries whose id
      differs from their predecessor on the circle, in order. */
  lemma {:induction false} DedupFromIsKeepFrom(l: seq<Entry>, k: nat)
    requires 0 < |l| && k <= |l|
    ensures DedupFrom(l[k..], if k == 0 then l[|l| - 1].nodeId else l[k - 1].nodeId) == KeepFrom(l, k)
    decreases |l| - k
  {
    if k < |l| {
      var prev := if k == 0 then l[|l| - 1].nodeId else l[k - 1].nodeId;
      var h := if Kept(l, k) then [l[k]] else [];
      assert Kept(l, k) <==> l[k].nodeId != prev;
      DedupFromIsKeepFrom(l, k + 1);
      DedupStepAt(l, k, prev);
      assert DedupFrom(l[k..], prev) == h + DedupFrom(l[k + 1..], l[k].nodeId);
      assert KeepFrom(l, k) == h + KeepFrom(l, k + 1);
    } else {
      assert l[k..] == [];
    }
  }

  /** `DedupStep` on the suffix from `k`. */
  lemma DedupStepAt(l: seq<Entry>, k: nat, last: string)
    requires k < |l|
    ensures DedupFrom(l[k..], last)
            == (if l[k].nodeId != last then [l[k]] else []) + DedupFrom(l[k + 1..], l[k].nodeId)
  {
    var tail := l[k..];
    assert tail[0] == l[k] && tail[1..] == l[k + 1..];
    DedupStep(tail, last);
  }

  /** One step of the scan: the head is kept exactly when it differs from
      the carried id, and either way the scan goes on with the head's id. */
  lemma DedupStep(es: seq<Entry>, last: string)
    requires 0 < |es|
    ensures DedupFrom(es, last)
            == (if es[0].nodeId != last then [es[0]] else []) + DedupFrom(es[1..], es[0].nodeId)
  {
  }

  lemma RemoveDuplicateEntriesIsKept(l: seq<Entry>)
    requires 0 < |l|
    ensures RemoveDuplicateEntries(l) == KeepFrom(l, 0)
  {
    DedupFromIsKeepFrom(l, 0);
    assert l[0..] == l;
  }

  /** Walking forward from an entry with another id, the first entry with
      id `x` survives. */
  lemma ScanToKept(l: seq<Entry>, x: string, pos: nat, k: nat) returns (q: nat)
    requires pos < |l| && k < |l| && l[pos].nodeId != x && l[k].nodeId == x
    ensures q < |l| && l[q].nodeId == x && Kept(l, q)
    decreases if k > pos then k - pos else k - pos + |l|
  {
    var next := if pos == |l| - 1 then 0 else pos + 1;
    assert Prev(|l|, next) == pos;
    if l[next].nodeId == x {
      q := next;
    } else {
      q := ScanToKept(l, x, next, k);
    }
  }

  /** When the table holds at least two different ids, every id keeps at
      least one entry. */
  lemma EveryIdSurvives(l: seq<Entry>, m: nat, k: nat)
    requires m < |l| && k < |l| && l[m].nodeId != l[k].nodeId
    ensures exists e :: e in RemoveDuplicateEntries(l) && e.nodeId == l[k].nodeId
  {
    var q := ScanToKept(l, l[k].nodeId, m, k);
    RemoveDuplicateEntriesIsKept(l);
    assert l[q] in KeepFrom(l, 0);
  }
}
