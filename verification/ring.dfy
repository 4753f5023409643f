/** The consistent-hash ring value and its lookup (container/consistent_hash/ring.go).

    A ring holds the caller's node list and a table of virtual entries sorted
    by entry hash; each entry carries a full preference list of nodes.
    `Lookup` hashes the key, finds the first entry whose hash is at least the
    key's hash (or the last entry when there is none) and returns that
    entry's preference list, cut to `n` nodes when `0 < n < len`.

    SHA-1 is not modelled: it is a parameter `sha1` mapping a message to a
    20-byte digest. The fold of the first eight digest bytes into an
    unsigned 64-bit value is modelled exactly. */
module ConsistentHash {

  type byte = b: int | 0 <= b < 256

  const TWO_TO_THE_64: int := 0x1_0000_0000_0000_0000

  type uint64 = x: int | 0 <= x < TWO_TO_THE_64

  /** A SHA-1 digest. */
  type Digest = d: seq<byte> | |d| == 20
    witness [0, 0, 0, 0, 0, 0, 0, 0, 0, 0, 0, 0, 0, 0, 0, 0, 0, 0, 0, 0]

  /** The hash function, applied to the bytes of a message. */
  type Sha1 = string -> Digest

  /** A member of the ring; the only capability the ring uses is its id. */
  datatype Node = Node(hashId: string)

  /** One virtual position on the ring (`entry_t`). */
  datatype Entry = Entry(
    node: Node,
    nodeId: string,
    partition: nat,
    nodeHash: uint64,
    entryHash: uint64,
    ring: seq<Node>)

  datatype Ring = Ring(nodes: seq<Node>, entries: seq<Entry>)

  // ---------------------------------------------------------------------
  // The 8-byte big-endian fold (`make_hash`)
  // ---------------------------------------------------------------------

  function Pow256(k: nat): (r: nat)
    ensures r > 0
  {
    if k == 0 then 1 else 256 * Pow256(k - 1)
  }

  /** Eight bytes span exactly the 64-bit range. */
  lemma Pow256Eight()
    ensures Pow256(8) == TWO_TO_THE_64
  {
  }


  /** The unsigned number whose big-endian base-256 digits are `bs`. */
  function BigEndian(bs: seq<byte>): (r: nat)
    ensures r < Pow256(|bs|)
  {
    if |bs| == 0 then 0
    else
      var high := BigEndian(bs[..|bs| - 1]);
      assert high * 256 <= (Pow256(|bs| - 1) - 1) * 256;
      high * 256 + bs[|bs| - 1]
  }

  /** The `k` big-endian base-256 digits of `v`. */
  function ToBigEndian(v: nat, k: nat): (bs: seq<byte>)
    requires v < Pow256(k)
    ensures |bs| == k
  {
    if k == 0 then []
    else ToBigEndian(v / 256, k - 1) + [v % 256]
  }

  /** Folding digits and extracting them are inverse: every byte string of
      length k is the digit string of exactly one number below 256^k. */
  lemma {:induction false} DigitsOfFold(bs: seq<byte>)
    ensures ToBigEndian(BigEndian(bs), |bs|) == bs
  {
    if |bs| > 0 {
      var init := bs[..|bs| - 1];
      DigitsOfFold(init);
      assert bs == init + [bs[|bs| - 1]];
    }
  }

  lemma {:induction false} FoldOfDigits(v: nat, k: nat)
    requires v < Pow256(k)
    ensures BigEndian(ToBigEndian(v, k)) == v
  {
    if k > 0 {
      var bs := ToBigEndian(v, k);
      FoldOfDigits(v / 256, k - 1);
      assert bs[..|bs| - 1] == ToBigEndian(v / 256, k - 1);
    }
  }

  lemma BigEndianPrefix(d: seq<byte>, k: nat)
    requires k < |d|
    ensures BigEndian(d[..k + 1]) == BigEndian(d[..k]) * 256 + d[k]
  {
    assert d[..k + 1][..k] == d[..k];
  }

  /** `make_hash`: the first eight digest bytes read as a big-endian
      unsigned 64-bit integer. The source combines `byte << shift` with
      `|`; the shifted bytes occupy disjoint bits, so `|` is `+` here. */
  function MakeHash(d: Digest): (h: uint64)
    ensures h == BigEndian(d[..8])
  {
    BigEndianPrefix(d, 0); BigEndianPrefix(d, 1); BigEndianPrefix(d, 2); BigEndianPrefix(d, 3);
    BigEndianPrefix(d, 4); BigEndianPrefix(d, 5); BigEndianPrefix(d, 6); BigEndianPrefix(d, 7);
    assert d[..0] == [];
    (d[0] as int) * 0x100_0000_0000_0000 + (d[1] as int) * 0x1_0000_0000_0000
    + (d[2] as int) * 0x100_0000_0000 + (d[3] as int) * 0x1_0000_0000
    + (d[4] as int) * 0x100_0000 + (d[5] as int) * 0x1_0000 + (d[6] as int) * 0x100 + d[7]
  }

  /** Two digests give the same hash exactly when their first eight bytes
      agree, and every 64-bit value is reached: the fold is a bijection
      between 8-byte prefixes and [0, 2^64). */
  lemma MakeHashBijective(d1: Digest, d2: Digest, v: uint64)
    ensures MakeHash(d1) == MakeHash(d2) <==> d1[..8] == d2[..8]
    ensures Pow256(8) == TWO_TO_THE_64
    ensures d1[..8] == ToBigEndian(v, 8) ==> MakeHash(d1) == v
  {
    Pow256Eight();
    DigitsOfFold(d1[..8]);
    DigitsOfFold(d2[..8]);
    if d1[..8] == ToBigEndian(v, 8) {
      FoldOfDigits(v, 8);
    }
  }

  /** The hash a key is looked up with. */
  function KeyHash(sha1: Sha1, key: string): uint64 {
    MakeHash(sha1(key))
  }

  // ---------------------------------------------------------------------
  // Lookup
  // ---------------------------------------------------------------------

  /** The entry table is in non-decreasing entry-hash order. */
  ghost predicate SortedByHash(es: seq<Entry>) {
    forall a, b :: 0 <= a < b < |es| ==> es[a].entryHash <= es[b].entryHash
  }

  /** `idx` is the entry a lookup of hash `h` must pick: every earlier entry
      hashes below `h`, and the entry itself hashes to at least `h` unless
      it is the last one (which is then used for hashes past the end). */
  ghost predicate PicksEntry(es: seq<Entry>, h: int, idx: int) {
    && 0 <= idx < |es|
    && (forall k :: 0 <= k < idx ==> es[k].entryHash < h)
    && (h <= es[idx].entryHash || idx == |es| - 1)
  }

  /** The choice is unique, so `PicksEntry` specifies the lookup completely. */
  lemma PicksEntryUnique(es: seq<Entry>, h: int, i: int, j: int)
    requires PicksEntry(es, h, i) && PicksEntry(es, h, j)
    ensures i == j
  {
  }

  /** `sort.Search(len(es), func(i) { es[i].entry_hash >= h })`, restricted
      to the window [lo, hi): Go's bisection loop, one halving per call. */
  function Search(es: seq<Entry>, h: int, lo: nat, hi: nat): (i: nat)
    requires lo <= hi <= |es|
    requires SortedByHash(es)
    requires forall k :: 0 <= k < lo ==> es[k].entryHash < h
    requires forall k :: hi <= k < |es| ==> h <= es[k].entryHash
    ensures lo <= i <= hi
    ensures forall k :: 0 <= k < i ==> es[k].entryHash < h
    ensures forall k :: i <= k < |es| ==> h <= es[k].entryHash
    decreases hi - lo
  {
    if lo < hi then
      var mid := (lo + hi) / 2;
      if !(es[mid].entryHash >= h) then Search(es, h, mid + 1, hi)
      else Search(es, h, lo, mid)
    else lo
  }

  /** The index `Lookup` reads: the lower bound of `h`, or the last entry
      when `h` is larger than every entry hash. */
  function SelectEntry(es: seq<Entry>, h: int): (idx: nat)
    requires |es| > 0 && SortedByHash(es)
    ensures PicksEntry(es, h, idx)
    ensures es[|es| - 1].entryHash < h ==> idx == |es| - 1
    ensures h <= es[|es| - 1].entryHash ==> h <= es[idx].entryHash
  {
    var idx := Search(es, h, 0, |es|);
    if idx == |es| then idx - 1 else idx
  }

  /** The first `n` nodes of a preference list when `0 < n < len`; the whole
      list otherwise (a non-positive `n` asks for every node). */
  function Truncate(pref: seq<Node>, n: int): (r: seq<Node>)
    ensures |r| == (if 0 < n < |pref| then n else |pref|)
    ensures r == pref[..|r|]
  {
    if 0 < n && n < |pref| then pref[..n] else pref
  }

  /** `Ring.Lookup`. The table must be non-empty (an empty one reads index
      -1) and sorted, which every ring built by `New` is. */
  function Lookup(r: Ring, sha1: Sha1, key: string, n: int): (result: seq<Node>)
    requires |r.entries| > 0 && SortedByHash(r.entries)
    ensures exists idx :: PicksEntry(r.entries, KeyHash(sha1, key), idx)
                          && result == Truncate(r.entries[idx].ring, n)
  {
    var idx := SelectEntry(r.entries, KeyHash(sha1, key));
    Truncate(r.entries[idx].ring, n)
  }

  /** Asking for fewer nodes returns a prefix of the full answer: index 0 is
      the primary, the rest are fall-backs in order. */
  lemma LookupPrefix(r: Ring, sha1: Sha1, key: string, n: int)
    requires |r.entries| > 0 && SortedByHash(r.entries)
    ensures var all := Lookup(r, sha1, key, 0);
            Lookup(r, sha1, key, n) == all[..|Lookup(r, sha1, key, n)|]
    ensures var all := Lookup(r, sha1, key, 0);
            0 < n < |all| ==> |Lookup(r, sha1, key, n)| == n
  {
    var h := KeyHash(sha1, key);
    var all, part := Lookup(r, sha1, key, 0), Lookup(r, sha1, key, n);
    var i :| PicksEntry(r.entries, h, i) && Lookup(r, sha1, key, 0) == Truncate(r.entries[i].ring, 0);
    var j :| PicksEntry(r.entries, h, j) && Lookup(r, sha1, key, n) == Truncate(r.entries[j].ring, n);
    PicksEntryUnique(r.entries, h, i, j);
  }
}
