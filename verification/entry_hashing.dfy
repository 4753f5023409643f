/** Hashing of virtual entries (`make_entrie_hashes` in
    container/consistent_hash/ring_build.go).

    For each entry the digest is reset, the node id and a newline are
    written and summed into the node hash; then, WITHOUT resetting, the
    partition number in decimal and a newline are written and summed into
    the entry hash. The entry hash is therefore the hash of
    `node_id "\n" partition "\n"`. */
module EntryHashing {
  import opened ConsistentHash

  predicate IsDigit(c: char) {
    '0' <= c <= '9'
  }

  function DigitChar(d: nat): (c: char)
    requires d < 10
    ensures IsDigit(c)
  {
    ('0' as int + d) as char
  }

  function DigitValue(c: char): (d: nat)
    requires IsDigit(c)
    ensures d < 10
  {
    c as int - '0' as int
  }

  predicate AllDigits(s: string) {
    forall i :: 0 <= i < |s| ==> IsDigit(s[i])
  }

  /** The decimal text `fmt.Fprintln` writes for a non-negative `int`. */
  function Decimal(n: nat): (s: string)
    ensures |s| > 0 && AllDigits(s)
  {
    if n < 10 then [DigitChar(n)]
    else Decimal(n / 10) + [DigitChar(n % 10)]
  }

  /** Reads decimal text back; the inverse of `Decimal`. */
  function ParseDecimal(s: string): nat
    requires AllDigits(s)
  {
    if |s| == 0 then 0
    else ParseDecimal(s[..|s| - 1]) * 10 + DigitValue(s[|s| - 1])
  }

  lemma {:induction false} DecimalRoundTrip(n: nat)
    ensures ParseDecimal(Decimal(n)) == n
  {
    var s := Decimal(n);
    if n >= 10 {
      DecimalRoundTrip(n / 10);
      assert s[..|s| - 1] == Decimal(n / 10);
    }
  }

  /** What is written into the digest before the node hash is taken. */
  function NodeHashInput(id: string): string {
    id + "\n"
  }

  /** What the digest has seen when the entry hash is taken: the node-hash
      input followed by the partition line, because the digest is not reset
      between the two writes. */
  function EntryHashInput(id: string, partition: nat): string {
    NodeHashInput(id) + Decimal(partition) + "\n"
  }

  function NodeHash(sha1: Sha1, id: string): uint64 {
    MakeHash(sha1(NodeHashInput(id)))
  }

  function EntryHash(sha1: Sha1, id: string, partition: nat): uint64 {
    MakeHash(sha1(EntryHashInput(id, partition)))
  }

  /** Distinct (node id, partition) pairs are hashed from distinct messages,
      whatever characters the id contains: the partition number really does
      vary what each virtual copy of a node is hashed from. */
  lemma EntryHashInputInjective(a: string, p: nat, b: string, q: nat)
    requires EntryHashInput(a, p) == EntryHashInput(b, q)
    ensures a == b && p == q
  {
    var s := EntryHashInput(a, p);
    var dp, dq := Decimal(p), Decimal(q);
    SeparatorThenDigits(a, dp, s);
    SeparatorThenDigits(b, dq, s);
    assert |a| == |b|;
    assert a == s[..|a|] == b;
    assert dp == s[|a| + 1..|s| - 1] == dq;
    DecimalRoundTrip(p);
    DecimalRoundTrip(q);
  }

  /** In `x "\n" d "\n"` with `d` all digits, the character after `x` is
      the only newline before the final one. */
  lemma SeparatorThenDigits(x: string, d: string, s: string)
    requires AllDigits(d) && s == x + "\n" + d + "\n"
    ensures |s| == |x| + |d| + 2
    ensures s[|x|] == '\n' && s[|s| - 1] == '\n'
    ensures forall i :: |x| < i < |s| - 1 ==> s[i] != '\n'
  {
    forall i | |x| < i < |s| - 1 ensures s[i] != '\n' {
      assert s[i] == d[i - |x| - 1];
    }
  }

  /** An entry with its two hashes filled in. */
  function Hashed(sha1: Sha1, e: Entry): Entry {
    e.(nodeHash := NodeHash(sha1, e.nodeId),
       entryHash := EntryHash(sha1, e.nodeId, e.partition))
  }

  /** `make_entrie_hashes`: every entry keeps its node, id, partition and
      list, and gets the node hash of its id and the entry hash of its id
      and partition. */
  function MakeEntryHashes(sha1: Sha1, es: seq<Entry>): (r: seq<Entry>)
    ensures |r| == |es|
    ensures forall k :: 0 <= k < |es| ==>
              && r[k].node == es[k].node && r[k].nodeId == es[k].nodeId
              && r[k].partition == es[k].partition && r[k].ring == es[k].ring
              && r[k].nodeHash == NodeHash(sha1, es[k].nodeId)
              && r[k].entryHash == EntryHash(sha1, es[k].nodeId, es[k].partition)
  {
    if |es| == 0 then []
    else [Hashed(sha1, es[0])] + MakeEntryHashes(sha1, es[1..])
  }
}
