/** Sentry packets (errors/sentry/packet.go): the version-4 UUID used as
    event id (section 4.4 of RFC 4122: random bits with the version and
    variant fields stamped in), its lowercase hex text, the JSON names of
    the log levels, tag appending and packet copying. The random bytes are
    an input; the clock, JSON encoding and the network are not modelled. */
module SentryPacket {
  import opened Seqs

  // ---------------------------------------------------------------------
  // Event ids
  // ---------------------------------------------------------------------

  /** The version field: the high four bits of byte 6 become 0100
      (section 4.1.3 of RFC 4122); the low four bits are kept. */
  function StampVersion(b: bv8): (r: bv8)
    ensures r >> 4 == 4 && r & 0x0f == b & 0x0f
  {
    (b & 0x0f) | 0x40
  }

  /** The variant field: the high two bits of byte 8 become 10 (section
      4.1.1 of RFC 4122); the low six bits are kept. */
  function StampVariant(b: bv8): (r: bv8)
    ensures r >> 6 == 2 && r & 0x3f == b & 0x3f
  {
    (b & 0x3f) | 0x80
  }

  /** 16 bytes carrying the version-4 and RFC 4122 variant fields. */
  ghost predicate IsVersion4(u: seq<bv8>) {
    |u| == 16 && u[6] >> 4 == 4 && u[8] >> 6 == 2
  }

  /** The stamping `uuid4_str` applies to the random bytes: bytes 6 and 8
      get their fixed bits, every other bit passes through. */
  function Stamp(u: seq<bv8>): (r: seq<bv8>)
    requires |u| == 16
    ensures IsVersion4(r)
    ensures forall i :: 0 <= i < 16 && i != 6 && i != 8 ==> r[i] == u[i]
    ensures r[6] & 0x0f == u[6] & 0x0f && r[8] & 0x3f == u[8] & 0x3f
  {
    u[6 := StampVersion(u[6])][8 := StampVariant(u[8])]
  }

  /** Stamping changes nothing on bytes that already carry the fields, so
      the stamped values are exactly the version-4 UUIDs. */
  lemma StampFixesVersion4(u: seq<bv8>)
    requires IsVersion4(u)
    ensures Stamp(u) == u
  {
    VersionBitsKept(u[6]);
    VariantBitsKept(u[8]);
  }

  lemma VersionBitsKept(b: bv8)
    requires b >> 4 == 4
    ensures StampVersion(b) == b
  {
  }

  lemma VariantBitsKept(b: bv8)
    requires b >> 6 == 2
    ensures StampVariant(b) == b
  {
  }

  /** The digit for a nibble, lowercase (`hex.EncodeToString`). */
  function HexDigit(n: nat): (c: char)
    requires n < 16
    ensures IsHexDigit(c)
  {
    if n < 10 then ('0' as int + n) as char else ('a' as int + n - 10) as char
  }

  predicate IsHexDigit(c: char) {
    '0' <= c <= '9' || 'a' <= c <= 'f'
  }

  function HexValue(c: char): (n: nat)
    requires IsHexDigit(c)
    ensures n < 16
  {
    if '0' <= c <= '9' then c as int - '0' as int else c as int - 'a' as int + 10
  }

  lemma HexDigitValue(n: nat)
    requires n < 16
    ensures HexValue(HexDigit(n)) == n
  {
  }

  /** The two digits of a byte, high nibble first. */
  function HexPair(b: bv8): (s: string)
    ensures |s| == 2 && IsHexDigit(s[0]) && IsHexDigit(s[1])
  {
    [HexDigit((b >> 4) as int), HexDigit((b & 0x0f) as int)]
  }

  /** The nibbles as numbers: the high nibble is the quotient by 16 and the
      low nibble the remainder. */
  lemma Nibbles(b: bv8)
    ensures (b >> 4) as int == b as int / 16
    ensures (b & 0x0f) as int == b as int % 16
  {
  }

  /** `hex.EncodeToString`. */
  function HexEncode(bs: seq<bv8>): (s: string)
    ensures |s| == 2 * |bs| && AllHex(s)
    ensures forall i :: 0 <= i < |bs| ==> s[2 * i..2 * i + 2] == HexPair(bs[i])
  {
    if |bs| == 0 then []
    else
      var rest := HexEncode(bs[1..]);
      var s := HexPair(bs[0]) + rest;
      assert forall i :: 1 <= i < |bs| ==> s[2 * i..2 * i + 2] == rest[2 * (i - 1)..2 * (i - 1) + 2];
      s
  }

  predicate AllHex(s: string) {
    forall i :: 0 <= i < |s| ==> IsHexDigit(s[i])
  }

  /** Reading hex text back into bytes. */
  function HexDecode(s: string): (bs: seq<bv8>)
    requires |s| % 2 == 0 && AllHex(s)
    ensures |bs| == |s| / 2
    decreases |s|
  {
    if |s| == 0 then []
    else [(HexValue(s[0]) * 16 + HexValue(s[1])) as bv8] + HexDecode(s[2..])
  }

  /** The two digits of a byte read back as that byte. */
  lemma HexPairDecodes(b: bv8)
    ensures (HexValue(HexPair(b)[0]) * 16 + HexValue(HexPair(b)[1])) as bv8 == b
  {
    var n := b as int;
    PairDigits(b);
    HexDigitValue(n / 16);
    HexDigitValue(n % 16);
    assert HexValue(HexPair(b)[0]) * 16 + HexValue(HexPair(b)[1]) == n;
  }

  /** The two digits of a byte are those of its quotient and remainder by
      16. */
  lemma PairDigits(b: bv8)
    ensures HexPair(b) == [HexDigit(b as int / 16), HexDigit(b as int % 16)]
  {
    Nibbles(b);
  }

  /** Hex text decodes to the bytes it was made from. */
  lemma {:induction false} HexRoundTrip(bs: seq<bv8>)
    ensures HexDecode(HexEncode(bs)) == bs
  {
    var s := HexEncode(bs);
    if |bs| > 0 {
      HexRoundTrip(bs[1..]);
      assert s[2..] == HexEncode(bs[1..]);
      assert s[..2] == HexPair(bs[0]);
      HexPairDecodes(bs[0]);
      assert bs == [bs[0]] + bs[1..];
    }
  }

  /** `uuid4_str`, with the 16 bytes `rand.Read` would produce as input:
      32 lowercase hex digits, two per byte, whose digit 12 is '4' (the
      version) and whose digit 16 is one of '8', '9', 'a', 'b' (the
      variant), decoding to the random bytes with those fields stamped. */
  function Uuid4String(random: seq<bv8>): (s: string)
    requires |random| == 16
    ensures |s| == 32 && AllHex(s)
    ensures s[12] == '4'
    ensures s[16] in "89ab"
    ensures HexDecode(s) == Stamp(random)
  {
    var u := Stamp(random);
    var s := HexEncode(u);
    HexRoundTrip(u);
    assert s[12..14] == HexPair(u[6]);
    assert s[16..18] == HexPair(u[8]);
    VariantDigit(u[8]);
    s
  }

  lemma VariantDigit(b: bv8)
    requires b >> 6 == 2
    ensures HexPair(b)[0] in "89ab"
  {
    var n := (b >> 4) as int;
    assert 8 <= n < 12;
    assert HexPair(b)[0] == HexDigit(n);
  }

  // ---------------------------------------------------------------------
  // Levels
  // ---------------------------------------------------------------------

  /** `LogLevel` is a `uint8`. */
  type LogLevel = n: int | 0 <= n < 256

  const FATAL: LogLevel := 1
  const ERROR: LogLevel := 2
  const WARNING: LogLevel := 3
  const INFO: LogLevel := 4
  const DEBUG: LogLevel := 5

  /** `LogLevel.MarshalJSON`: the quoted level name, with every value
      outside 1 .. 5 reported as "error". */
  function LevelJson(level: LogLevel): (s: string)
    ensures 2 <= |s| && s[0] == '"' && s[|s| - 1] == '"'
    ensures level == ERROR || !(1 <= level <= 5) ==> s == "\"error\""
  {
    match level
    case 1 => "\"fatal\""
    case 2 => "\"error\""
    case 3 => "\"warning\""
    case 4 => "\"info\""
    case 5 => "\"debug\""
    case _ => "\"error\""
  }

  /** Reading a level name back: one of the five names gives its level,
      any other text gives nothing. */
  function LevelOfJson(s: string): (r: Option<LogLevel>)
    ensures r.Some? ==> 1 <= r.value <= 5 && LevelJson(r.value) == s
  {
    if s == "\"fatal\"" then Some(FATAL)
    else if s == "\"error\"" then Some(ERROR)
    else if s == "\"warning\"" then Some(WARNING)
    else if s == "\"info\"" then Some(INFO)
    else if s == "\"debug\"" then Some(DEBUG)
    else None
  }

  /** The five named levels get five different names, each read back as
      the level; any other value is written as the name of `ERROR`. */
  lemma LevelJsonRoundTrip(level: LogLevel)
    ensures LevelOfJson(LevelJson(level)) == Some(if 1 <= level <= 5 then level else ERROR)
  {
  }

  // ---------------------------------------------------------------------
  // Tags and copying
  // ---------------------------------------------------------------------

  /** One `[2]string` tag. */
  datatype Tag = Tag(key: string, value: string)

  /** `Tags.Add`: one more tag at the end, the earlier tags untouched. */
  function AddTag(tags: seq<Tag>, key: string, value: string): (r: seq<Tag>)
    ensures |r| == |tags| + 1
    ensures r[..|tags|] == tags
    ensures r[|tags|] == Tag(key, value)
  {
    tags + [Tag(key, value)]
  }

  /** The packet fields that are plain values. `Extra` maps to arbitrary
      values in the source; here each value is its text. The stack trace
      frames are not part of this model. */
  datatype Packet = Packet(
    eventId: string,
    message: string,
    timestamp: int,
    level: LogLevel,
    logger: string,
    platform: string,
    culprit: string,
    tags: seq<Tag>,
    serverName: string,
    modules: seq<map<string, string>>,
    extra: map<string, string>)

  /** `Packet.copy`: every field copied, the tags element by element into
      a new slice. */
  method Copy(p: Packet) returns (q: Packet)
    ensures q == p
  {
    var tags: seq<Tag> := [];
    var i := 0;
    while i < |p.tags|
      invariant 0 <= i <= |p.tags|
      invariant tags == p.tags[..i]
    {
      tags := tags + [p.tags[i]];
      i := i + 1;
    }
    assert p.tags[..|p.tags|] == p.tags;
    q := p.(tags := tags);
  }
}
