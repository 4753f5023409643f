/** Log levels (log/interface.go), their one-letter codes (log/format.go)
    and the one-record log line the heroku build writes
    (log/format_heroku.go): `[C] namespace: message` plus a newline, the
    message trimmed of surrounding white space and every line after its
    first indented by two spaces, so that a record never spills into
    something that looks like the start of another record. Text is a
    sequence of Unicode code points. */
module LogFormat {

  // ---------------------------------------------------------------------
  // Levels and codes
  // ---------------------------------------------------------------------

  /** `Level` is a `uint8`. */
  type Level = n: int | 0 <= n < 256

  const DEFAULT: Level := 0
  const DEBUG: Level := 2
  const INFO: Level := 4
  const NOTICE: Level := 8
  const WARN: Level := 16
  const ERROR: Level := 32
  const FATAL: Level := 64
  const UNKNOWN: Level := 128

  /** The named levels after DEFAULT, in declaration order. */
  const Named: seq<Level> := [DEBUG, INFO, NOTICE, WARN, ERROR, FATAL, UNKNOWN]

  function Pow2(k: nat): nat {
    if k == 0 then 1 else 2 * Pow2(k - 1)
  }

  /** The constants are `1 << iota` with `iota` starting at 1 on DEBUG, so
      they are distinct powers of two above DEFAULT and increase in
      declaration order. */
  lemma LevelsIncrease()
    ensures forall i :: 0 <= i < |Named| ==> Named[i] == Pow2(i + 1)
    ensures DEFAULT < Named[0]
    ensures forall i, j :: 0 <= i < j < |Named| ==> Named[i] < Named[j]
  {
    assert Pow2(1) == 2 && Pow2(2) == 4 && Pow2(3) == 8 && Pow2(4) == 16;
    assert Pow2(5) == 32 && Pow2(6) == 64 && Pow2(7) == 128;
  }

  /** `level_codes`. */
  const LevelCodes: map<Level, char> :=
    map[DEBUG := 'D', INFO := 'I', NOTICE := 'N', WARN := 'W',
        ERROR := 'E', FATAL := 'F', UNKNOWN := 'U']

  /** The code `format` prints: the table's entry, and for a level the table
      does not hold (a missing key reads as 0) the entry of UNKNOWN. The
      code is 'U' exactly for UNKNOWN and the levels outside the table,
      DEFAULT among them. */
  function Code(level: Level): (c: char)
    ensures c in LevelCodes.Values
    ensures c == 'U' <==> level !in {DEBUG, INFO, NOTICE, WARN, ERROR, FATAL}
  {
    var code := if level in LevelCodes then LevelCodes[level] else 0 as char;
    if code == 0 as char then LevelCodes[UNKNOWN] else code
  }

  /** The seven codes are pairwise distinct: a code names its level. */
  lemma CodeIdentifiesLevel(a: Level, b: Level)
    requires a in LevelCodes && b in LevelCodes
    requires Code(a) == Code(b)
    ensures a == b
  {
  }

  // ---------------------------------------------------------------------
  // White space
  // ---------------------------------------------------------------------

  /** `unicode.IsSpace`: the ASCII white space '\t', '\n', '\v', '\f',
      '\r', ' ', then U+0085, U+00A0 and the other code points with the
      Unicode White_Space property. */
  predicate IsSpace(c: char) {
    c == ' ' || '\t' <= c <= '\r'
    || c as int == 0x85 || c as int == 0xA0 || c as int == 0x1680
    || 0x2000 <= c as int <= 0x200A || c as int == 0x2028 || c as int == 0x2029
    || c as int == 0x202F || c as int == 0x205F || c as int == 0x3000
  }

  predicate AllSpace(s: string) {
    forall i :: 0 <= i < |s| ==> IsSpace(s[i])
  }

  /** Text that neither starts nor ends with white space. */
  predicate Bare(s: string) {
    |s| == 0 || (!IsSpace(s[0]) && !IsSpace(s[|s| - 1]))
  }

  function TrimLeft(s: string): (r: string)
    ensures |r| <= |s| && r == s[|s| - |r|..]
    ensures AllSpace(s[..|s| - |r|])
    ensures |r| == 0 || !IsSpace(r[0])
    decreases |s|
  {
    if |s| > 0 && IsSpace(s[0]) then
      var r := TrimLeft(s[1..]);
      assert s[1..][|s| - 1 - |r|..] == s[|s| - |r|..];
      forall i | 1 <= i < |s| - |r| ensures IsSpace(s[i]) {
        assert s[i] == s[1..][..|s| - 1 - |r|][i - 1];
      }
      r
    else s
  }

  function TrimRight(s: string): (r: string)
    ensures |r| <= |s| && r == s[..|r|]
    ensures AllSpace(s[|r|..])
    ensures |r| == 0 || !IsSpace(r[|r| - 1])
    decreases |s|
  {
    if |s| > 0 && IsSpace(s[|s| - 1]) then
      var r := TrimRight(s[..|s| - 1]);
      assert s[..|s| - 1][..|r|] == s[..|r|];
      forall i | |r| <= i < |s| - 1 ensures IsSpace(s[i]) {
        assert s[i] == s[..|s| - 1][|r|..][i - |r|];
      }
      r
    else s
  }

  /** `strings.TrimSpace`: what is left neither starts nor ends with white
      space; `TrimSplits` shows it is what lies between the leading and
      the trailing white space. */
  function TrimSpace(s: string): (r: string)
    ensures |r| <= |s| && Bare(r)
  {
    TrimRight(TrimLeft(s))
  }

  /** The text splits into leading white space, the trimmed text and
      trailing white space. */
  lemma TrimSplits(s: string) returns (a: string, b: string)
    ensures s == a + TrimSpace(s) + b
    ensures AllSpace(a) && AllSpace(b)
  {
    var l := TrimLeft(s);
    var r := TrimRight(l);
    a, b := s[..|s| - |l|], l[|r|..];
    assert TrimSpace(s) == r;
    Sandwich(s, l, r, |s| - |l|);
  }

  /** A sequence is its first `k` elements, then a prefix `r` of the rest,
      then what follows `r`. */
  lemma Sandwich<T>(s: seq<T>, l: seq<T>, r: seq<T>, k: nat)
    requires k <= |s| && l == s[k..] && |r| <= |l| && r == l[..|r|]
    ensures s == s[..k] + r + l[|r|..]
  {
    assert s == s[..k] + l;
    assert l == r + l[|r|..];
  }

  /** Conversely, white space around bare text is all `TrimSpace` removes:
      the trimmed text is determined. */
  lemma TrimUnique(a: string, t: string, b: string)
    requires AllSpace(a) && AllSpace(b) && Bare(t)
    ensures TrimSpace(a + t + b) == t
  {
    if |t| == 0 {
      assert a + t + b == a + b;
      TrimLeftSkips(a + b, "");
      assert a + b + "" == a + b;
    } else {
      assert a + t + b == a + (t + b);
      TrimLeftSkips(a, t + b);
      TrimRightSkips(t, b);
    }
  }

  lemma {:induction false} TrimLeftSkips(a: string, x: string)
    requires AllSpace(a)
    requires |x| == 0 || !IsSpace(x[0])
    ensures TrimLeft(a + x) == x
    decreases |a|
  {
    if |a| > 0 {
      assert (a + x)[1..] == a[1..] + x;
      TrimLeftSkips(a[1..], x);
    } else {
      assert a + x == x;
    }
  }

  lemma {:induction false} TrimRightSkips(x: string, b: string)
    requires AllSpace(b)
    requires |x| == 0 || !IsSpace(x[|x| - 1])
    ensures TrimRight(x + b) == x
    decreases |b|
  {
    if |b| > 0 {
      var c := b[..|b| - 1];
      assert (x + b)[..|x + b| - 1] == x + c;
      TrimRightSkips(x, c);
    } else {
      assert x + b == x;
    }
  }

  /** Trimming twice trims nothing more. */
  lemma TrimIdempotent(s: string)
    ensures TrimSpace(TrimSpace(s)) == TrimSpace(s)
  {
    BareUntouched(TrimSpace(s));
  }

  /** Text with no white space at either end is left as it is by both
      trims. */
  lemma BareUntouched(t: string)
    requires Bare(t)
    ensures TrimLeft(t) == t && TrimRight(t) == t
  {
    assert "" + t == t;
    TrimLeftSkips("", t);
    assert t + "" == t;
    TrimRightSkips(t, "");
  }

  // ---------------------------------------------------------------------
  // Indentation
  // ---------------------------------------------------------------------

  /** Text without a newline. */
  predicate OneLine(s: string) {
    forall i :: 0 <= i < |s| ==> s[i] != '\n'
  }

  /** Every newline is followed by (at least) two spaces. */
  predicate Indented(s: string) {
    (forall i :: 0 <= i < |s| && s[i] == '\n' ==> i + 2 < |s|)
    && (forall i, j :: 0 <= i < j <= i + 2 && j < |s| && s[i] == '\n' ==> s[j] == ' ')
  }

  /** `strings.Replace(s, "\n", "\n  ", -1)`. */
  function Indent(s: string): (r: string)
    ensures Indented(r)
    ensures |s| == 0 <==> |r| == 0
    ensures |s| > 0 ==> r[0] == s[0]
    ensures |s| > 0 && s[|s| - 1] != '\n' ==> r[|r| - 1] == s[|s| - 1]
    decreases |s|
  {
    if |s| == 0 then ""
    else
      var rest := Indent(s[1..]);
      var head := Piece(s[0]);
      IndentedConcat(head, rest);
      head + rest
  }

  lemma IndentedConcat(a: string, b: string)
    requires Indented(a) && Indented(b)
    ensures Indented(a + b)
  {
    var s := a + b;
    forall i | 0 <= i < |s| && s[i] == '\n'
      ensures i + 2 < |s|
    {
      if i >= |a| {
        assert b[i - |a|] == '\n';
      }
    }
    forall i, j | 0 <= i < j <= i + 2 && j < |s| && s[i] == '\n'
      ensures s[j] == ' '
    {
      if i >= |a| {
        assert b[i - |a|] == '\n';
        assert s[j] == b[j - |a|];
      } else {
        assert a[i] == '\n';
        assert s[j] == a[j];
      }
    }
  }

  /** Replacing "\n  " by "\n", left to right: undoes `Indent`. */
  function Unindent(s: string): string
    decreases |s|
  {
    if |s| == 0 then ""
    else if |s| >= 3 && s[..3] == "\n  " then "\n" + Unindent(s[3..])
    else [s[0]] + Unindent(s[1..])
  }

  lemma {:induction false} IndentRoundTrip(s: string)
    ensures Unindent(Indent(s)) == s
    decreases |s|
  {
    if |s| > 0 {
      var x := Indent(s[1..]);
      IndentRoundTrip(s[1..]);
      IndentCons(s);
      if s[0] == '\n' {
        UnindentNewline(x);
      } else {
        UnindentOther(s[0], x);
      }
      assert s == [s[0]] + s[1..];
    }
  }

  /** What one character becomes. */
  function Piece(c: char): string {
    if c == '\n' then "\n  " else [c]
  }

  lemma IndentCons(s: string)
    requires |s| > 0
    ensures Indent(s) == Piece(s[0]) + Indent(s[1..])
  {
  }

  lemma UnindentNewline(x: string)
    ensures Unindent("\n  " + x) == "\n" + Unindent(x)
  {
    var s := "\n  " + x;
    assert s[..3] == "\n  " && s[3..] == x;
  }

  lemma UnindentOther(c: char, x: string)
    requires c != '\n'
    ensures Unindent([c] + x) == [c] + Unindent(x)
  {
    var s := [c] + x;
    assert s[1..] == x;
    assert s[0] != '\n';
    assert !(|s| >= 3 && s[..3] == "\n  ");
  }

  lemma {:induction false} IndentConcat(a: string, b: string)
    ensures Indent(a + b) == Indent(a) + Indent(b)
    decreases |a|
  {
    if |a| > 0 {
      assert (a + b)[1..] == a[1..] + b;
      IndentConcat(a[1..], b);
    } else {
      assert a + b == b;
    }
  }

  lemma {:induction false} IndentSpace(s: string)
    requires AllSpace(s)
    ensures AllSpace(Indent(s))
    decreases |s|
  {
    if |s| > 0 {
      IndentSpace(s[1..]);
    }
  }

  /** Indenting then trimming is trimming then indenting: the added spaces
      only ever follow a newline, and the trimmed text does not end in
      one. */
  lemma TrimIndentCommute(s: string)
    ensures TrimSpace(Indent(s)) == Indent(TrimSpace(s))
  {
    var a, b := TrimSplits(s);
    var t := TrimSpace(s);
    IndentThree(a, t, b);
    IndentSpace(a);
    IndentSpace(b);
    IndentBare(t);
    TrimUnique(Indent(a), Indent(t), Indent(b));
  }

  lemma IndentThree(a: string, t: string, b: string)
    ensures Indent(a + t + b) == Indent(a) + Indent(t) + Indent(b)
  {
    IndentConcat(a, t + b);
    IndentConcat(t, b);
    Associative(a, t, b);
    Associative(Indent(a), Indent(t), Indent(b));
  }

  lemma Associative<T>(x: seq<T>, y: seq<T>, z: seq<T>)
    ensures x + (y + z) == x + y + z
  {
  }

  lemma IndentBare(t: string)
    requires Bare(t)
    ensures Bare(Indent(t))
  {
    if |t| > 0 {
      assert t[|t| - 1] != '\n';
    }
  }

  lemma NoNewlineIndented(x: string)
    requires OneLine(x)
    ensures Indented(x)
  {
  }

  lemma OneLineThenIndented(h: string, b: string)
    requires OneLine(h) && Indented(b)
    ensures Indented(h + b)
  {
    NoNewlineIndented(h);
    IndentedConcat(h, b);
  }

  // ---------------------------------------------------------------------
  // The record
  // ---------------------------------------------------------------------

  /** The `[C] ` head of a record. */
  function Head(level: Level): (h: string)
    ensures |h| == 4 && h[3] == ' '
  {
    ['[', Code(level), ']', ' ']
  }

  /** The text between the head and the final newline. */
  function Tag(namespace: string): (g: string)
    ensures g == "" || g[|g| - 1] == ' '
  {
    if namespace == "" then "" else namespace + ": "
  }

  /** `logger.format` of the heroku build. The record is the head, then
      `namespace: ` only when there is a namespace, then the trimmed
      message with its later lines indented, then one newline; the record
      never ends in a blank line. */
  function Format(level: Level, namespace: string, msg: string): (line: string)
    ensures |line| >= 5 && line[..4] == Head(level)
    ensures line[|line| - 1] == '\n' && line[|line| - 2] != '\n'
    ensures namespace == "" ==> line[4..|line| - 1] == Indent(TrimSpace(msg))
    ensures namespace != "" ==>
      line[4..|line| - 1] == namespace + ": " + Indent(TrimSpace(msg))
  {
    var h, g, body := Head(level), Tag(namespace), Body(msg);
    RecordShape(h, g, body);
    h + g + body + "\n"
  }

  /** The message as it appears in the record: indented, then trimmed,
      which is the same as trimmed, then indented. */
  function Body(msg: string): (b: string)
    ensures b == Indent(TrimSpace(msg)) && Bare(b)
  {
    TrimIndentCommute(msg);
    TrimSpace(Indent(msg))
  }

  lemma HeadOneLine(level: Level, namespace: string)
    requires OneLine(namespace)
    ensures OneLine(Head(level) + Tag(namespace))
  {
    assert Code(level) in LevelCodes.Values;
    assert Code(level) != '\n';
  }

  /** The layout facts `Format` relies on, over abstract parts. */
  lemma RecordShape(h: string, g: string, b: string)
    requires |h| == 4 && h[3] == ' ' && (g == "" || g[|g| - 1] == ' ') && Bare(b)
    ensures var line := h + g + b + "\n";
      line[..4] == h && line[|line| - 1] == '\n' && line[|line| - 2] != '\n'
      && line[4..|line| - 1] == g + b
  {
    var line := h + g + b + "\n";
    if |b| > 0 {
      assert line[|line| - 2] == b[|b| - 1];
    } else if |g| > 0 {
      assert line[|line| - 2] == g[|g| - 1];
    } else {
      assert line[|line| - 2] == h[3];
    }
    assert line[4..|line| - 1] == g + b;
  }

  /** A record without its final newline is its head, tag and body. */
  lemma DropLast(line: string, h: string, g: string, b: string)
    requires |line| >= 5 && line[..4] == h && line[4..|line| - 1] == g + b
    ensures line[..|line| - 1] == h + g + b
  {
    assert line[..|line| - 1] == line[..4] + line[4..|line| - 1];
  }

  /** Where the message starts in a record. */
  function BodyStart(namespace: string): nat {
    4 + |Tag(namespace)|
  }

  /** The record gives the message back: removing the indentation from the
      text after the head and namespace yields the message trimmed. */
  lemma FormatRecoversMessage(level: Level, namespace: string, msg: string)
    ensures BodyStart(namespace) < |Format(level, namespace, msg)|
    ensures Unindent(Format(level, namespace, msg)[BodyStart(namespace)..|Format(level, namespace, msg)| - 1])
      == TrimSpace(msg)
  {
    var line := Format(level, namespace, msg);
    var k := BodyStart(namespace);
    assert line[k..|line| - 1] == line[4..|line| - 1][|Tag(namespace)|..];
    IndentRoundTrip(TrimSpace(msg));
  }

  /** With a namespace free of newlines, every newline of a record but the
      last is followed by two spaces: continuation lines never start with
      '[' and cannot be read as records of their own. */
  lemma FormatContinuationsIndented(level: Level, namespace: string, msg: string)
    requires OneLine(namespace)
    ensures Indented(Format(level, namespace, msg)[..|Format(level, namespace, msg)| - 1])
  {
    var line := Format(level, namespace, msg);
    var head := Head(level) + Tag(namespace);
    var body := Body(msg);
    assert OneLine(head) by {
      HeadOneLine(level, namespace);
    }
    assert line[..|line| - 1] == head + body by {
      DropLast(line, Head(level), Tag(namespace), body);
    }
    OneLineThenIndented(head, body);
  }
}
