/** Stack traces (errors/stack.go): cutting a stack with `Skip` and
    `Limit`, the windows of source lines recorded around a frame's line,
    and the split of a runtime function name into package path and
    function. Capturing the stack, reading files and rendering text are
    not modelled. */
module ErrorStack {
  import opened Seqs

  /** One frame (`StackFrame`). */
  datatype Frame = Frame(
    pc: nat,
    pkgPath: string,
    funcName: string,
    filepath: string,
    filename: string,
    line: int,
    inApp: bool,
    hasContext: bool,
    preContext: seq<string>,
    contextLine: string,
    postContext: seq<string>)

  type Stack = seq<Frame>

  // ---------------------------------------------------------------------
  // Skip and Limit
  // ---------------------------------------------------------------------

  /** `Skip(n)`: the frames after the first `n`, none when there are no
      more than `n`. A negative `n` is a slice-bounds panic in the source,
      hence `nat`. */
  function Skip(s: Stack, n: nat): (r: Stack)
    ensures |r| == if |s| <= n then 0 else |s| - n
    ensures forall i :: 0 <= i < |r| ==> r[i] == s[n + i]
  {
    if |s| <= n then [] else s[n..]
  }

  /** `Limit(n)`: the first `n` frames, or all of them when there are no
      more than `n`. */
  function Limit(s: Stack, n: nat): (r: Stack)
    ensures |r| == if |s| <= n then |s| else n
    ensures r == s[..|r|]
  {
    if |s| <= n then s else s[..n]
  }

  /** `Limit` and `Skip` at the same point split the stack in two. */
  lemma LimitThenSkip(s: Stack, n: nat)
    ensures Limit(s, n) + Skip(s, n) == s
  {
    if n < |s| {
      assert s == s[..n] + s[n..];
    }
  }

  /** Skipping twice skips the sum. */
  lemma SkipSkip(s: Stack, a: nat, b: nat)
    ensures Skip(Skip(s, a), b) == Skip(s, a + b)
  {
    if a + b < |s| {
      assert Skip(s, a)[b..] == s[a + b..];
    }
  }

  /** Limiting twice limits to the smaller bound. */
  lemma LimitLimit(s: Stack, a: nat, b: nat)
    ensures Limit(Limit(s, a), b) == Limit(s, if a <= b then a else b)
  {
  }

  // ---------------------------------------------------------------------
  // Source lines around a frame
  // ---------------------------------------------------------------------

  /** `source`: the line at index `n`, if there is one. */
  function Source(lines: seq<string>, n: int): (r: Option<string>)
    ensures r.Some? <==> 0 <= n < |lines|
    ensures r.Some? ==> r.value == lines[n]
  {
    if n < 0 || n >= |lines| then None else Some(lines[n])
  }

  /** `context_line`: the line at `n`, or the empty text when `n` is out of
      range (the source converts a nil slice to ""). */
  function ContextLine(lines: seq<string>, n: int): (r: string)
    ensures 0 <= n < |lines| ==> r == lines[n]
    ensures !(0 <= n < |lines|) ==> r == ""
  {
    match Source(lines, n)
    case None => ""
    case Some(l) => l
  }

  /** `x` clamped to the valid slice bounds 0 .. len. */
  function Clamp(x: int, len: nat): (r: nat)
    ensures r <= len
    ensures 0 <= x <= len ==> r == x
  {
    if x < 0 then 0 else if x > len then len else x
  }

  lemma ClampMonotone(x: int, y: int, len: nat)
    requires x <= y
    ensures Clamp(x, len) <= Clamp(y, len) <= Clamp(x, len) + (y - x)
  {
  }

  /** `pre_context`: the lines with index in [n - context, n) that exist,
      in order, so at most `context` lines and all before line `n`. */
  method PreContext(lines: seq<string>, n: int, context: nat) returns (pre: seq<string>)
    ensures Clamp(n - context, |lines|) <= Clamp(n, |lines|)
    ensures pre == lines[Clamp(n - context, |lines|)..Clamp(n, |lines|)]
    ensures |pre| <= context
  {
    ClampMonotone(n - context, n, |lines|);
    var lo := Clamp(n - context, |lines|);
    var i := n - context;
    if i < 0 {
      i := 0;
    }
    if i == n {
      return [];
    }
    pre := [];
    while i < n
      invariant 0 <= i && (n - context <= i) && (i <= n || i == 0)
      invariant lo <= Clamp(i, |lines|)
      invariant pre == lines[lo..Clamp(i, |lines|)]
      decreases n - i
    {
      var l := Source(lines, i);
      if l.Some? {
        assert lines[lo..i + 1] == lines[lo..i] + [lines[i]];
        pre := pre + [l.value];
      }
      i := i + 1;
    }
  }

  /** `post_context`: the lines with index in (n, n + context] that exist,
      in order, so at most `context` lines and all after line `n`. */
  method PostContext(lines: seq<string>, n: int, context: nat) returns (post: seq<string>)
    ensures Clamp(n + 1, |lines|) <= Clamp(n + context + 1, |lines|)
    ensures post == lines[Clamp(n + 1, |lines|)..Clamp(n + context + 1, |lines|)]
    ensures |post| <= context
  {
    ClampMonotone(n + 1, n + context + 1, |lines|);
    var lo, hi := Clamp(n + 1, |lines|), Clamp(n + context + 1, |lines|);
    var i := n + context + 1;
    if i > |lines| {
      i := |lines|;
    }
    if i == n {
      return [];
    }
    var j := n + 1;
    post := [];
    while j < i
      invariant n + 1 <= j && (j <= i || j == n + 1)
      invariant lo <= Clamp(j, |lines|)
      invariant post == lines[lo..Clamp(j, |lines|)]
      decreases i - j
    {
      var l := Source(lines, j);
      if l.Some? {
        assert lines[lo..j + 1] == lines[lo..j] + [lines[j]];
        post := post + [l.value];
      }
      j := j + 1;
    }
    assert Clamp(j, |lines|) == hi;
  }

  // ---------------------------------------------------------------------
  // Function names
  // ---------------------------------------------------------------------

  /** `strings.LastIndex` for one character: -1 when absent. */
  function LastIndexOf(s: string, c: char): (i: int)
    ensures -1 <= i < |s|
    ensures i == -1 <==> c !in s
    ensures 0 <= i ==> s[i] == c && forall j :: i < j < |s| ==> s[j] != c
  {
    if |s| == 0 then -1
    else if s[|s| - 1] == c then |s| - 1
    else
      var i := LastIndexOf(s[..|s| - 1], c);
      assert s == s[..|s| - 1] + [s[|s| - 1]];
      i
  }

  /** `strings.Index` for one character: -1 when absent. */
  function IndexOf(s: string, c: char): (i: int)
    ensures -1 <= i < |s|
    ensures i == -1 <==> c !in s
    ensures 0 <= i ==> s[i] == c && forall j :: 0 <= j < i ==> s[j] != c
  {
    if |s| == 0 then -1
    else if s[0] == c then 0
    else
      var i := IndexOf(s[1..], c);
      assert s == [s[0]] + s[1..];
      if i == -1 then -1 else i + 1
  }

  /** `function`: splits a runtime function name at the first '.' after
      the last '/' into (package path, function). Without such a dot the
      text before the last '/' becomes the package; with neither a '/' nor
      a '.' the source slices at -1 and panics (`None`). */
  function SplitFunctionName(fname: string): (r: Option<(string, string)>)
    ensures r.None? <==> '/' !in fname && '.' !in fname
  {
    var slash := LastIndexOf(fname, '/');
    SplitAt(fname, slash, IndexOf(fname[slash + 1..], '.'))
  }

  /** The slicing of `function` once both indices are known. */
  function SplitAt(fname: string, slash: int, dot: int): Option<(string, string)>
    requires -1 <= slash < |fname| && -1 <= dot < |fname| - slash - 1
  {
    if slash + 1 + dot < 0 then None
    else Some((fname[..slash + 1 + dot], fname[slash + dot + 2..]))
  }

  /** `LastIndexOf` is determined by its contract. */
  lemma LastIndexUnique(s: string, c: char, i: int)
    requires (i == -1 && c !in s) || (0 <= i < |s| && s[i] == c && forall j :: i < j < |s| ==> s[j] != c)
    ensures LastIndexOf(s, c) == i
  {
  }

  /** The last path segment of a package path holds no '.'. */
  ghost predicate PlainLastSegment(p: string) {
    forall k :: LastIndexOf(p, '/') < k < |p| ==> p[k] != '.'
  }

  /** When the name has a '.' after its last '/', the split puts it back
      together: package + "." + function is the name, the function holds
      no '/', and the package's last segment holds no '.'. */
  lemma SplitRejoins(fname: string)
    requires '.' in fname[LastIndexOf(fname, '/') + 1..]
    ensures SplitFunctionName(fname).Some?
    ensures var (p, f) := SplitFunctionName(fname).value;
            p + "." + f == fname && '/' !in f && PlainLastSegment(p)
  {
    var slash := LastIndexOf(fname, '/');
    var dot := IndexOf(fname[slash + 1..], '.');
    SplitFunctionNameAt(fname, slash, dot);
    FirstDotAfter(fname, slash, dot);
    RejoinAt(fname, slash, dot);
  }

  /** `function` is the slicing at the last '/' and the first '.' after it. */
  lemma SplitFunctionNameAt(fname: string, slash: int, dot: int)
    requires LastIndexOf(fname, '/') == slash && IndexOf(fname[slash + 1..], '.') == dot
    ensures -1 <= slash < |fname| && -1 <= dot < |fname| - slash - 1
    ensures SplitFunctionName(fname) == SplitAt(fname, slash, dot)
  {
  }

  /** The slicing at the last '/' and the first '.' after it puts the
      name back together. */
  lemma RejoinAt(fname: string, slash: int, dot: int)
    requires -1 <= slash < |fname| && 0 <= dot < |fname| - slash - 1
    requires slash == -1 ==> '/' !in fname
    requires 0 <= slash ==> fname[slash] == '/'
    requires forall j :: slash < j < |fname| ==> fname[j] != '/'
    requires fname[slash + 1 + dot] == '.'
    requires forall j :: slash < j < slash + 1 + dot ==> fname[j] != '.'
    ensures SplitAt(fname, slash, dot) == Some((fname[..slash + 1 + dot], fname[slash + dot + 2..]))
    ensures var p, f := fname[..slash + 1 + dot], fname[slash + dot + 2..];
            p + "." + f == fname && '/' !in f && PlainLastSegment(p)
  {
    SplitParts(fname, slash, dot);
    LastIndexUnique(fname[..slash + 1 + dot], '/', slash);
  }

  /** The first '.' after position `slash`, read off the tail. */
  lemma FirstDotAfter(fname: string, slash: int, dot: int)
    requires -1 <= slash < |fname| && dot == IndexOf(fname[slash + 1..], '.') && 0 <= dot
    ensures slash + 1 + dot < |fname| && fname[slash + 1 + dot] == '.'
    ensures forall j :: slash < j < slash + 1 + dot ==> fname[j] != '.'
  {
    var tail := fname[slash + 1..];
    forall j | slash < j < slash + 1 + dot ensures fname[j] != '.' {
      assert fname[j] == tail[j - slash - 1];
    }
    assert fname[slash + 1 + dot] == tail[dot];
  }

  /** The parts at the last '/' and the first '.' after it. */
  lemma SplitParts(fname: string, slash: int, dot: int)
    requires -1 <= slash < |fname| && 0 <= dot < |fname| - slash - 1
    requires slash == -1 ==> '/' !in fname
    requires 0 <= slash ==> fname[slash] == '/'
    requires forall j :: slash < j < |fname| ==> fname[j] != '/'
    requires fname[slash + 1 + dot] == '.'
    requires forall j :: slash < j < slash + 1 + dot ==> fname[j] != '.'
    ensures var p, f := fname[..slash + 1 + dot], fname[slash + dot + 2..];
            && p + "." + f == fname && '/' !in f
            && (slash == -1 ==> '/' !in p)
            && (0 <= slash ==> slash < |p| && p[slash] == '/')
            && (forall j :: slash < j < |p| ==> p[j] != '/' && p[j] != '.')
  {
    var p, f := fname[..slash + 1 + dot], fname[slash + dot + 2..];
    assert fname == p + [fname[slash + 1 + dot]] + f;
    forall k | 0 <= k < |f| ensures f[k] != '/' {
      assert f[k] == fname[slash + dot + 2 + k];
    }
    forall j | slash < j < |p| ensures p[j] != '/' && p[j] != '.' {
      assert p[j] == fname[j];
    }
  }

  /** The split is the only one with those properties: any name written as
      package + "." + function, with no '/' in the function and no '.' in
      the package's last segment, is split back into exactly those parts. */
  lemma SplitUnique(p: string, f: string)
    requires '/' !in f && PlainLastSegment(p)
    ensures SplitFunctionName(p + "." + f) == Some((p, f))
  {
    SplitJoinedAt(p, f, LastIndexOf(p, '/'));
  }

  /** The same, with the package's last '/' given as `q`. */
  lemma SplitJoinedAt(p: string, f: string, q: int)
    requires '/' !in f && -1 <= q < |p|
    requires q == -1 ==> '/' !in p
    requires 0 <= q ==> p[q] == '/'
    requires forall j :: q < j < |p| ==> p[j] != '/' && p[j] != '.'
    ensures SplitFunctionName(p + "." + f) == Some((p, f))
  {
    JoinedLastSlash(p, f, q);
    JoinedFirstDot(p, f, q);
    SplitFunctionNameAt(p + "." + f, q, |p| - q - 1);
    SplitAtJoined(p, f, q);
  }

  lemma SplitAtJoined(p: string, f: string, q: int)
    requires -1 <= q < |p|
    ensures SplitAt(p + "." + f, q, |p| - q - 1) == Some((p, f))
  {
    var fname := p + "." + f;
    assert fname[..|p|] == p && fname[|p| + 1..] == f;
  }

  lemma JoinedLastSlash(p: string, f: string, q: int)
    requires '/' !in f && -1 <= q < |p|
    requires q == -1 ==> '/' !in p
    requires 0 <= q ==> p[q] == '/'
    requires forall j :: q < j < |p| ==> p[j] != '/'
    ensures LastIndexOf(p + "." + f, '/') == q
  {
    var fname := p + "." + f;
    forall j | q < j < |fname| ensures fname[j] != '/' {
      if j > |p| {
        assert fname[j] == f[j - |p| - 1];
      }
    }
    if q == -1 {
      assert '/' !in fname by {
        forall j | 0 <= j < |fname| ensures fname[j] != '/' {
        }
      }
    }
    LastIndexUnique(fname, '/', q);
  }

  lemma JoinedFirstDot(p: string, f: string, q: int)
    requires -1 <= q < |p|
    requires forall j :: q < j < |p| ==> p[j] != '.'
    ensures IndexOf((p + "." + f)[q + 1..], '.') == |p| - q - 1
  {
    var tail := (p + "." + f)[q + 1..];
    forall j | 0 <= j < |p| - q - 1 ensures tail[j] != '.' {
      assert tail[j] == p[q + 1 + j];
    }
    assert tail[|p| - q - 1] == '.';
    IndexUnique(tail, '.', |p| - q - 1);
  }

  /** `IndexOf` is determined by its contract. */
  lemma IndexUnique(s: string, c: char, i: int)
    requires 0 <= i < |s| && s[i] == c && forall j :: 0 <= j < i ==> s[j] != c
    ensures IndexOf(s, c) == i
  {
  }
}
