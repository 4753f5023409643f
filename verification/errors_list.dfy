/** Error lists (errors/list.go): a `List` is a slice of errors that is
    itself an error. Adding flattens one level of nesting and drops nil
    members, the message joins the member messages with newlines, and the
    JSON form is `null` for an empty list. */
module ErrorList {
  import opened Seqs

  /** A Go `error` value as far as the list code can tell them apart: the
      nil interface, an error that is also a `json.Marshaler` (its message
      and the JSON it marshals to), a plain error, or a `List`. */
  datatype Err =
    | Nil
    | Plain(msg: string)
    | Marshaling(msg: string, json: string)
    | ErrList(items: seq<Err>)

  /** Asking a nil error for its message panics; so does asking a list
      holding one, at any depth. */
  predicate NilFree(e: Err)
    decreases e
  {
    match e
    case Nil => false
    case ErrList(items) => forall i :: 0 <= i < |items| ==> NilFree(items[i])
    case _ => true
  }

  predicate AllNilFree(l: seq<Err>) {
    forall i :: 0 <= i < |l| ==> NilFree(l[i])
  }

  // ---------------------------------------------------------------------
  // HasErrors, Normalize
  // ---------------------------------------------------------------------

  function HasErrors(l: seq<Err>): (b: bool)
    ensures b <==> 0 < |l|
  {
    |l| > 0
  }

  /** `Normalize`: the list as an error, or nil when it is empty. */
  function Normalize(l: seq<Err>): (r: Err)
    ensures r == Nil <==> !HasErrors(l)
    ensures r != Nil ==> r == ErrList(l)
  {
    if HasErrors(l) then ErrList(l) else Nil
  }

  // ---------------------------------------------------------------------
  // Add
  // ---------------------------------------------------------------------

  /** `Add`: nil is ignored; the non-nil members of a list are appended in
      order (one level only: a list among them is appended as one
      element); any other error is appended as it is. What the list
      already holds is never changed. */
  function Add(l: seq<Err>, err: Err): (r: seq<Err>)
    ensures |l| <= |r| && r[..|l|] == l
    ensures err == Nil ==> r == l
    ensures err.ErrList? ==> r[|l|..] == Remove(err.items, Nil)
    ensures err.ErrList? ==> forall x :: x in r[|l|..] <==> x in err.items && x != Nil
    ensures !err.Nil? && !err.ErrList? ==> |r| == |l| + 1 && r[|l|] == err
  {
    match err
    case Nil => l
    case ErrList(items) =>
      assert (l + Remove(items, Nil))[|l|..] == Remove(items, Nil);
      l + Remove(items, Nil)
    case _ => l + [err]
  }

  /** Adding errors one at a time. */
  function AddEach(l: seq<Err>, errs: seq<Err>): seq<Err>
    decreases |errs|
  {
    if |errs| == 0 then l else AddEach(Add(l, errs[0]), errs[1..])
  }

  /** When no member of a list is itself a list, adding the list is the
      same as adding its members one by one. */
  lemma {:induction false} AddListIsAddEach(l: seq<Err>, items: seq<Err>)
    requires forall i :: 0 <= i < |items| ==> !items[i].ErrList?
    ensures Add(l, ErrList(items)) == AddEach(l, items)
    decreases |items|
  {
    if |items| > 0 {
      var x, rest := items[0], items[1..];
      assert items == [x] + rest;
      calc {
        Add(l, ErrList(items));
        l + Remove(items, Nil);
        { RemoveConcat([x], rest, Nil); }
        l + Remove([x], Nil) + Remove(rest, Nil);
        { AddSingle(l, x); }
        Add(l, x) + Remove(rest, Nil);
        Add(Add(l, x), ErrList(rest));
        { AddListIsAddEach(Add(l, x), rest); }
        AddEach(l, items);
      }
    }
  }

  lemma AddSingle(l: seq<Err>, x: Err)
    requires !x.ErrList?
    ensures Add(l, x) == l + Remove([x], Nil)
  {
    assert [x][1..] == [];
  }

  /** Only one level is flattened: a list inside the added list stays one
      element. */
  lemma NestedListStays(l: seq<Err>, inner: seq<Err>)
    ensures Add(l, ErrList([ErrList(inner)])) == l + [ErrList(inner)]
  {
    assert Remove([ErrList(inner)], Nil) == [ErrList(inner)];
  }

  // ---------------------------------------------------------------------
  // Error
  // ---------------------------------------------------------------------

  /** `strings.Join(ss, "\n")`. */
  function Join(ss: seq<string>): string {
    if |ss| == 0 then ""
    else if |ss| == 1 then ss[0]
    else ss[0] + "\n" + Join(ss[1..])
  }

  /** The message of an error; a list's message joins its members'. */
  function Message(e: Err): string
    requires NilFree(e)
    decreases e, 1
  {
    match e
    case Plain(msg) => msg
    case Marshaling(msg, _) => msg
    case ErrList(items) => Join(Messages(items))
  }

  function Messages(items: seq<Err>): (r: seq<string>)
    requires AllNilFree(items)
    ensures |r| == |items|
    decreases items, 0
  {
    if |items| == 0 then []
    else [Message(items[0])] + Messages(items[1..])
  }

  /** `List.Error`. The members must not be nil (the source would panic). */
  function ErrorText(l: seq<Err>): (s: string)
    requires AllNilFree(l)
    ensures |l| == 0 ==> s == ""
    ensures |l| == 1 ==> s == Message(l[0])
  {
    Join(Messages(l))
  }

  /** Splitting text at every newline; the inverse of `Join`. */
  function Split(s: string): (r: seq<string>)
    ensures 0 < |r|
    decreases |s|
  {
    if |s| == 0 then [""]
    else
      var rest := Split(s[1..]);
      if s[0] == '\n' then [""] + rest else [[s[0]] + rest[0]] + rest[1..]
  }

  lemma {:induction false} SplitNoNewline(a: string)
    requires '\n' !in a
    ensures Split(a) == [a]
    decreases |a|
  {
    if |a| > 0 {
      SplitNoNewline(a[1..]);
      assert a == [a[0]] + a[1..];
    }
  }

  lemma {:induction false} SplitAtFirstNewline(a: string, b: string)
    requires '\n' !in a
    ensures Split(a + "\n" + b) == [a] + Split(b)
    decreases |a|
  {
    var s := a + "\n" + b;
    if |a| == 0 {
      assert s[1..] == b;
    } else {
      assert s[1..] == a[1..] + "\n" + b;
      SplitAtFirstNewline(a[1..], b);
      assert a == [a[0]] + a[1..];
    }
  }

  /** When no member message contains a newline, splitting the joined
      message at newlines gives back the member messages: `k` members are
      separated by exactly `k - 1` newlines. */
  lemma {:induction false} SplitJoin(ss: seq<string>)
    requires 0 < |ss|
    requires forall i :: 0 <= i < |ss| ==> '\n' !in ss[i]
    ensures Split(Join(ss)) == ss
    decreases |ss|
  {
    if |ss| == 1 {
      SplitNoNewline(ss[0]);
    } else {
      SplitJoin(ss[1..]);
      SplitAtFirstNewline(ss[0], Join(ss[1..]));
    }
  }

  /** The number of newlines in a text. */
  function Newlines(s: string): nat {
    if |s| == 0 then 0 else (if s[0] == '\n' then 1 else 0) + Newlines(s[1..])
  }

  lemma {:induction false} NewlinesConcat(a: string, b: string)
    ensures Newlines(a + b) == Newlines(a) + Newlines(b)
    decreases |a|
  {
    if |a| > 0 {
      assert (a + b)[1..] == a[1..] + b;
      NewlinesConcat(a[1..], b);
    } else {
      assert a + b == b;
    }
  }

  /** The joined message has one newline per separator plus those inside
      the member messages. */
  lemma {:induction false} JoinNewlines(ss: seq<string>)
    requires 0 < |ss|
    ensures Newlines(Join(ss)) == |ss| - 1 + SumNewlines(ss)
    decreases |ss|
  {
    if |ss| > 1 {
      JoinNewlines(ss[1..]);
      NewlinesConcat(ss[0] + "\n", Join(ss[1..]));
      NewlinesConcat(ss[0], "\n");
    }
  }

  function SumNewlines(ss: seq<string>): nat {
    if |ss| == 0 then 0 else Newlines(ss[0]) + SumNewlines(ss[1..])
  }

  /** `List.Error` of one-line members: exactly `k - 1` newlines, and the
      lines are the member messages. */
  lemma ErrorTextLines(l: seq<Err>)
    requires 0 < |l| && AllNilFree(l)
    requires forall i :: 0 <= i < |l| ==> '\n' !in Message(l[i])
    ensures Split(ErrorText(l)) == Messages(l)
  {
    var ms := Messages(l);
    forall i | 0 <= i < |ms| ensures '\n' !in ms[i] {
      MessagesAt(l, i);
    }
    SplitJoin(ms);
  }

  lemma {:induction false} MessagesAt(l: seq<Err>, i: nat)
    requires AllNilFree(l) && i < |l|
    ensures Messages(l)[i] == Message(l[i])
    decreases i
  {
    if i > 0 {
      MessagesAt(l[1..], i - 1);
    }
  }

  // ---------------------------------------------------------------------
  // MarshalJSON
  // ---------------------------------------------------------------------

  /** The JSON value `json.Marshal` is handed; the text encoding itself is
      not modelled. */
  datatype Json = Null | Str(s: string) | Raw(text: string) | Arr(elems: seq<Json>)

  /** `List.MarshalJSON`: `null` when empty; otherwise an array with one
      element per member: a marshaler (a nested list among them) marshals
      itself, any other error becomes its message. */
  function MarshalJson(l: seq<Err>): (j: Json)
    requires AllNilFree(l)
    ensures j == Null <==> !HasErrors(l)
    ensures j != Null ==> j.Arr? && |j.elems| == |l|
    decreases l, 1
  {
    if !HasErrors(l) then Null else Arr(MarshalElems(l))
  }

  function MarshalElems(l: seq<Err>): (r: seq<Json>)
    requires AllNilFree(l)
    ensures |r| == |l|
    decreases l, 0
  {
    if |l| == 0 then []
    else [MarshalElem(l[0])] + MarshalElems(l[1..])
  }

  function MarshalElem(e: Err): Json
    requires NilFree(e)
    decreases e, 2
  {
    match e
    case Plain(msg) => Str(msg)
    case Marshaling(_, json) => Raw(json)
    case ErrList(items) => MarshalJson(items)
  }

  /** Each array element is decided by its own member: its message, its
      own JSON, or (for a nested list) its list form, which is `null` for
      an empty nested list. */
  lemma {:induction false} MarshalElemsAt(l: seq<Err>, i: nat)
    requires AllNilFree(l) && i < |l|
    ensures MarshalElems(l)[i] == MarshalElem(l[i])
    ensures l[i].Plain? ==> MarshalElems(l)[i] == Str(l[i].msg)
    ensures l[i].Marshaling? ==> MarshalElems(l)[i] == Raw(l[i].json)
    ensures l[i] == ErrList([]) ==> MarshalElems(l)[i] == Null
    decreases i
  {
    if i > 0 {
      MarshalElemsAt(l[1..], i - 1);
    }
  }
}
