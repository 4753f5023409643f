/** The logger (log/logger.go): a writer, a namespace and a threshold
    level. `Sub` derives a child logger, and each logging call writes one
    formatted record when its level reaches the threshold. Writes are
    modelled as a trace of records appended to, one per `Write` call. */
module Logging {
  import opened LogFormat

  /** An `io.Writer` as the logger sees it: nil, standard output, or some
      other writer told apart by identity. */
  datatype Writer = NilWriter | Stdout | Sink(id: nat)

  datatype Logger = Logger(w: Writer, namespace: string, level: Level)

  /** `New`: a nil writer is replaced by standard output; the namespace
      and the level are taken as given. */
  function New(w: Writer, level: Level, namespace: string): (l: Logger)
    ensures l.w != NilWriter
    ensures w != NilWriter ==> l.w == w
    ensures l.namespace == namespace && l.level == level
  {
    Logger(if w == NilWriter then Stdout else w, namespace, level)
  }

  /** How `Sub` joins the parent's namespace and the child's. */
  function Compose(parent: string, child: string): string {
    if child == "" then parent
    else if parent == "" then child
    else parent + "/" + child
  }

  /** `Sub`: the child writes to the parent's writer; an empty namespace
      keeps the parent's, a non-empty one is appended to the parent's
      after a '/' (or stands alone under an empty parent); DEFAULT
      inherits the parent's level, any other level is used as given. The
      parent is a value and is not changed. */
  function Sub(l: Logger, level: Level, namespace: string): (r: Logger)
    ensures l.w != NilWriter ==> r.w == l.w
    ensures namespace == "" ==> r.namespace == l.namespace
    ensures namespace != "" && l.namespace == "" ==> r.namespace == namespace
    ensures namespace != "" && l.namespace != "" ==> r.namespace == l.namespace + "/" + namespace
    ensures r.level == if level == DEFAULT then l.level else level
  {
    New(l.w, if level == DEFAULT then l.level else level, Compose(l.namespace, namespace))
  }

  /** Joining namespaces does not depend on grouping. */
  lemma ComposeAssociative(p: string, a: string, b: string)
    ensures Compose(Compose(p, a), b) == Compose(p, Compose(a, b))
  {
    if a != "" && b != "" && p != "" {
      assert p + "/" + a + "/" + b == p + "/" + (a + "/" + b);
    }
  }

  /** Two `Sub` steps are one: namespaces join, and the inner level holds
      unless the outer one names a level of its own. */
  lemma SubSub(l: Logger, level1: Level, a: string, level2: Level, b: string)
    ensures Sub(Sub(l, level1, a), level2, b)
      == Sub(l, if level2 == DEFAULT then level1 else level2, Compose(a, b))
  {
    ComposeAssociative(l.namespace, a, b);
  }

  /** A child's namespace starts with its parent's. */
  lemma SubExtendsNamespace(l: Logger, level: Level, namespace: string)
    ensures |l.namespace| <= |Sub(l, level, namespace).namespace|
    ensures Sub(l, level, namespace).namespace[..|l.namespace|] == l.namespace
  {
    var r := Sub(l, level, namespace);
    if namespace != "" && l.namespace != "" {
      assert r.namespace == l.namespace + ("/" + namespace);
    }
  }

  // ---------------------------------------------------------------------
  // Emitting
  // ---------------------------------------------------------------------

  /** One `Write` of a whole record to a writer. */
  datatype Record = Record(w: Writer, text: string)

  /** `emit` and `emitf`, with the message already rendered (by
      `fmt.Sprint` or `fmt.Sprintf`): a call at or above the threshold
      appends exactly one record, formatted with the call's level and the
      logger's namespace, to the logger's writer; a call below it writes
      nothing. What was written before is kept. */
  function Emit(l: Logger, level: Level, msg: string, trace: seq<Record>): (r: seq<Record>)
    ensures |r| == |trace| + 1 <==> level >= l.level
    ensures |r| == |trace| <==> level < l.level
    ensures r[..|trace|] == trace
    ensures level >= l.level ==> r[|trace|] == Record(l.w, Format(level, l.namespace, msg))
  {
    if level >= l.level then trace + [Record(l.w, Format(level, l.namespace, msg))] else trace
  }

  /** The six logging calls of a logger (each in its `Sprint` and its
      `Sprintf` form). */
  datatype Call = Debug | Info | Notice | Warn | Error | Fatal

  function CallLevel(c: Call): (level: Level)
    ensures level in Named && level != UNKNOWN
  {
    match c
    case Debug => DEBUG
    case Info => INFO
    case Notice => NOTICE
    case Warn => WARN
    case Error => ERROR
    case Fatal => FATAL
  }

  function Log(l: Logger, c: Call, msg: string, trace: seq<Record>): seq<Record> {
    Emit(l, CallLevel(c), msg, trace)
  }

  predicate Emits(l: Logger, c: Call) {
    CallLevel(c) >= l.level
  }

  /** A logging call writes one record when it is let through and none
      otherwise, and the record's code is the call's. */
  lemma LogWritesOnce(l: Logger, c: Call, msg: string, trace: seq<Record>)
    ensures Emits(l, c) ==> |Log(l, c, msg, trace)| == |trace| + 1
    ensures Emits(l, c) ==> Log(l, c, msg, trace)[|trace|].text[1] == Code(CallLevel(c))
    ensures !Emits(l, c) ==> Log(l, c, msg, trace) == trace
  {
    if Emits(l, c) {
      var line := Format(CallLevel(c), l.namespace, msg);
      assert line[..4][1] == line[1];
    }
  }

  /** A logger at DEFAULT lets every call through. */
  lemma DefaultEmitsAll(l: Logger, c: Call)
    requires l.level == DEFAULT
    ensures Emits(l, c)
  {
  }

  /** A logger at FATAL lets through only `Fatal` and `Fatalf`. */
  lemma FatalEmitsOnlyFatal(l: Logger, c: Call)
    requires l.level == FATAL
    ensures Emits(l, c) <==> c == Fatal
  {
  }

  /** A logger at UNKNOWN writes nothing. */
  lemma UnknownEmitsNothing(l: Logger, c: Call)
    requires l.level == UNKNOWN
    ensures !Emits(l, c)
  {
  }

  /** The threshold is a cut in the level order: a call is let through
      exactly when every call of a higher level is. */
  lemma EmitsUpward(l: Logger, c: Call, d: Call)
    requires Emits(l, c) && CallLevel(c) <= CallLevel(d)
    ensures Emits(l, d)
  {
  }

  /** A child created with DEFAULT lets through exactly what its parent
      does. */
  lemma DefaultSubSameThreshold(l: Logger, namespace: string, c: Call)
    ensures Emits(Sub(l, DEFAULT, namespace), c) <==> Emits(l, c)
  {
  }
}
