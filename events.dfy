/**
 * The event vocabulary of the watcher: the four kinds of change it reports and
 * the `log(filename, option)` dispatch of Watch.py, which turns a numeric option
 * into one of those kinds. The timestamp prefix and the logging back end are not
 * part of this model; an emitted event is a (path, kind) pair that the caller
 * collects in a sequence.
 */
module Events {

  type Path = string

  /** What happened to a path during one crawl. */
  datatype EventKind = Added | Removed | Modified | Found

  /** One notification handed to the log. */
  datatype Event = Event(path: Path, kind: EventKind)

  /** The numeric option the source passes to `log` for each kind. */
  function Code(kind: EventKind): (option: int)
    ensures 1 <= option <= 4
  {
    match kind
    case Added => 1
    case Removed => 2
    case Modified => 3
    case Found => 4
  }

  /** The text that follows the path in the log line. */
  function Message(kind: EventKind): string
  {
    match kind
    case Added => "was added."
    case Removed => "was removed."
    case Modified => "was modified."
    case Found => "was found."
  }

  /** The log line without its date prefix: the path, a space, the message. */
  function Line(e: Event): (line: string)
    ensures |line| > |e.path| + 1
    ensures line[..|e.path|] == e.path && line[|e.path|] == ' '
    ensures line[|e.path| + 1..] == Message(e.kind)
  {
    e.path + " " + Message(e.kind)
  }

  /** Two lines about the same path are equal exactly when the events are of the same kind. */
  lemma LineNamesKind(e1: Event, e2: Event)
    requires e1.path == e2.path
    ensures Line(e1) == Line(e2) <==> e1.kind == e2.kind
  {
    assert Line(e1)[|e1.path| + 1..] == Message(e1.kind);
    assert Line(e2)[|e2.path| + 1..] == Message(e2.kind);
  }

  /**
   * `log(filename, option)`: options 1 to 4 emit exactly one event for
   * `filename`, of the kind whose code is `option`; any other option emits
   * nothing.
   */
  function Log(filename: Path, option: int): (emitted: seq<Event>)
    ensures |emitted| <= 1
    ensures emitted != [] <==> 1 <= option <= 4
    ensures forall kind :: emitted == [Event(filename, kind)] <==> Code(kind) == option
  {
    if option == 1 then [Event(filename, Added)]
    else if option == 2 then [Event(filename, Removed)]
    else if option == 3 then [Event(filename, Modified)]
    else if option == 4 then [Event(filename, Found)]
    else []
  }
}
