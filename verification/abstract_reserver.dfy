/**
 * The bookkeeping shared by every job reserver: validating and storing the
 * queues it works on, the worker identifier, the lazily cached description,
 * and the no-op hooks. The reserver object is modelled as an immutable value;
 * each operation that changes it returns the new value.
 */
module AbstractReserver {
  import opened Wrappers
  import opened PhpStrings

  /** A queue handle; its string form is its name. */
  datatype Queue = Queue(name: string)

  /** One element of the array handed to the constructor: either a queue, or
      something else, described by the type name the error message reports
      (`get_class` for objects, `gettype` otherwise). */
  datatype Item = IsQueue(queue: Queue) | NotQueue(typeName: string)

  /** `InvalidArgumentException` raised by the constructor: where the first
      non-queue element sits and the type name it reports. */
  datatype InvalidArgument = InvalidArgument(position: nat, given: string)

  /** The PSR-3 logger is opaque to the reserver. */
  datatype Logger = NullLogger | ExternalLogger(handle: nat)

  /** The state of a reserver object. `kind` is the class constant
      `TYPE_DESCRIPTION` of the concrete reserver class. */
  datatype Reserver = Reserver(
    queues: seq<Queue>,
    worker: Option<string>,
    description: Option<string>,
    logger: Logger,
    kind: string)

  /** `TYPE_DESCRIPTION` of the abstract base class. */
  const UndefinedKind: string := "undefined"

  /** Separator `implode` puts between queue names. */
  const NameSeparator: string := ", "

  /** Every element handed to the constructor is a queue. */
  predicate AllQueues(items: seq<Item>) {
    forall i :: 0 <= i < |items| ==> items[i].IsQueue?
  }

  /** `items` lists exactly `queues`, element by element and in order. */
  predicate ListsQueues(items: seq<Item>, queues: seq<Queue>) {
    |items| == |queues| && forall i :: 0 <= i < |items| ==> items[i] == IsQueue(queues[i])
  }

  /** The constructor's `foreach`: copies queues in order and stops at the
      first element that is not a queue. */
  function Validate(items: seq<Item>): (r: Result<seq<Queue>, InvalidArgument>)
    ensures r.Success? <==> AllQueues(items)
    ensures r.Success? ==> ListsQueues(items, r.value)
    ensures r.Failure? ==>
      && r.error.position < |items|
      && items[r.error.position] == NotQueue(r.error.given)
      && forall i :: 0 <= i < r.error.position ==> items[i].IsQueue?
    decreases |items|
  {
    if |items| == 0 then Success([])
    else
      match items[0]
      case NotQueue(t) => Failure(InvalidArgument(0, t))
      case IsQueue(q) =>
        match Validate(items[1..])
        case Success(rest) => Success([q] + rest)
        case Failure(e) => Failure(InvalidArgument(e.position + 1, e.given))
  }

  /** `__construct($queues, $worker)`: either a reserver holding the queues in
      their original order, the worker id as given, no cached description and
      the null logger, or the exception for the first non-queue element. No
      emptiness check is made. */
  function New(items: seq<Item>, worker: Option<string>, kind: string): (r: Result<Reserver, InvalidArgument>)
    ensures r.Success? <==> AllQueues(items)
    ensures r.Success? ==>
      && ListsQueues(items, r.value.queues)
      && r.value.worker == worker
      && r.value.description == None
      && r.value.logger == NullLogger
      && r.value.kind == kind
    ensures r.Failure? ==>
      && r.error.position < |items|
      && items[r.error.position] == NotQueue(r.error.given)
      && forall i :: 0 <= i < r.error.position ==> items[i].IsQueue?
  {
    match Validate(items)
    case Success(queues) => Success(Reserver(queues, worker, None, NullLogger, kind))
    case Failure(e) => Failure(e)
  }

  /** `getQueues()`: the stored queue list itself, not a rebuilt one, so
      it is exactly the list the constructor stored. */
  function GetQueues(r: Reserver): (queues: seq<Queue>)
    ensures queues == r.queues
  {
    r.queues
  }

  /** `(string) $queue` for every queue, in order. */
  function Names(queues: seq<Queue>): (names: seq<string>)
    ensures |names| == |queues|
    ensures forall i :: 0 <= i < |queues| ==> names[i] == queues[i].name
  {
    seq(|queues|, i requires 0 <= i < |queues| => queues[i].name)
  }

  /** `initializeDescription($queues)`: the queue names joined by ", ", a
      space and the kind in parentheses, trimmed. `trim` can only strip
      leading characters of the names part, never any of "(kind)". */
  function Describe(queues: seq<Queue>, kind: string): (d: string)
    ensures d == TrimLeft(Join(NameSeparator, Names(queues)) + " ") + ("(" + kind + ")")
  {
    var head := Join(NameSeparator, Names(queues)) + " ";
    var tail := "(" + kind + ")";
    var raw := Join(NameSeparator, Names(queues)) + " (" + kind + ")";
    assert raw == head + tail;
    TrimLeftAppend(head, tail);
    var l := TrimLeft(head) + tail;
    assert l[|l| - 1] == ')';
    assert l + "" == l;
    TrimRightSkipsSuffix(l, "");
    Trim(raw)
  }

  /** `getDescription()`: the cached description if there is one; otherwise
      the description of the current queues, which is cached. Returns the new
      reserver state and the description. */
  function GetDescription(r: Reserver): (res: (Reserver, string))
    ensures res.0 == r.(description := Some(res.1))
    ensures r.description.Some? ==> res.1 == r.description.value
    ensures r.description.None? ==> res.1 == Describe(r.queues, r.kind)
  {
    match r.description
    case Some(d) => (r, d)
    case None =>
      var d := Describe(r.queues, r.kind);
      (r.(description := Some(d)), d)
  }

  /** `resetDescription()`: forgets the cached description and nothing else. */
  function ResetDescription(r: Reserver): (r': Reserver)
    ensures r'.description == None
    ensures r'.queues == r.queues && r'.worker == r.worker
    ensures r'.logger == r.logger && r'.kind == r.kind
  {
    r.(description := None)
  }

  /** `beforeWork()`: the base class does nothing. */
  function BeforeWork(r: Reserver): (r': Reserver)
    ensures r'.queues == r.queues && r'.worker == r.worker
    ensures r'.description == r.description && r'.logger == r.logger && r'.kind == r.kind
  {
    r
  }

  /** `setLogger($logger)`: replaces the logger and nothing else. */
  function SetLogger(r: Reserver, logger: Logger): (r': Reserver)
    ensures r'.logger == logger
    ensures r'.queues == r.queues && r'.worker == r.worker
    ensures r'.description == r.description && r'.kind == r.kind
  {
    r.(logger := logger)
  }
}
