/**
 * What the reserver promises its callers, stated over the model in
 * `AbstractReserver`: construction is all-or-nothing and keeps the queues as
 * given, the description has a fixed shape, and the description cache is
 * invisible to callers as long as the queues stay put.
 */
module ReserverProperties {
  import opened Wrappers
  import opened PhpStrings
  import opened AbstractReserver

  /** The constructor argument that lists exactly the given queues. */
  function AsItems(queues: seq<Queue>): (items: seq<Item>)
    ensures ListsQueues(items, queues)
  {
    seq(|queues|, i requires 0 <= i < |queues| => IsQueue(queues[i]))
  }

  /** Round trip: constructing from a list of queues and reading them back
      with `getQueues()` gives the same list; the reserver starts with the
      worker id as given and no cached description. */
  lemma ConstructThenGetQueues(queues: seq<Queue>, worker: Option<string>, kind: string)
    ensures New(AsItems(queues), worker, kind).Success?
    ensures GetQueues(New(AsItems(queues), worker, kind).value) == queues
    ensures New(AsItems(queues), worker, kind).value == Reserver(queues, worker, None, NullLogger, kind)
  {
    var r := New(AsItems(queues), worker, kind);
    assert r.value.queues == queues;
  }

  /** The other direction: whenever construction succeeds, the constructor
      argument is exactly the list `getQueues()` returns. */
  lemma GetQueuesThenConstruct(items: seq<Item>, worker: Option<string>, kind: string)
    requires New(items, worker, kind).Success?
    ensures AsItems(GetQueues(New(items, worker, kind).value)) == items
  {
    var qs := GetQueues(New(items, worker, kind).value);
    assert AsItems(qs) == items;
  }

  /** An empty queue list is accepted: the reserver has no queues and its
      description is just the kind in parentheses. */
  lemma EmptyQueueListAccepted(worker: Option<string>, kind: string)
    ensures New([], worker, kind).Success?
    ensures GetQueues(New([], worker, kind).value) == []
    ensures GetDescription(New([], worker, kind).value).1 == "(" + kind + ")"
  {
    var r := New([], worker, kind).value;
    assert r.queues == [] && r.description == None;
    assert Join(NameSeparator, Names([])) + " " == " ";
    assert TrimLeft(" ") == "";
    assert Describe([], kind) == "" + ("(" + kind + ")");
  }

  /** The description always ends with the kind in parentheses. */
  lemma DescriptionEndsWithKind(queues: seq<Queue>, kind: string)
    ensures |Describe(queues, kind)| >= |kind| + 2
    ensures Describe(queues, kind)[|Describe(queues, kind)| - |kind| - 2..] == "(" + kind + ")"
  {
    var prefix := TrimLeft(Join(NameSeparator, Names(queues)) + " ");
    assert Describe(queues, kind)[|prefix|..] == "(" + kind + ")";
  }

  /** When the first queue name starts with a non-strippable character,
      `trim` removes nothing: the description is the names joined by ", ",
      a space, and the kind in parentheses. */
  lemma DescriptionUntrimmed(queues: seq<Queue>, kind: string)
    requires |queues| > 0 && |queues[0].name| > 0 && !IsTrimChar(queues[0].name[0])
    ensures Describe(queues, kind) == Join(NameSeparator, Names(queues)) + " (" + kind + ")"
  {
    var names := Names(queues);
    var raw := Join(NameSeparator, names) + " (" + kind + ")";
    assert Join(NameSeparator, names)[0] == queues[0].name[0];
    assert raw[0] == queues[0].name[0];
    assert raw[|raw| - 1] == ')';
    TrimOfTrimmed(raw);
    assert Describe(queues, kind) == Trim(raw);
  }

  /** Two queues whose first name starts with a non-strippable character are
      described as "first, second (kind)". */
  lemma DescriptionOfTwoQueues(first: string, second: string, kind: string)
    requires |first| > 0 && !IsTrimChar(first[0])
    ensures Describe([Queue(first), Queue(second)], kind) == first + ", " + second + " (" + kind + ")"
  {
    var qs := [Queue(first), Queue(second)];
    var names := Names(qs);
    assert names == [first, second];
    assert names[1..] == [second];
    assert Join(NameSeparator, names) == first + ", " + second;
    DescriptionUntrimmed(qs, kind);
  }

  /** Queues named `q1` and `q2` on the base class give "q1, q2 (undefined)". */
  lemma DescriptionExample()
    ensures Describe([Queue("q1"), Queue("q2")], UndefinedKind) == "q1, q2 (undefined)"
  {
    DescriptionOfTwoQueues("q1", "q2", UndefinedKind);
    ExampleText();
  }

  /** The literal text of the two-queue example. */
  lemma ExampleText()
    ensures "q1" + ", " + "q2" + " (" + UndefinedKind + ")" == "q1, q2 (undefined)"
  {
  }

  /** `getDescription()` is idempotent: a second call returns the same string
      and leaves the state as the first call left it. */
  lemma GetDescriptionIdempotent(r: Reserver)
    ensures GetDescription(GetDescription(r).0) == GetDescription(r)
    ensures GetDescription(r).0.description == Some(GetDescription(r).1)
  {
  }

  /** Once a description is cached it no longer follows the queues: a later
      change of the queue list leaves `getDescription()` returning the cached
      string. */
  lemma CachedDescriptionIgnoresQueues(r: Reserver, queues: seq<Queue>)
    requires r.description.Some?
    ensures GetDescription(r.(queues := queues)).1 == r.description.value
  {
  }

  /** After `resetDescription()` the next `getDescription()` describes the
      queues the reserver holds at that moment. */
  lemma ResetThenGetDescribesCurrentQueues(r: Reserver, queues: seq<Queue>)
    ensures GetDescription(ResetDescription(r.(queues := queues))).1 == Describe(queues, r.kind)
  {
  }

  /** The hooks do not disturb the description: after `beforeWork()` and
      `setLogger()` the description is what it would have been without them. */
  lemma HooksKeepDescription(r: Reserver, logger: Logger)
    ensures GetDescription(SetLogger(BeforeWork(r), logger)).1 == GetDescription(r).1
    ensures GetQueues(SetLogger(BeforeWork(r), logger)) == GetQueues(r)
  {
  }

  /** A call made on a reserver: by a client, or, for the protected
      `resetDescription()`, by a subclass. */
  datatype Call =
    | GetQueuesCall
    | GetDescriptionCall
    | ResetDescriptionCall
    | BeforeWorkCall
    | SetLoggerCall(logger: Logger)

  /** The reserver after one call. */
  function Step(r: Reserver, c: Call): Reserver {
    match c
    case GetQueuesCall => r
    case GetDescriptionCall => GetDescription(r).0
    case ResetDescriptionCall => ResetDescription(r)
    case BeforeWorkCall => BeforeWork(r)
    case SetLoggerCall(l) => SetLogger(r, l)
  }

  /** The reserver after a sequence of calls, first call first. */
  function Run(r: Reserver, calls: seq<Call>): Reserver
    decreases |calls|
  {
    if |calls| == 0 then r else Run(Step(r, calls[0]), calls[1..])
  }

  /** The cache is either empty or holds the description of the current queues. */
  predicate Coherent(r: Reserver) {
    r.description.None? || r.description.value == Describe(r.queues, r.kind)
  }

  /** A coherent reserver's `getDescription()` describes its current queues. */
  lemma CoherentDescriptionIsCurrent(r: Reserver)
    requires Coherent(r)
    ensures GetDescription(r).1 == Describe(r.queues, r.kind)
    ensures Coherent(GetDescription(r).0)
  {
  }

  /** One call keeps the queues, the worker id, the kind and cache coherence. */
  lemma StepKeepsQueuesAndCache(r: Reserver, c: Call)
    requires Coherent(r)
    ensures Step(r, c).queues == r.queues && Step(r, c).worker == r.worker
    ensures Step(r, c).kind == r.kind && Coherent(Step(r, c))
  {
    if c.GetDescriptionCall? {
      CoherentDescriptionIsCurrent(r);
    }
  }

  /** No call of the reserver's own methods changes the queues, the worker id or the kind, and every
      call keeps the cache coherent. */
  lemma {:induction false} RunKeepsQueuesAndCache(r: Reserver, calls: seq<Call>)
    requires Coherent(r)
    ensures Run(r, calls).queues == r.queues
    ensures Run(r, calls).worker == r.worker
    ensures Run(r, calls).kind == r.kind
    ensures Coherent(Run(r, calls))
    decreases |calls|
  {
    if |calls| > 0 {
      var s := Step(r, calls[0]);
      StepKeepsQueuesAndCache(r, calls[0]);
      RunKeepsQueuesAndCache(s, calls[1..]);
    }
  }

  /** Whatever calls are made after a successful construction, the next
      `getDescription()` returns the description of the queues given to the
      constructor: the cache is never observable from outside. */
  lemma DescriptionAlwaysMatchesConstruction(items: seq<Item>, worker: Option<string>, kind: string, calls: seq<Call>)
    requires New(items, worker, kind).Success?
    ensures GetDescription(Run(New(items, worker, kind).value, calls)).1
            == Describe(New(items, worker, kind).value.queues, kind)
  {
    var r := New(items, worker, kind).value;
    RunKeepsQueuesAndCache(r, calls);
    CoherentDescriptionIsCurrent(Run(r, calls));
  }
}
