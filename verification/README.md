# Job reserver bookkeeping (qless-php), modelled in Dafny

qless-php workers claim jobs from one or more queues through a *reserver*. Each
concrete reserver strategy decides the order in which it pops jobs off its
queues. The base class `AbstractReserver` holds the bookkeeping that every
strategy shares. This project models that bookkeeping:

- the validating constructor. It accepts an array of items and an optional
  worker id, rejects the first item that is not a `Queue` with
  `InvalidArgumentException`, and otherwise keeps the queues in their original
  order;
- `getQueues()`;
- the lazily cached description. It is
  `trim(implode(', ', names) . ' (' . TYPE_DESCRIPTION . ')')`, computed on the
  first `getDescription()` and cached, and `resetDescription()` clears it;
- the hooks `beforeWork()` (does nothing) and `setLogger()` (replaces only the
  logger).

The PHP object is modelled as an immutable value, `AbstractReserver.Reserver`.
Every operation that writes a field returns the new value. `getDescription()`
returns the pair (new state, description). The PHP built-ins `trim` (with its
default character list `" \t\n\r\0\x0B"`) and `implode` are modelled in
`PhpStrings`.

Files:

- `wrappers.dfy`: `Option` (PHP `null`) and `Result` (return value or exception).
- `php_strings.dfy`: `trim`, `ltrim`, `rtrim` and `implode`, with their
  characterisation lemmas.
- `abstract_reserver.dfy`: the data model and the operations of
  `src/Jobs/Reservers/AbstractReserver.php`.
- `reserver_properties.dfy`: lemmas about construction, the description and
  the description cache. It also models a sequence of calls made on a
  reserver (`Run`): calls by clients, and the protected `resetDescription()`
  made by a subclass. It shows that the cache is coherent under every such
  sequence.

Modelling choices that follow the code:

- The constructor has no emptiness check. `New([], …)` succeeds, and its
  description is `"(" + kind + ")"`.
- The description is computed lazily on the first `getDescription()`,
  cached, and cleared by `resetDescription()`. The model keeps the cache as
  `description: Option<string>`.
- The constructor's error is `InvalidArgumentException`, modelled as the
  value `InvalidArgument(position, given)`.

`TYPE_DESCRIPTION` is a class constant that each concrete strategy overrides
(`static::TYPE_DESCRIPTION`). The model stores it as the `kind` field, fixed at
construction. The base class value is `UndefinedKind == "undefined"`.

## Model

| member | source | states |
|---|---|---|
| AbstractReserver.Validate | src/Jobs/Reservers/AbstractReserver.php:57-73 | The `foreach` succeeds exactly when every item is a queue, and then yields the queues in order with the same length. Otherwise it reports the FIRST non-queue item: its position, its reported type name, and that every earlier item is a queue. |
| AbstractReserver.New | src/Jobs/Reservers/AbstractReserver.php:55-77 | Construction succeeds exactly when every item is a queue. A successful reserver lists exactly the given queues in order, keeps the worker id as given (including `None`), has no cached description and holds the null logger. A failure names the first offending item. The queue list may be empty. |
| ReserverProperties.ConstructThenGetQueues | src/Jobs/Reservers/AbstractReserver.php:55-87 | Round trip: constructing from any list of queues and calling `getQueues()` returns that same list. The fresh reserver holds the given worker id, no description and the null logger. |
| ReserverProperties.GetQueuesThenConstruct | src/Jobs/Reservers/AbstractReserver.php:57-87 | The converse: whenever construction succeeds, the constructor's argument is exactly the list `getQueues()` returns. |
| ReserverProperties.EmptyQueueListAccepted | src/Jobs/Reservers/AbstractReserver.php:55-133 | An empty queue list is accepted. `getQueues()` is then empty and the description is `"(" + kind + ")"`. |
| AbstractReserver.GetQueues | src/Jobs/Reservers/AbstractReserver.php:84-87 | `getQueues()` hands back the stored list itself, not a rebuilt or reordered one. Together with `New` this is what makes the two round-trip lemmas hold. |
| AbstractReserver.Names | src/Jobs/Reservers/AbstractReserver.php:128-130 | The name list has one entry per queue, in queue order, and each entry is that queue's string form. |
| AbstractReserver.Describe | src/Jobs/Reservers/AbstractReserver.php:126-133 | `initializeDescription()`, for all inputs: the description is the joined names plus a space with leading strippable characters removed, followed by `(kind)`. Trimming never reaches into the `(kind)` part; DescriptionEndsWithKind, DescriptionUntrimmed and EmptyQueueListAccepted are consequences. |
| ReserverProperties.DescriptionEndsWithKind | src/Jobs/Reservers/AbstractReserver.php:132 | Every description ends with `"(" + kind + ")"`. |
| ReserverProperties.DescriptionUntrimmed | src/Jobs/Reservers/AbstractReserver.php:126-133 | When the first queue name starts with a non-strippable character, `trim` removes nothing. The description is then the names joined by `", "`, a space and `(kind)`. |
| ReserverProperties.DescriptionOfTwoQueues | src/Jobs/Reservers/AbstractReserver.php:126-133 | Two queues named `a` and `b`, where `a` starts with a non-strippable character, are described as `a + ", " + b + " (" + kind + ")"`. |
| ReserverProperties.DescriptionExample | src/Jobs/Reservers/AbstractReserver.php:126-133 | On the base class, queues `q1` and `q2` give `"q1, q2 (undefined)"`. |
| AbstractReserver.GetDescription | src/Jobs/Reservers/AbstractReserver.php:106-113 | When a description is cached, it is returned. Otherwise the description of the current queues is computed. Either way the returned string is the one left in the cache, and no other field changes. |
| ReserverProperties.GetDescriptionIdempotent | src/Jobs/Reservers/AbstractReserver.php:106-113 | A second `getDescription()` returns the same string and leaves the state the first call produced. After the first call the cache is filled. |
| ReserverProperties.CachedDescriptionIgnoresQueues | src/Jobs/Reservers/AbstractReserver.php:108-112 | Once a description is cached, replacing the queue list does not change what `getDescription()` returns. |
| AbstractReserver.ResetDescription | src/Jobs/Reservers/AbstractReserver.php:135-138 | `resetDescription()` empties the cache and leaves the queues, worker id, logger and kind unchanged. |
| ReserverProperties.ResetThenGetDescribesCurrentQueues | src/Jobs/Reservers/AbstractReserver.php:135-138 | After a reset, the next `getDescription()` describes the queues the reserver holds at that moment, even if they changed after the old value was cached. |
| AbstractReserver.BeforeWork | src/Jobs/Reservers/AbstractReserver.php:95-98 | `beforeWork()` leaves the queues, worker id, description cache, logger and kind as they were. |
| AbstractReserver.SetLogger | src/Jobs/Reservers/AbstractReserver.php:121-124 | `setLogger()` installs the given logger and leaves the queues, worker id, description cache and kind as they were. |
| ReserverProperties.HooksKeepDescription | src/Jobs/Reservers/AbstractReserver.php:95-124 | Calling `beforeWork()` and `setLogger()` changes neither what `getDescription()` returns nor what `getQueues()` returns. |
| ReserverProperties.CoherentDescriptionIsCurrent | src/Jobs/Reservers/AbstractReserver.php:106-113 | If the cache is empty or holds the description of the current queues, `getDescription()` returns the description of the current queues and keeps the cache coherent. |
| ReserverProperties.StepKeepsQueuesAndCache | src/Jobs/Reservers/AbstractReserver.php:84-138 | No single call (`getQueues`, `getDescription`, `resetDescription`, `beforeWork`, `setLogger`) changes the queues, the worker id or the kind, and each call keeps the cache coherent. |
| ReserverProperties.RunKeepsQueuesAndCache | src/Jobs/Reservers/AbstractReserver.php:84-138 | The same holds for any sequence of calls, by induction on the sequence. |
| ReserverProperties.DescriptionAlwaysMatchesConstruction | src/Jobs/Reservers/AbstractReserver.php:55-138 | After a successful construction and any sequence of calls, `getDescription()` returns the description of the queues given to the constructor. The cache is never visible from outside. |
| PhpStrings.TrimLeft | src/Jobs/Reservers/AbstractReserver.php:132 | `ltrim` returns a suffix of its input. Every removed character is strippable, and the result does not start with one. |
| PhpStrings.TrimRight | src/Jobs/Reservers/AbstractReserver.php:132 | `rtrim` returns a prefix of its input. Every removed character is strippable, and the result does not end with one. |
| PhpStrings.Trim | src/Jobs/Reservers/AbstractReserver.php:132 | `trim` never lengthens its input, and its result neither starts nor ends with a strippable character. |
| PhpStrings.TrimDecomposes | src/Jobs/Reservers/AbstractReserver.php:132 | The input of `trim` is a strippable prefix, then the result, then a strippable suffix. |
| PhpStrings.TrimUnique | src/Jobs/Reservers/AbstractReserver.php:132 | Conversely, whenever a string splits into a strippable prefix, a trimmed middle and a strippable suffix, `trim` returns exactly that middle. |
| PhpStrings.TrimIdempotent | src/Jobs/Reservers/AbstractReserver.php:132 | `trim(trim(s)) == trim(s)`. |
| PhpStrings.Join | src/Jobs/Reservers/AbstractReserver.php:132 | `implode` of no names is empty. Otherwise its length is the names' total length plus one separator for each pair of neighbouring names. |
| PhpStrings.JoinPlacesParts | src/Jobs/Reservers/AbstractReserver.php:132 | Every name occurs in `implode`'s result, in order, at its offset (the earlier names plus one separator each), and a separator follows every name but the last. With `Join`'s length this fixes every character of the result. |
| PhpStrings.PartOffsetClosedForm | src/Jobs/Reservers/AbstractReserver.php:132 | Name `i` starts after the total length of the names before it plus `i` separators. |
| PhpStrings.JoinAppend | src/Jobs/Reservers/AbstractReserver.php:132 | Imploding a concatenation of two non-empty name lists is the two implodes joined by one separator. |

## Left out

- Concrete reservation strategies (`next()`: ordered, round-robin, random) and the atomic reservation backend are not part of this model. Only the abstract base class is modelled.
- `src/Workers/WorkerInterface.php` declares method signatures only. It has no behaviour to model, so no worker state machine is modelled.
- `tests/LuaTester.php` wraps Redis script evaluation, which is network I/O.
- The PSR-3 logger is an opaque handle (`NullLogger` or `ExternalLogger(handle)`). Log calls themselves are not modelled.
- The exception message text built with `sprintf`, `static::class`, `get_class` and `gettype` is not modelled. The error carries the offending item's position and its reported type name.
- A PHP array can have arbitrary keys. It is modelled as a sequence in iteration order; the constructor re-indexes it anyway with `$this->queues[] = $queue`.
- PHP strings are byte strings. They are modelled as `seq<char>`, and `trim` compares characters against its six default characters.
- Mutation of the object is modelled by returning a new value, not by a class with mutable fields. Subclasses that assign `$this->queues` directly are represented by record update (`r.(queues := …)`) in the cache lemmas.
