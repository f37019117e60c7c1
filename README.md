# Re-entrant `executeUpdates` over a mutable registry

This project models the toy unit of work in `tests/PhpForeachRecursionTest.php`
of the doctrine-orm-updates-bug repository, and proves what its two tests
observe.

Each unit of work holds a registry `$entities`, an ordered PHP array from
object id to entity name (initially `0 => 'human', 1 => 'head', 2 => 'eye'`),
and an append-only log `$updatedEntities`. `executeUpdates` walks the registry.
For each entry it appends `"$entity#$oid"` to the log, unsets the entry from the
live registry, and raises `onSomeEvent`, which calls `executeUpdates` again
when the entity is `'human'`.

- `WtfUnitOfWork` (testWtfEventCount): `foreach` over the array by value walks
  the copy taken when the loop starts, so entries a nested call has already
  handled and unset are logged again. Its log is `BuggyLog`, in closed form:
  `BuggyLog([]) = []`, and `BuggyLog([e] + rest)` is `e`'s entry, then
  `BuggyLog(rest)`, then, if `e` is a `'human'`, `Visits(rest)` once more.
- `FixedUnitOfWork` (testFixedEventCount): the loop goes through an
  `ArrayIterator` and unsets each key from the iterator and from the live
  registry. The model idealises the iterator (see "## Left out"). In the model,
  its log is `Visits` of the registry: each entry exactly once, in registry
  order.
- `Registry` holds the shared data: `Entry(oid, name)` registry entries,
  `Visit(entity, oid)` log entries, `unset` as `Remove`, and the rendering of a
  log entry as the string `"$entity#$oid"`.
- `ForeachRecursionTest` runs both scenarios from the initial registry and
  proves the exact string logs the two tests assert.

Each unit of work is a class with fields `entities: seq<Entry>` and
`updatedEntities: seq<Visit>`. `ExecuteUpdates` and `OnSomeEvent` are mutually
recursive methods. `ExecuteUpdates` decreases `|entities|`: the current entry is
unset before the event is raised, so every nested call sees a strictly smaller
live registry. Each loop is proved against its specification function. The
ghost predicate `LoopState` (by value) or `IterState` (iterator) describes the
state part-way through the loop, and one lemma per loop step keeps it.

In the first test, the comment at tests/PhpForeachRecursionTest.php:44-46 marks
the last two log entries as not expected. They come from the by-value `foreach`
at line 24: it walks the array as it was when the loop started, so after the
nested call for 'human' has unset the rest, the outer loop still logs those
entries. `BuggyVisitCount` gives the count for every entry: once, plus once for
each 'human' registered before it.

## Model

| member | source | states |
|---|---|---|
| Registry.InitialEntities | tests/PhpForeachRecursionTest.php:14-18 | the initial registry has three entries with the unique keys 0, 1, 2 in insertion order, the first a 'human' |
| Registry.Remove | tests/PhpForeachRecursionTest.php:26 | `unset($this->entities[$oid])` never makes the registry longer |
| Registry.RemoveOrder | tests/PhpForeachRecursionTest.php:26 | unsetting the key of the entry at position k leaves exactly the entries before it and the entries after it, in the same order |
| Registry.RemoveMembers | tests/PhpForeachRecursionTest.php:26 | an entry survives the unset exactly when it is in the registry and its key is not the unset one |
| Registry.RemoveOids | tests/PhpForeachRecursionTest.php:26 | the registry's keys afterwards are its keys before minus the unset key |
| Registry.RemoveAbsent | tests/PhpForeachRecursionTest.php:26 | unsetting a key the registry does not hold changes nothing |
| Registry.RemoveDistinct | tests/PhpForeachRecursionTest.php:26 | unsetting keeps the keys unique |
| Registry.UnsetFirst | tests/PhpForeachRecursionTest.php:67-68 | unsetting the key of the first entry of a registry with unique keys leaves exactly the rest, whose keys stay unique |
| Registry.Visits | tests/PhpForeachRecursionTest.php:82-87 | a pass that visits each entry once logs as many entries as the registry holds |
| Registry.VisitsAt | tests/PhpForeachRecursionTest.php:82-87 | position i of that log is the entry of the registry's i-th element, so the log follows registry order |
| Registry.VisitsExactlyOnce | tests/PhpForeachRecursionTest.php:81-87 | with unique keys, such a pass logs each registry entry exactly once |
| Registry.VisitsOids | tests/PhpForeachRecursionTest.php:66 | every entry of such a pass names an object id of the registry |
| Registry.Decimal | tests/PhpForeachRecursionTest.php:25 | the interpolated `$oid` is a non-empty string of decimal digits |
| Registry.DecimalRoundTrip | tests/PhpForeachRecursionTest.php:25 | reading the digits back gives the oid |
| Registry.Render | tests/PhpForeachRecursionTest.php:25 | the logged string is the entity name, then '#', then decimal digits that read back as the oid |
| Registry.RenderVisitOf | tests/PhpForeachRecursionTest.php:66 | the string logged for a registry entry (VisitOf) reads `"$entity#$oid"`, and two entries log the same string exactly when they are the same entry |
| Registry.RenderLog | tests/PhpForeachRecursionTest.php:40-47 | the string array compared by `assertEquals` has one string per log entry, the rendering of the entry at the same position |
| Registry.RenderInjective | tests/PhpForeachRecursionTest.php:25 | two log entries with the same string `"$entity#$oid"` are the same (entity, oid) pair, even when the name holds '#' |
| WtfUnitOfWork.BuggyLog | tests/PhpForeachRecursionTest.php:22-36 | the by-value loop never logs fewer entries than the registry held |
| WtfUnitOfWork.BuggyLogSplit | tests/PhpForeachRecursionTest.php:24-27 | before the first 'human' nothing re-enters: those entries are logged once each, in order, and the rest behaves as a fresh call |
| WtfUnitOfWork.BuggyLogStartsInOrder | tests/PhpForeachRecursionTest.php:40-43 | the log starts with every entry once, in registry order: the nested call drains the rest before the outer loop resumes |
| WtfUnitOfWork.BuggyLogOids | tests/PhpForeachRecursionTest.php:24-25 | every log entry names an object id of the registry the call started with |
| WtfUnitOfWork.FirstVisitedOnce | tests/PhpForeachRecursionTest.php:41 | the first registry entry is logged exactly once |
| WtfUnitOfWork.BuggyVisitCount | tests/PhpForeachRecursionTest.php:44-46 | the entry at position k is logged 1 + (number of 'human' entries before it) times: the duplicates the test flags as not expected |
| WtfUnitOfWork.BuggyLogIsVisitsIff | tests/PhpForeachRecursionTest.php:22-36 | the by-value loop logs each entry once, in order, exactly when no 'human' is followed by another entry (HumanOnlyLast), in both directions |
| WtfUnitOfWork.HumanOnlyLastTail | tests/PhpForeachRecursionTest.php:31-35 | a leading entry other than 'human' does not change whether a 'human' is followed by another entry |
| WtfUnitOfWork.InitialBuggyLog | tests/PhpForeachRecursionTest.php:39-47 | from `{0:human, 1:head, 2:eye}` the log is human#0, head#1, eye#2, head#1, eye#2 |
| WtfUnitOfWork.LoopStart | tests/PhpForeachRecursionTest.php:24 | the loop starts with the copy equal to the live registry and nothing logged |
| WtfUnitOfWork.LoopVisit | tests/PhpForeachRecursionTest.php:26-27 | the registry handed to the event handler keeps unique keys and is smaller than the copy, so re-entry terminates |
| WtfUnitOfWork.LoopStep | tests/PhpForeachRecursionTest.php:25-27 | logging, unsetting and raising the event for one copied entry keeps the loop state (LoopState, with its phases BeforeHuman and AfterHuman) |
| WtfUnitOfWork.StepBeforeHuman | tests/PhpForeachRecursionTest.php:25-27 | before any 'human', one visit removes the visited entry from the front of the live registry and logs it |
| WtfUnitOfWork.StepAfterHuman | tests/PhpForeachRecursionTest.php:25-27 | after the nested call drained the registry, the loop only logs the copied entry again |
| WtfUnitOfWork.LoopEnd | tests/PhpForeachRecursionTest.php:28 | when the copy is exhausted the registry is empty and the log grew by BuggyLog of the copy |
| WtfUnitOfWork.EndAfterHuman | tests/PhpForeachRecursionTest.php:24-28 | the log of a loop that met a 'human' equals BuggyLog of the copy |
| WtfUnitOfWork.UnitOfWork.constructor | tests/PhpForeachRecursionTest.php:14-20 | the registry starts as `{0:human, 1:head, 2:eye}` and the log empty |
| WtfUnitOfWork.UnitOfWork.ExecuteUpdates | tests/PhpForeachRecursionTest.php:22-29 | afterwards the live registry is empty and the log is the old log followed by BuggyLog of the old registry |
| WtfUnitOfWork.UnitOfWork.OnSomeEvent | tests/PhpForeachRecursionTest.php:31-36 | for 'human' it re-enters and drains the registry; for any other entity nothing changes |
| FixedUnitOfWork.IterStart | tests/PhpForeachRecursionTest.php:65 | the iterator starts over the whole registry with nothing logged |
| FixedUnitOfWork.IterSkip | tests/PhpForeachRecursionTest.php:65 | an entry the live registry no longer holds is not yielded and changes nothing |
| FixedUnitOfWork.IterVisit | tests/PhpForeachRecursionTest.php:67-69 | a yielded entry is first in both the iterator and the live registry; unsetting it from both leaves their rest, smaller than the registry the call started with |
| FixedUnitOfWork.IterStep | tests/PhpForeachRecursionTest.php:66-69 | logging, unsetting and raising the event for a yielded entry keeps the iterator state |
| FixedUnitOfWork.IterStepHuman | tests/PhpForeachRecursionTest.php:69 | after a 'human' the nested call has logged the rest, so the whole registry is logged |
| FixedUnitOfWork.IterEnd | tests/PhpForeachRecursionTest.php:70 | when the iterator is exhausted the registry is empty and the log grew by Visits of the registry |
| FixedUnitOfWork.FixedLogExactlyOnce | tests/PhpForeachRecursionTest.php:81-87 | every entry of the registry appears once in the log and nothing else appears: no duplicates, no omissions |
| FixedUnitOfWork.InitialFixedLog | tests/PhpForeachRecursionTest.php:81-87 | from `{0:human, 1:head, 2:eye}` the log is human#0, head#1, eye#2 |
| FixedUnitOfWork.UnitOfWork.constructor | tests/PhpForeachRecursionTest.php:55-61 | the registry starts as `{0:human, 1:head, 2:eye}` and the log empty |
| FixedUnitOfWork.UnitOfWork.ExecuteUpdates | tests/PhpForeachRecursionTest.php:63-71 | with the idealised iterator: afterwards the live registry is empty and the log is the old log followed by each entry of the old registry once, in order |
| FixedUnitOfWork.UnitOfWork.OnSomeEvent | tests/PhpForeachRecursionTest.php:73-78 | for 'human' it re-enters and drains the registry; for any other entity nothing changes |
| ForeachRecursionTest.RenderedEntries | tests/PhpForeachRecursionTest.php:40-43 | `"$entity#$oid"` renders the three initial entries as human#0, head#1, eye#2 |
| ForeachRecursionTest.TestWtfEventCount | tests/PhpForeachRecursionTest.php:10-48 | running the by-value unit of work yields exactly the five strings the test asserts |
| ForeachRecursionTest.TestFixedEventCount | tests/PhpForeachRecursionTest.php:51-88 | running the iterator unit of work yields exactly the three strings the test asserts |

## Left out

- `ArrayIterator`'s own position handling is not modelled. `new \ArrayIterator($this->entities)` holds its own copy of the array and has no link to `$this->entities`, and each nested call has its own iterator. The model puts a liveness check in its place: the iterator walks its copy in registry order and skips an entry the live registry no longer holds. On the test's registry this yields the test's log.
- FixedUnitOfWork.UnitOfWork.ExecuteUpdates: describes the idealised iterator, not the PHP loop on general registries. PHP's iterator moves on when the current key is unset, and `foreach` then steps again, so the two logs can differ on other registries.
- FixedUnitOfWork.UnitOfWork.OnSomeEvent: its re-entry into `ExecuteUpdates` carries the same idealised iterator.
- FixedUnitOfWork.FixedLogExactlyOnce: is a property of the idealised iterator's log `Visits`, not of the PHP loop on general registries.
- PHP's copy-on-write of arrays is not modelled: the by-value `foreach` is a loop over a local copy of the registry.
- Object ids are `nat`: the source's registry keys are small non-negative integers, so PHP's string and negative keys do not arise.
- `onSomeEvent`'s `$oid` parameter is kept but, as in the source, unused.
- PHPUnit's `assertEquals` becomes the `ensures` of the two test methods. PHPUnit itself is not modelled.
- tests/DuplicateUpdatesBugTest.php is not part of this model. It needs Doctrine ORM's unit of work, an SQLite connection, SQL logging, mapping drivers and reflection, none of whose source is here.
