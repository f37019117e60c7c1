/**
 * The second unit of work of tests/PhpForeachRecursionTest.php
 * (testFixedEventCount): `executeUpdates` walks an `ArrayIterator` over the
 * registry and unsets each visited key both from the iterator and from the
 * live registry. The iterator holds its own copy of the array and has no
 * link to the live registry. In the model it is idealised: it yields the
 * entries of its copy in registry order and skips any that the live registry
 * no longer holds. That rule gives the log the test asserts on its one
 * registry. It is not how PHP's iterator steps, so on other registries the
 * model's log is not the PHP loop's.
 */
module FixedUnitOfWork {
  import opened Registry

  /**
   * Where the iterator loop stands: `it` is what the iterator has still to
   * offer, a suffix of the registry `reg` the call started with. Either no
   * nested call has run yet, and the live registry is exactly `it`; or a
   * nested call has handled everything, and the loop has nothing left to log.
   */
  ghost predicate IterState(reg: seq<Entry>, it: seq<Entry>, start: seq<Visit>, live: seq<Entry>, log: seq<Visit>)
  {
    && DistinctOids(reg) && |it| <= |reg| && it == reg[|reg| - |it|..]
    && ((live == it && log == start + Visits(reg[..|reg| - |it|]))
        || (live == [] && log == start + Visits(reg)))
  }

  lemma {:induction false} IterStart(reg: seq<Entry>, start: seq<Visit>)
    requires DistinctOids(reg)
    ensures IterState(reg, reg, start, reg, start)
  {
    assert reg[..0] == [] && reg[0..] == reg;
  }

  /** An entry no longer in the live registry is passed over, and nothing else changes. */
  lemma {:induction false} IterSkip(reg: seq<Entry>, it: seq<Entry>, start: seq<Visit>, live: seq<Entry>, log: seq<Visit>)
    requires IterState(reg, it, start, live, log) && it != [] && it[0].oid !in Oids(live)
    ensures IterState(reg, it[1..], start, live, log)
  {
    assert it[0] in it;
    assert it[1..] == reg[|reg| - |it| + 1..];
  }

  /**
   * An entry still in the live registry is the first entry of both; unsetting
   * it leaves the rest of each, which the event handler receives.
   */
  lemma {:induction false} IterVisit(reg: seq<Entry>, it: seq<Entry>, start: seq<Visit>, live: seq<Entry>, log: seq<Visit>)
    requires IterState(reg, it, start, live, log) && it != [] && it[0].oid in Oids(live)
    ensures live == it && Remove(it, it[0].oid) == it[1..] && Remove(live, it[0].oid) == it[1..]
    ensures DistinctOids(it[1..]) && |it[1..]| < |reg|
  {
    assert live != [];
    DistinctOidsSuffix(reg, |reg| - |it|);
    UnsetFirst(it);
    DistinctOidsTail(it);
  }

  /** Logging the entry and letting the handler run keeps IterState. */
  lemma {:induction false} IterStep(reg: seq<Entry>, it: seq<Entry>, start: seq<Visit>, live: seq<Entry>, log: seq<Visit>,
                                    live': seq<Entry>, log': seq<Visit>)
    requires IterState(reg, it, start, live, log) && it != [] && live == it
    requires var e := it[0];
             && live' == (if e.name == Human then [] else it[1..])
             && log' == log + [VisitOf(e)] + (if e.name == Human then Visits(it[1..]) else [])
    ensures IterState(reg, it[1..], start, live', log')
  {
    var k := |reg| - |it|;
    assert reg[k] == it[0] && it[1..] == reg[k + 1..];
    assert log == start + Visits(reg[..k]);
    VisitsSnoc(reg, 0, k);
    assert reg[..k] == reg[0..k] && reg[..k + 1] == reg[0..k + 1];
    ConcatAssoc(start, Visits(reg[..k]), [VisitOf(it[0])]);
    if it[0].name == Human {
      IterStepHuman(reg, k, start, log');
    } else {
      assert log' == log + [VisitOf(it[0])];
    }
  }

  lemma {:induction false} IterStepHuman(reg: seq<Entry>, k: int, start: seq<Visit>, log': seq<Visit>)
    requires 0 <= k < |reg|
    requires log' == start + Visits(reg[..k + 1]) + Visits(reg[k + 1..])
    ensures log' == start + Visits(reg)
  {
    VisitsAppend(reg[..k + 1], reg[k + 1..]);
    assert reg[..k + 1] + reg[k + 1..] == reg;
    ConcatAssoc(start, Visits(reg[..k + 1]), Visits(reg[k + 1..]));
  }

  lemma {:induction false} IterEnd(reg: seq<Entry>, start: seq<Visit>, live: seq<Entry>, log: seq<Visit>)
    requires IterState(reg, [], start, live, log)
    ensures live == [] && log == start + Visits(reg)
  {
    assert reg[..|reg|] == reg;
  }

  /**
   * Every entry of the registry is logged exactly once, and nothing else is:
   * no duplicates, no omissions.
   */
  lemma {:induction false} FixedLogExactlyOnce(reg: seq<Entry>, v: Visit)
    requires DistinctOids(reg)
    ensures multiset(Visits(reg))[v] == (if exists k :: 0 <= k < |reg| && VisitOf(reg[k]) == v then 1 else 0)
  {
    if k :| 0 <= k < |reg| && VisitOf(reg[k]) == v {
      VisitsExactlyOnce(reg, k);
    } else if v in Visits(reg) {
      var i :| 0 <= i < |reg| && Visits(reg)[i] == v;
      VisitsAt(reg, i);
    }
  }

  /** The log testFixedEventCount asserts. */
  lemma InitialFixedLog()
    ensures Visits(InitialEntities()) == [Visit("human", 0), Visit("head", 1), Visit("eye", 2)]
  {
  }

  class UnitOfWork {
    /** `$entities`: the live registry. */
    var entities: seq<Entry>
    /** `$updatedEntities`: the append-only log. */
    var updatedEntities: seq<Visit>

    ghost predicate Valid()
      reads this
    {
      DistinctOids(entities)
    }

    constructor ()
      ensures Valid()
      ensures entities == InitialEntities() && updatedEntities == []
    {
      entities := InitialEntities();
      updatedEntities := [];
    }

    /**
     * Walks the idealised iterator over the registry. Each entry it yields is logged,
     * unset from the iterator and from the live registry, then the event is
     * raised, which may re-enter. Afterwards the registry is empty and each
     * entry it held has been logged once, in registry order.
     */
    method ExecuteUpdates()
      requires Valid()
      modifies this
      decreases |entities|, 0
      ensures Valid() && entities == []
      ensures updatedEntities == old(updatedEntities) + Visits(old(entities))
    {
      var it := entities;
      IterStart(entities, updatedEntities);
      while it != []
        invariant IterState(old(entities), it, old(updatedEntities), entities, updatedEntities)
        decreases |it|
      {
        var oid, entity := it[0].oid, it[0].name;
        if oid !in Oids(entities) {
          // already unset by a nested call: the model's iterator skips it
          IterSkip(old(entities), it, old(updatedEntities), entities, updatedEntities);
          it := it[1..];
        } else {
          ghost var before, live, log := it, entities, updatedEntities;
          IterVisit(old(entities), it, old(updatedEntities), entities, updatedEntities);
          updatedEntities := updatedEntities + [Visit(entity, oid)];
          it := Remove(it, oid);
          entities := Remove(entities, oid);
          OnSomeEvent(oid, entity);
          IterStep(old(entities), before, old(updatedEntities), live, log, entities, updatedEntities);
        }
      }
      IterEnd(old(entities), old(updatedEntities), entities, updatedEntities);
    }

    /** `onSomeEvent`: re-enters `executeUpdates` for a 'human' and does nothing otherwise. */
    method OnSomeEvent(oid: nat, entity: string)
      requires Valid()
      modifies this
      decreases |entities|, 1
      ensures Valid()
      ensures entity == Human ==>
                entities == [] && updatedEntities == old(updatedEntities) + Visits(old(entities))
      ensures entity != Human ==>
                entities == old(entities) && updatedEntities == old(updatedEntities)
    {
      if entity == Human {
        ExecuteUpdates();
      }
    }
  }
}
