/**
 * The first unit of work of tests/PhpForeachRecursionTest.php (testWtfEventCount):
 * `executeUpdates` runs `foreach` over `$this->entities` by value, so the loop
 * walks the copy of the registry taken when it starts, even after a nested
 * call has drained the live registry.
 */
module WtfUnitOfWork {
  import opened Registry

  /**
   * The entries one call of `executeUpdates` appends to the log, in closed form:
   * the first entry is visited; a 'human' re-enters, which handles the rest of the
   * registry (BuggyLog of the rest), after which the outer loop still walks its
   * copy and logs the rest of the registry once more.
   */
  function BuggyLog(reg: seq<Entry>): (r: seq<Visit>)
    ensures |r| >= |reg|
  {
    if reg == [] then []
    else [VisitOf(reg[0])] + BuggyLog(reg[1..]) + (if reg[0].name == Human then Visits(reg[1..]) else [])
  }

  /**
   * Before the first 'human' nothing re-enters: the loop logs those entries
   * once each, in order, and from there on behaves as a fresh call on the rest.
   */
  lemma {:induction false} BuggyLogSplit(reg: seq<Entry>, k: nat)
    requires k <= |reg|
    requires forall i :: 0 <= i < k ==> reg[i].name != Human
    ensures BuggyLog(reg) == Visits(reg[..k]) + BuggyLog(reg[k..])
  {
    if k == 0 {
      assert reg[..0] == [] && reg[0..] == reg;
    } else {
      var rest := reg[1..];
      BuggyLogSplit(rest, k - 1);
      assert rest[..k - 1] == reg[1..k] && rest[k - 1..] == reg[k..];
      assert BuggyLog(reg) == [VisitOf(reg[0])] + BuggyLog(rest);
      assert reg[..k] == [reg[0]] + reg[1..k];
      VisitsAppend([reg[0]], reg[1..k]);
      ConcatAssoc([VisitOf(reg[0])], Visits(reg[1..k]), BuggyLog(reg[k..]));
    }
  }

  /**
   * The log starts with every entry once, in registry order: the nested call
   * drains the remaining entries before the outer loop resumes.
   */
  lemma {:induction false} BuggyLogStartsInOrder(reg: seq<Entry>)
    ensures BuggyLog(reg)[..|reg|] == Visits(reg)
  {
    if reg != [] {
      BuggyLogStartsInOrder(reg[1..]);
      var rest := BuggyLog(reg[1..]);
      assert BuggyLog(reg)[..|reg|] == [VisitOf(reg[0])] + rest[..|reg| - 1];
      VisitsAppend([reg[0]], reg[1..]);
      assert reg == [reg[0]] + reg[1..];
    }
  }

  /** Every log entry names an object id of the registry the call started with. */
  lemma {:induction false} BuggyLogOids(reg: seq<Entry>, v: Visit)
    requires v in BuggyLog(reg)
    ensures v.oid in Oids(reg)
  {
    assert reg != [];
    assert reg[0] in reg;
    if v in BuggyLog(reg[1..]) {
      BuggyLogOids(reg[1..], v);
    } else if v in Visits(reg[1..]) {
      VisitsOids(reg[1..], v);
    }
    assert Oids(reg) == {reg[0].oid} + Oids(reg[1..]) by {
      assert reg == [reg[0]] + reg[1..];
    }
  }

  /** The first entry of the registry is logged exactly once. */
  lemma {:induction false} FirstVisitedOnce(reg: seq<Entry>)
    requires DistinctOids(reg) && reg != []
    ensures multiset(BuggyLog(reg))[VisitOf(reg[0])] == 1
  {
    var e, rest := reg[0], reg[1..];
    var v := VisitOf(e);
    var extra := if e.name == Human then Visits(rest) else [];
    assert BuggyLog(reg) == [v] + BuggyLog(rest) + extra;
    assert multiset(BuggyLog(reg)) == multiset{v} + multiset(BuggyLog(rest)) + multiset(extra);
    DistinctOidsTail(reg);
    assert v !in BuggyLog(rest) by {
      if v in BuggyLog(rest) { BuggyLogOids(rest, v); }
    }
    assert v !in extra by {
      if v in extra { VisitsOids(rest, v); }
    }
  }

  /**
   * The duplicates the source flags as "not expected": the entry at position k
   * is logged once, plus once more for every 'human' registered before it,
   * whose nested call had already unset it.
   */
  lemma {:induction false} BuggyVisitCount(reg: seq<Entry>, k: nat)
    requires DistinctOids(reg)
    requires k < |reg|
    ensures multiset(BuggyLog(reg))[VisitOf(reg[k])] == 1 + HumanCount(reg[..k])
  {
    if k == 0 {
      FirstVisitedOnce(reg);
    } else {
      var e, rest := reg[0], reg[1..];
      var v := VisitOf(reg[k]);
      var extra := if e.name == Human then Visits(rest) else [];
      var before := if e.name == Human then 1 else 0;
      DistinctOidsTail(reg);
      assert v == VisitOf(rest[k - 1]) && rest[k - 1] in rest;
      BuggyVisitCount(rest, k - 1);
      assert multiset(extra)[v] == before by {
        if e.name == Human { VisitsExactlyOnce(rest, k - 1); }
      }
      HumanCountPrefix(reg, k);
      assert BuggyLog(reg) == [VisitOf(e)] + BuggyLog(rest) + extra;
      assert multiset(BuggyLog(reg)) == multiset{VisitOf(e)} + multiset(BuggyLog(rest)) + multiset(extra);
    }
  }

  /** No 'human' is followed by another entry: no handler re-enters while entries remain. */
  ghost predicate HumanOnlyLast(reg: seq<Entry>)
  {
    forall i :: 0 <= i < |reg| - 1 ==> reg[i].name != Human
  }

  /**
   * The by-value loop gives the same log as a loop that visits each entry once
   * exactly when no 'human' is followed by another entry.
   */
  lemma {:induction false} BuggyLogIsVisitsIff(reg: seq<Entry>)
    ensures BuggyLog(reg) == Visits(reg) <==> HumanOnlyLast(reg)
  {
    if reg != [] {
      var e, rest := reg[0], reg[1..];
      assert Visits(reg) == [VisitOf(e)] + Visits(rest);
      if e.name != Human {
        BuggyLogIsVisitsIff(rest);
        HumanOnlyLastTail(reg);
        assert BuggyLog(reg) == [VisitOf(e)] + BuggyLog(rest) + [];
        ConsCancel(VisitOf(e), BuggyLog(rest), Visits(rest));
      } else if rest == [] {
        assert BuggyLog(reg) == [VisitOf(e)] + [] + [];
      } else {
        assert |BuggyLog(reg)| > |Visits(reg)|;
        assert 0 < |reg| - 1 && reg[0].name == Human;
      }
    }
  }

  lemma {:induction false} HumanOnlyLastTail(reg: seq<Entry>)
    requires reg != [] && reg[0].name != Human
    ensures HumanOnlyLast(reg) <==> HumanOnlyLast(reg[1..])
  {
    var rest := reg[1..];
    if HumanOnlyLast(reg) {
      forall i | 0 <= i < |rest| - 1 ensures rest[i].name != Human {
        assert rest[i] == reg[i + 1];
      }
    }
    if HumanOnlyLast(rest) {
      forall i | 0 < i < |reg| - 1 ensures reg[i].name != Human {
        assert reg[i] == rest[i - 1];
      }
    }
  }

  /** The log testWtfEventCount asserts, derived from the closed form. */
  lemma InitialBuggyLog()
    ensures BuggyLog(InitialEntities())
         == [Visit("human", 0), Visit("head", 1), Visit("eye", 2), Visit("head", 1), Visit("eye", 2)]
  {
    var reg := InitialEntities();
    assert reg[1..][1..][1..] == [];
    assert BuggyLog(reg[1..][1..]) == [Visit("eye", 2)];
    assert BuggyLog(reg[1..]) == [Visit("head", 1), Visit("eye", 2)];
  }

  /**
   * Where the by-value loop stands after visiting `snapshot[..i]`, `h` being
   * the position of the first 'human' visited (-1 while there is none).
   */
  ghost predicate LoopState(snapshot: seq<Entry>, i: int, h: int, start: seq<Visit>,
                            live: seq<Entry>, log: seq<Visit>)
  {
    && 0 <= i <= |snapshot| && -1 <= h < i && DistinctOids(snapshot)
    && (if h < 0 then BeforeHuman(snapshot, i, start, live, log) else AfterHuman(snapshot, i, h, start, live, log))
  }

  /**
   * No 'human' visited yet: no call has re-entered, the live registry is the
   * unvisited part of the copy and the log holds the visited part once.
   */
  ghost predicate BeforeHuman(snapshot: seq<Entry>, i: int, start: seq<Visit>, live: seq<Entry>, log: seq<Visit>)
    requires 0 <= i <= |snapshot|
  {
    && (forall k :: 0 <= k < i ==> snapshot[k].name != Human)
    && live == snapshot[i..] && log == start + Visits(snapshot[..i])
  }

  /**
   * The first 'human' sits at `h`: its nested call drained the live registry,
   * logging BuggyLog of the rest, and since then the loop only logs its copy.
   */
  ghost predicate AfterHuman(snapshot: seq<Entry>, i: int, h: int, start: seq<Visit>, live: seq<Entry>, log: seq<Visit>)
    requires 0 <= h < i <= |snapshot|
  {
    && (forall k :: 0 <= k < h ==> snapshot[k].name != Human)
    && snapshot[h].name == Human && live == []
    && log == start + Visits(snapshot[..h + 1]) + BuggyLog(snapshot[h + 1..]) + Visits(snapshot[h + 1..i])
  }

  lemma {:induction false} LoopStart(snapshot: seq<Entry>, start: seq<Visit>)
    requires DistinctOids(snapshot)
    ensures LoopState(snapshot, 0, -1, start, snapshot, start)
  {
    assert snapshot[..0] == [] && snapshot[0..] == snapshot;
  }

  /** The registry a visit hands to the event handler is still duplicate-free and smaller than the copy. */
  lemma {:induction false} LoopVisit(snapshot: seq<Entry>, i: int, h: int, start: seq<Visit>, live: seq<Entry>, log: seq<Visit>)
    requires LoopState(snapshot, i, h, start, live, log) && i < |snapshot|
    ensures DistinctOids(Remove(live, snapshot[i].oid)) && |Remove(live, snapshot[i].oid)| < |snapshot|
  {
    if h < 0 {
      UnsetFirst(snapshot[i..]);
    }
  }

  /**
   * One visit keeps LoopState: log the entry, unset it, and, for a 'human',
   * let the nested call append BuggyLog of what is left and drain it.
   */
  lemma {:induction false} LoopStep(snapshot: seq<Entry>, i: int, h: int, start: seq<Visit>, live: seq<Entry>, log: seq<Visit>,
                                    h': int, logged: seq<Visit>, live': seq<Entry>, log': seq<Visit>)
    requires LoopState(snapshot, i, h, start, live, log) && i < |snapshot|
    requires logged == log + [VisitOf(snapshot[i])]
    requires snapshot[i].name == Human ==> live' == [] && log' == logged + BuggyLog(Remove(live, snapshot[i].oid))
    requires snapshot[i].name != Human ==> live' == Remove(live, snapshot[i].oid) && log' == logged
    requires h' == if h < 0 && snapshot[i].name == Human then i else h
    ensures LoopState(snapshot, i + 1, h', start, live', log')
  {
    if h < 0 {
      StepBeforeHuman(snapshot, i, start, live, log);
    } else {
      StepAfterHuman(snapshot, i, h, start, live, log);
      assert BuggyLog([]) == [] && logged + [] == logged;
    }
  }

  lemma {:induction false} StepBeforeHuman(snapshot: seq<Entry>, i: int, start: seq<Visit>, live: seq<Entry>, log: seq<Visit>)
    requires LoopState(snapshot, i, -1, start, live, log) && i < |snapshot|
    ensures var e := snapshot[i];
            var live' := Remove(live, e.oid);
            var log' := log + [VisitOf(e)];
            && live' == snapshot[i + 1..] && DistinctOids(live')
            && LoopState(snapshot, i + 1, if e.name == Human then i else -1, start,
                         if e.name == Human then [] else live',
                         if e.name == Human then log' + BuggyLog(live') else log')
  {
    var e := snapshot[i];
    var v := VisitOf(e);
    UnsetFirst(snapshot[i..]);
    assert snapshot[i..][1..] == snapshot[i + 1..];
    VisitsSnoc(snapshot, 0, i);
    ConcatAssoc(start, Visits(snapshot[..i]), [v]);
    if e.name == Human {
      assert Visits(snapshot[i + 1..i + 1]) == [];
      assert log + [v] + BuggyLog(snapshot[i + 1..]) + [] == log + [v] + BuggyLog(snapshot[i + 1..]);
    }
  }

  lemma {:induction false} StepAfterHuman(snapshot: seq<Entry>, i: int, h: int, start: seq<Visit>, live: seq<Entry>, log: seq<Visit>)
    requires LoopState(snapshot, i, h, start, live, log) && 0 <= h && i < |snapshot|
    ensures var e := snapshot[i];
            var log' := log + [VisitOf(e)];
            && Remove(live, e.oid) == []
            && LoopState(snapshot, i + 1, h, start, [], log')
  {
    var v := VisitOf(snapshot[i]);
    VisitsSnoc(snapshot, h + 1, i);
    ConcatAssoc(start + Visits(snapshot[..h + 1]) + BuggyLog(snapshot[h + 1..]), Visits(snapshot[h + 1..i]), [v]);
  }

  /** When the loop is done the registry is empty and the log holds BuggyLog of the copy. */
  lemma {:induction false} LoopEnd(snapshot: seq<Entry>, h: int, start: seq<Visit>, live: seq<Entry>, log: seq<Visit>)
    requires LoopState(snapshot, |snapshot|, h, start, live, log)
    ensures live == [] && log == start + BuggyLog(snapshot)
  {
    if h < 0 {
      BuggyLogSplit(snapshot, |snapshot|);
      assert snapshot[..|snapshot|] == snapshot;
    } else {
      EndAfterHuman(snapshot, h, start, log);
    }
  }

  lemma {:induction false} EndAfterHuman(snapshot: seq<Entry>, h: int, start: seq<Visit>, log: seq<Visit>)
    requires 0 <= h < |snapshot| && snapshot[h].name == Human
    requires forall k :: 0 <= k < h ==> snapshot[k].name != Human
    requires log == start + Visits(snapshot[..h + 1]) + BuggyLog(snapshot[h + 1..]) + Visits(snapshot[h + 1..|snapshot|])
    ensures log == start + BuggyLog(snapshot)
  {
    var n := |snapshot|;
    var before, v, nested, after :=
      Visits(snapshot[..h]), VisitOf(snapshot[h]), BuggyLog(snapshot[h + 1..]), Visits(snapshot[h + 1..]);
    BuggyLogSplit(snapshot, h);
    assert snapshot[h..][1..] == snapshot[h + 1..] && snapshot[h + 1..n] == snapshot[h + 1..];
    assert BuggyLog(snapshot[h..]) == [v] + nested + after;
    VisitsSnoc(snapshot, 0, h);
    assert log == start + (before + [v]) + nested + after;
    ConcatAssoc(before, [v] + nested, after);
    ConcatAssoc(before, [v], nested);
    ConcatAssoc(start, before + [v] + nested, after);
    ConcatAssoc(start, before + [v], nested);
  }

  class UnitOfWork {
    /** `$entities`: the live registry. */
    var entities: seq<Entry>
    /** `$updatedEntities`: the append-only log. */
    var updatedEntities: seq<Visit>

    ghost predicate Valid()
      reads this
    {
      DistinctOids(entities)
    }

    constructor ()
      ensures Valid()
      ensures entities == InitialEntities() && updatedEntities == []
    {
      entities := InitialEntities();
      updatedEntities := [];
    }

    /**
     * Walks the copy of the registry taken at loop entry. Each visit logs the
     * entry, unsets it from the live registry, then raises the event, which may
     * re-enter. Afterwards the registry is empty and the log has grown by
     * exactly BuggyLog of the registry the call started with.
     */
    method ExecuteUpdates()
      requires Valid()
      modifies this
      decreases |entities|, 0
      ensures Valid() && entities == []
      ensures updatedEntities == old(updatedEntities) + BuggyLog(old(entities))
    {
      var snapshot := entities;
      ghost var h := -1;  // position of the first 'human' visited, -1 before it
      var i := 0;
      LoopStart(snapshot, updatedEntities);
      while i < |snapshot|
        invariant LoopState(snapshot, i, h, old(updatedEntities), entities, updatedEntities)
      {
        var oid, entity := snapshot[i].oid, snapshot[i].name;
        ghost var live, log := entities, updatedEntities;
        LoopVisit(snapshot, i, h, old(updatedEntities), live, log);
        updatedEntities := updatedEntities + [Visit(entity, oid)];
        entities := Remove(entities, oid);
        ghost var logged := updatedEntities;
        OnSomeEvent(oid, entity);
        ghost var h' := if h < 0 && entity == Human then i else h;
        LoopStep(snapshot, i, h, old(updatedEntities), live, log, h', logged, entities, updatedEntities);
        h, i := h', i + 1;
      }
      LoopEnd(snapshot, h, old(updatedEntities), entities, updatedEntities);
    }

    /** `onSomeEvent`: re-enters `executeUpdates` for a 'human' and does nothing otherwise. */
    method OnSomeEvent(oid: nat, entity: string)
      requires Valid()
      modifies this
      decreases |entities|, 1
      ensures Valid()
      ensures entity == Human ==>
                entities == [] && updatedEntities == old(updatedEntities) + BuggyLog(old(entities))
      ensures entity != Human ==>
                entities == old(entities) && updatedEntities == old(updatedEntities)
    {
      if entity == Human {
        ExecuteUpdates();
      }
    }
  }
}
