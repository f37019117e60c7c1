/**
 * The state shared by both unit-of-work classes of tests/PhpForeachRecursionTest.php:
 * the registry `$entities` (a PHP array from object id to entity name, whose
 * order is insertion order) and the entries of the log `$updatedEntities`.
 */
module Registry {

  /** One registry entry, `$oid => $entity`. */
  datatype Entry = Entry(oid: nat, name: string)

  /** One log entry, the string `"$entity#$oid"` kept as its two parts. */
  datatype Visit = Visit(entity: string, oid: nat)

  /** The only entity whose event handler re-enters `executeUpdates`. */
  const Human: string := "human"

  /** The registry both anonymous classes are created with. */
  function InitialEntities(): (r: seq<Entry>)
    ensures |r| == 3 && DistinctOids(r) && r[0].name == Human
    ensures forall i :: 0 <= i < |r| ==> r[i].oid == i
  {
    [Entry(0, "human"), Entry(1, "head"), Entry(2, "eye")]
  }

  /** The log entry made for registry entry `e`. */
  function VisitOf(e: Entry): Visit
  {
    Visit(e.name, e.oid)
  }

  /** PHP array keys are unique: no two entries share an object id. */
  ghost predicate DistinctOids(reg: seq<Entry>)
  {
    forall i, j | 0 <= i < j < |reg| :: reg[i].oid != reg[j].oid
  }

  function Oids(reg: seq<Entry>): set<nat>
  {
    set e | e in reg :: e.oid
  }

  lemma {:induction false} DistinctOidsCons(e: Entry, reg: seq<Entry>)
    ensures DistinctOids([e] + reg) <==> e.oid !in Oids(reg) && DistinctOids(reg)
  {
    var s := [e] + reg;
    if DistinctOids(s) {
      forall x | x in reg ensures x.oid != e.oid {
        var j :| 0 <= j < |reg| && reg[j] == x;
        assert s[0] == e && s[j + 1] == x;
      }
      forall i, j | 0 <= i < j < |reg| ensures reg[i].oid != reg[j].oid {
        assert s[i + 1] == reg[i] && s[j + 1] == reg[j];
      }
    }
    if e.oid !in Oids(reg) && DistinctOids(reg) {
      forall i, j | 0 <= i < j < |s| ensures s[i].oid != s[j].oid {
        if i == 0 {
          assert s[j] == reg[j - 1];
        } else {
          assert s[i] == reg[i - 1] && s[j] == reg[j - 1];
        }
      }
    }
  }

  lemma {:induction false} DistinctOidsTail(reg: seq<Entry>)
    requires DistinctOids(reg) && reg != []
    ensures DistinctOids(reg[1..]) && reg[0].oid !in Oids(reg[1..])
  {
    DistinctOidsCons(reg[0], reg[1..]);
    assert reg == [reg[0]] + reg[1..];
  }

  lemma {:induction false} DistinctOidsSuffix(reg: seq<Entry>, k: nat)
    requires DistinctOids(reg) && k <= |reg|
    ensures DistinctOids(reg[k..])
  {
    forall i, j | 0 <= i < j < |reg| - k ensures reg[k..][i].oid != reg[k..][j].oid {
      assert reg[k..][i] == reg[k + i] && reg[k..][j] == reg[k + j];
    }
  }

  /**
   * `unset($reg[$oid])`: the entry with key `oid` is gone and every other
   * entry stays, in the same order.
   */
  function Remove(reg: seq<Entry>, oid: nat): (r: seq<Entry>)
    ensures |r| <= |reg|
  {
    if reg == [] then []
    else if reg[0].oid == oid then Remove(reg[1..], oid)
    else [reg[0]] + Remove(reg[1..], oid)
  }

  /** Unsetting keeps exactly the entries whose key is not `oid`. */
  lemma {:induction false} RemoveMembers(reg: seq<Entry>, oid: nat, e: Entry)
    ensures e in Remove(reg, oid) <==> e in reg && e.oid != oid
  {
    if reg != [] {
      RemoveMembers(reg[1..], oid, e);
      assert reg == [reg[0]] + reg[1..];
    }
  }

  /** Unsetting takes exactly the key `oid` out of the registry's keys. */
  lemma {:induction false} RemoveOids(reg: seq<Entry>, oid: nat)
    ensures Oids(Remove(reg, oid)) == Oids(reg) - {oid}
  {
    var r := Remove(reg, oid);
    forall x ensures x in Oids(r) <==> x in Oids(reg) - {oid} {
      if x in Oids(r) {
        var e :| e in r && e.oid == x;
        RemoveMembers(reg, oid, e);
      }
      if x in Oids(reg) && x != oid {
        var e :| e in reg && e.oid == x;
        RemoveMembers(reg, oid, e);
      }
    }
  }

  /** Unsetting a key the registry does not hold changes nothing. */
  lemma {:induction false} RemoveAbsent(reg: seq<Entry>, oid: nat)
    requires oid !in Oids(reg)
    ensures Remove(reg, oid) == reg
  {
    if reg != [] {
      assert reg[0] in reg;
      assert oid !in Oids(reg[1..]) by {
        forall e | e in reg[1..] ensures e in reg { }
      }
      RemoveAbsent(reg[1..], oid);
      assert reg == [reg[0]] + reg[1..];
    }
  }

  /** Unsetting keeps the keys unique. */
  lemma {:induction false} RemoveDistinct(reg: seq<Entry>, oid: nat)
    requires DistinctOids(reg)
    ensures DistinctOids(Remove(reg, oid))
  {
    if reg != [] {
      DistinctOidsTail(reg);
      RemoveDistinct(reg[1..], oid);
      if reg[0].oid != oid {
        RemoveOids(reg[1..], oid);
        DistinctOidsCons(reg[0], Remove(reg[1..], oid));
      }
    }
  }

  /** Unsetting any key keeps every other entry, in the same order. */
  lemma {:induction false} RemoveOrder(reg: seq<Entry>, k: nat)
    requires DistinctOids(reg) && k < |reg|
    ensures Remove(reg, reg[k].oid) == reg[..k] + reg[k + 1..]
  {
    if k == 0 {
      UnsetFirst(reg);
      assert reg[..0] + reg[1..] == reg[1..];
    } else {
      var rest := reg[1..];
      DistinctOidsTail(reg);
      RemoveOrder(rest, k - 1);
      assert rest[k - 1] == reg[k] && reg[k] in rest;
      assert rest[..k - 1] == reg[1..k] && rest[k..] == reg[k + 1..];
      assert reg[..k] == [reg[0]] + reg[1..k];
      ConcatAssoc([reg[0]], reg[1..k], reg[k + 1..]);
    }
  }

  /** Unsetting the first key of a registry leaves the rest of it, whose keys stay unique. */
  lemma {:induction false} UnsetFirst(reg: seq<Entry>)
    requires DistinctOids(reg) && reg != []
    ensures Remove(reg, reg[0].oid) == reg[1..] && DistinctOids(reg[1..])
  {
    DistinctOidsTail(reg);
    RemoveAbsent(reg[1..], reg[0].oid);
  }

  /** The log of a pass that visits every entry of `reg` once, in registry order. */
  function Visits(reg: seq<Entry>): (r: seq<Visit>)
    ensures |r| == |reg|
  {
    if reg == [] then [] else [VisitOf(reg[0])] + Visits(reg[1..])
  }

  /** Position i of the log is the visit of the registry's i-th entry. */
  lemma {:induction false} VisitsAt(reg: seq<Entry>, i: nat)
    requires i < |reg|
    ensures Visits(reg)[i] == VisitOf(reg[i])
  {
    if i > 0 {
      VisitsAt(reg[1..], i - 1);
    }
  }

  lemma {:induction false} VisitsAppend(a: seq<Entry>, b: seq<Entry>)
    ensures Visits(a + b) == Visits(a) + Visits(b)
  {
    forall i | 0 <= i < |a + b| ensures Visits(a + b)[i] == (Visits(a) + Visits(b))[i] {
      VisitsAt(a + b, i);
      if i < |a| { VisitsAt(a, i); } else { VisitsAt(b, i - |a|); }
    }
  }

  lemma {:induction false} VisitsSnoc(reg: seq<Entry>, lo: nat, i: nat)
    requires lo <= i < |reg|
    ensures Visits(reg[lo..i + 1]) == Visits(reg[lo..i]) + [VisitOf(reg[i])]
  {
    assert reg[lo..i + 1] == reg[lo..i] + [reg[i]];
    VisitsAppend(reg[lo..i], [reg[i]]);
  }

  /** Associativity of concatenation, called as a hint where the solver does not regroup on its own. */
  lemma {:induction false} ConcatAssoc<T>(a: seq<T>, b: seq<T>, c: seq<T>)
    ensures a + (b + c) == a + b + c
  {
  }

  lemma {:induction false} ConsCancel<T>(v: T, a: seq<T>, b: seq<T>)
    ensures [v] + a == [v] + b <==> a == b
  {
    if [v] + a == [v] + b {
      assert a == ([v] + a)[1..] && b == ([v] + b)[1..];
    }
  }

  /** Every log entry of such a pass names an object id of the registry. */
  lemma {:induction false} VisitsOids(reg: seq<Entry>, v: Visit)
    requires v in Visits(reg)
    ensures v.oid in Oids(reg)
  {
    var i :| 0 <= i < |reg| && Visits(reg)[i] == v;
    VisitsAt(reg, i);
    assert reg[i] in reg;
  }

  /** A pass over a registry with unique keys logs each of its entries exactly once. */
  lemma {:induction false} VisitsExactlyOnce(reg: seq<Entry>, k: nat)
    requires DistinctOids(reg)
    requires k < |reg|
    ensures multiset(Visits(reg))[VisitOf(reg[k])] == 1
  {
    var e, rest := reg[0], reg[1..];
    DistinctOidsCons(e, rest);
    assert reg == [e] + rest;
    assert multiset(Visits(reg)) == multiset{VisitOf(e)} + multiset(Visits(rest));
    if k == 0 {
      if VisitOf(e) in Visits(rest) {
        VisitsOids(rest, VisitOf(e));
      }
    } else {
      assert reg[k] == rest[k - 1];
      VisitsExactlyOnce(rest, k - 1);
    }
  }

  /** Number of entries of `reg` whose handler re-enters `executeUpdates`. */
  function HumanCount(reg: seq<Entry>): nat
  {
    if reg == [] then 0 else (if reg[0].name == Human then 1 else 0) + HumanCount(reg[1..])
  }

  lemma {:induction false} HumanCountPrefix(reg: seq<Entry>, k: nat)
    requires 0 < k <= |reg|
    ensures HumanCount(reg[..k]) == (if reg[0].name == Human then 1 else 0) + HumanCount(reg[1..][..k - 1])
  {
    assert reg[..k][1..] == reg[1..][..k - 1];
  }

  // Rendering of a log entry as the string the source appends.

  function DigitChar(d: nat): char
    requires d < 10
  {
    ('0' as int + d) as char
  }

  ghost predicate IsDigits(s: string)
  {
    forall i :: 0 <= i < |s| ==> '0' <= s[i] <= '9'
  }

  /** PHP's decimal rendering of a non-negative integer in string interpolation. */
  function Decimal(n: nat): (s: string)
    ensures |s| >= 1 && IsDigits(s)
  {
    if n < 10 then [DigitChar(n)] else Decimal(n / 10) + [DigitChar(n % 10)]
  }

  function ParseDecimal(s: string): nat
    requires IsDigits(s)
  {
    if s == [] then 0 else 10 * ParseDecimal(s[..|s| - 1]) + (s[|s| - 1] as int - '0' as int)
  }

  lemma {:induction false} DecimalRoundTrip(n: nat)
    ensures ParseDecimal(Decimal(n)) == n
  {
    var s := Decimal(n);
    if n >= 10 {
      DecimalRoundTrip(n / 10);
      assert s[..|s| - 1] == Decimal(n / 10);
    }
  }

  /** `"$entity#$oid"`. */
  function Render(v: Visit): (r: string)
    ensures |r| > |v.entity| && r[..|v.entity|] == v.entity && r[|v.entity|] == '#'
    ensures IsDigits(r[|v.entity| + 1..]) && ParseDecimal(r[|v.entity| + 1..]) == v.oid
  {
    var r := v.entity + "#" + Decimal(v.oid);
    assert r[|v.entity| + 1..] == Decimal(v.oid);
    DecimalRoundTrip(v.oid);
    r
  }

  /** In `"$entity#$oid"` no character after the separator is a '#'. */
  lemma {:induction false} NoHashAfterName(name: string, digits: string, i: int)
    requires IsDigits(digits)
    requires |name| < i < |name| + 1 + |digits|
    ensures (name + "#" + digits)[i] != '#'
  {
    assert (name + "#" + digits)[i] == digits[i - |name| - 1];
  }

  /**
   * Distinct log entries render to distinct strings, even when an entity name
   * holds '#': the oid is the digits after the last '#'. So a log of `Visit`s
   * says exactly what the source's log of strings says.
   */
  lemma {:induction false} RenderInjective(v: Visit, w: Visit)
    requires Render(v) == Render(w)
    ensures v == w
  {
    var s, a, b, d1, d2 := Render(v), v.entity, w.entity, Decimal(v.oid), Decimal(w.oid);
    assert s == a + "#" + d1 && s == b + "#" + d2;
    if |a| < |b| {
      NoHashAfterName(a, d1, |b|);
      assert false;
    } else if |b| < |a| {
      NoHashAfterName(b, d2, |a|);
      assert false;
    }
    assert a == s[..|a|] == b;
    assert d1 == s[|a| + 1..] == d2;
    DecimalRoundTrip(v.oid);
    DecimalRoundTrip(w.oid);
  }

  /** The source's log of strings, rendered entry by entry. */
  function RenderLog(log: seq<Visit>): (r: seq<string>)
    ensures |r| == |log|
    ensures forall i :: 0 <= i < |log| ==> r[i] == Render(log[i])
  {
    if log == [] then [] else [Render(log[0])] + RenderLog(log[1..])
  }

  /**
   * The string logged for a registry entry reads `"$entity#$oid"` and
   * identifies the entry: two entries log the same string exactly when they
   * are the same entry.
   */
  lemma {:induction false} RenderVisitOf(a: Entry, b: Entry)
    ensures Render(VisitOf(a)) == a.name + "#" + Decimal(a.oid)
    ensures Render(VisitOf(a)) == Render(VisitOf(b)) <==> a == b
  {
    if Render(VisitOf(a)) == Render(VisitOf(b)) {
      RenderInjective(VisitOf(a), VisitOf(b));
    }
  }
}
