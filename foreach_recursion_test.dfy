/**
 * The two scenarios of tests/PhpForeachRecursionTest.php: build each unit of
 * work with its initial registry, run `executeUpdates` once, and read the log
 * as the strings `"$entity#$oid"` the test compares against.
 */
module ForeachRecursionTest {
  import opened Registry
  import WtfUnitOfWork
  import FixedUnitOfWork

  /** The strings the test compares against, entry by entry. */
  lemma RenderedEntries()
    ensures Render(Visit("human", 0)) == "human#0"
    ensures Render(Visit("head", 1)) == "head#1"
    ensures Render(Visit("eye", 2)) == "eye#2"
  {
    assert Decimal(0) == "0" && Decimal(1) == "1" && Decimal(2) == "2";
  }

  /** testWtfEventCount: the by-value loop logs 'head#1' and 'eye#2' a second time. */
  method TestWtfEventCount() returns (log: seq<string>)
    ensures log == ["human#0", "head#1", "eye#2", "head#1", "eye#2"]
  {
    var unitOfWork := new WtfUnitOfWork.UnitOfWork();
    unitOfWork.ExecuteUpdates();
    WtfUnitOfWork.InitialBuggyLog();
    RenderedEntries();
    log := RenderLog(unitOfWork.updatedEntities);
  }

  /** testFixedEventCount: the iterator loop logs each entity once. */
  method TestFixedEventCount() returns (log: seq<string>)
    ensures log == ["human#0", "head#1", "eye#2"]
  {
    var unitOfWork := new FixedUnitOfWork.UnitOfWork();
    unitOfWork.ExecuteUpdates();
    FixedUnitOfWork.InitialFixedLog();
    RenderedEntries();
    log := RenderLog(unitOfWork.updatedEntities);
  }
}
