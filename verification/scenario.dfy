/**
 A session at the menu, start to finish: register "Ana" with a fixed salary
 of 1000 and "Luis" at 15 an hour, record 10 hours for Luis, query both,
 then save and load the file back into the same, uncleared roster.
 */
module Scenario {
  import opened Wrappers
  import opened Employees
  import opened Names
  import opened Registry
  import opened Persistence

  /** The roster after the two registrations and the accrual. */
  function Session(): (r: Roster)
    ensures r == [Fixed("Ana", 1000, 0), Hourly("Luis", 15, 10)]
  {
    var r := Register(Register([], 1, "Ana", 1000), 2, "Luis", 15);
    assert r == [Fixed("Ana", 1000, 0), Hourly("Luis", 15, 0)];
    assert Find(r, "Luis") == Some(1) by {
      assert !SameName("Ana", "Luis");
    }
    AccrueHours(r, "Luis", 10).0
  }

  /** Luis earns 10 * 15 = 150, Ana her fixed 1000, and any spelling of the name finds Luis. */
  lemma SessionPay()
    ensures QuerySalary(Session(), "Luis") == Some(150)
    ensures QuerySalary(Session(), "LUIS") == Some(150)
    ensures QuerySalary(Session(), "Ana") == Some(1000)
  {
    var r := Session();
    assert !SameName("Ana", "Luis") && !SameName("Ana", "LUIS");
    assert Find(r, "Luis") == Some(1);
    assert Find(r, "LUIS") == Some(1);
    assert Find(r, "Ana") == Some(0);
  }

  /** Loading the saved roster into itself doubles it: the two reloaded entries come after the
      originals, the reloaded Luis is fixed-salary with salary 0 and his 10 hours, and a query
      for Luis still finds the original, earning 150. */
  lemma SessionReload()
    ensures LoadInto(Session(), Save(Session())).Loaded?
    ensures var after := LoadInto(Session(), Save(Session())).roster;
      && after == Session() + [Fixed("Ana", 1000, 0), Fixed("Luis", 0, 10)]
      && QuerySalary(after, "Luis") == Some(150)
  {
    var r := Session();
    SaveLoad(r, r);
    assert ReloadedAll(r) == [Fixed("Ana", 1000, 0), Fixed("Luis", 0, 10)];
    SessionPay();
    assert Find(r, "Luis") == Some(1);
    FindAfterAppend(r, ReloadedAll(r), "Luis");
  }
}
