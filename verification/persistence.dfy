/**
 Saving and reloading the roster, at the level of records. Saving writes, in
 roster order, one record per employee holding its name, its salary slot and
 its hours. Loading rebuilds every record as a fixed-salary employee (the
 record does not say which kind it came from), records its hours through the
 ordinary accrual, and appends it to the roster already held. A record with
 negative hours is rejected by that accrual: loading stops there, keeping
 every employee appended before it.
 */
module Persistence {
  import opened Employees
  import opened Registry

  /** One saved employee: name, salary slot, hours. Hours may be negative in a file. */
  datatype Record = Record(name: string, salary: int, hours: int)

  /** The outcome of a load: completed, or stopped by the error handler, in both cases with the
      roster as it then stands. */
  datatype LoadResult = Loaded(roster: Roster) | Failed(roster: Roster)

  /** The records written for `roster` (`guardarEmpleadosEnArchivo`): one per employee, in order. */
  function Save(roster: Roster): (r: seq<Record>)
    ensures |r| == |roster|
    ensures forall i :: 0 <= i < |r| ==>
      && r[i].name == roster[i].name
      && r[i].salary == roster[i].StoredSalary()
      && r[i].hours == roster[i].hours
    decreases |roster|
  {
    if |roster| == 0 then []
    else [Record(roster[0].name, roster[0].StoredSalary(), roster[0].hours)] + Save(roster[1..])
  }

  /** Loads one record: a new fixed-salary employee, then its hours recorded; a rejected
      accrual ends the load with the roster unchanged. */
  function LoadRecord(roster: Roster, rec: Record): (r: LoadResult)
    ensures r.Failed? <==> rec.hours < 0
    ensures r.Failed? ==> r.roster == roster
    ensures r.Loaded? ==> r.roster == roster + [Fixed(rec.name, rec.salary, rec.hours)]
  {
    match Accrue(NewFixed(rec.name, rec.salary), rec.hours)
    case NegativeHours => Failed(roster)
    case Accrued(e) => Loaded(roster + [e])
  }

  /** The number of records before the first one with negative hours (all of them if none). */
  function AcceptedPrefix(recs: seq<Record>): (k: nat)
    ensures k <= |recs|
    ensures forall j :: 0 <= j < k ==> recs[j].hours >= 0
    ensures k < |recs| ==> recs[k].hours < 0
    decreases |recs|
  {
    if |recs| == 0 || recs[0].hours < 0 then 0 else 1 + AcceptedPrefix(recs[1..])
  }

  /** The employee a saved record with non-negative hours is loaded as: fixed salary, with the
      saved name, salary and hours. */
  function Restore(rec: Record): (e: Employee)
    requires rec.hours >= 0
    ensures e.Fixed? && e.name == rec.name && e.salary == rec.salary && e.hours == rec.hours
  {
    Fixed(rec.name, rec.salary, rec.hours)
  }

  /** The employees the records before the first negative-hours one are loaded as, in order. */
  function RestorePrefix(recs: seq<Record>): (r: Roster)
    ensures |r| == AcceptedPrefix(recs)
    decreases |recs|
  {
    if |recs| == 0 || recs[0].hours < 0 then [] else [Restore(recs[0])] + RestorePrefix(recs[1..])
  }

  /** Loads `recs` on top of `roster` (`cargarEmpleadosDesdeArchivo`): the existing employees stay,
      in order, and after them come, in order, the records before the first negative-hours one,
      each loaded as a fixed-salary employee; the load fails exactly when a negative-hours record
      exists. */
  function LoadInto(roster: Roster, recs: seq<Record>): (r: LoadResult)
    ensures r.roster == roster + RestorePrefix(recs)
    ensures r.Failed? <==> AcceptedPrefix(recs) < |recs|
    decreases |recs|
  {
    if |recs| == 0 then Loaded(roster)
    else
      match LoadRecord(roster, recs[0])
      case Failed(_) =>
        assert RestorePrefix(recs) == [] && roster + [] == roster;
        Failed(roster)
      case Loaded(next) =>
        assert RestorePrefix(recs) == [Restore(recs[0])] + RestorePrefix(recs[1..]);
        assert roster + RestorePrefix(recs) == next + RestorePrefix(recs[1..]);
        LoadInto(next, recs[1..])
  }

  /** What an employee becomes after a save and a load: a fixed-salary employee with the same
      name and hours whose salary is the saved salary slot, which is 0 for an hourly employee. */
  function Reloaded(e: Employee): (r: Employee)
    ensures r.Fixed? && r.name == e.name && r.hours == e.hours
    ensures e.Fixed? ==> r == e
    ensures e.Hourly? ==> r.salary == 0 && r.Pay() == 0
  {
    Fixed(e.name, e.StoredSalary(), e.hours)
  }

  function ReloadedAll(roster: Roster): (r: Roster)
    ensures |r| == |roster|
    ensures forall i :: 0 <= i < |roster| ==> r[i] == Reloaded(roster[i])
  {
    seq(|roster|, i requires 0 <= i < |roster| => Reloaded(roster[i]))
  }

  /** Every employee is of the fixed-salary kind. */
  predicate AllFixed(roster: Roster) {
    forall i :: 0 <= i < |roster| ==> roster[i].Fixed?
  }

  /** Saving `roster` and loading the result on top of `base` succeeds and appends exactly the
      reloaded form of every saved employee, in order, after `base`. */
  lemma SaveLoad(base: Roster, roster: Roster)
    ensures LoadInto(base, Save(roster)) == Loaded(base + ReloadedAll(roster))
  {
    RestoreSaved(roster);
  }

  /** No saved record has negative hours, and the saved records load as the reloaded employees. */
  lemma {:induction false} RestoreSaved(roster: Roster)
    ensures AcceptedPrefix(Save(roster)) == |roster|
    ensures RestorePrefix(Save(roster)) == ReloadedAll(roster)
    decreases |roster|
  {
    if |roster| > 0 {
      var recs := Save(roster);
      assert recs[1..] == Save(roster[1..]);
      RestoreSaved(roster[1..]);
      assert ReloadedAll(roster) == [Reloaded(roster[0])] + ReloadedAll(roster[1..]);
    }
  }

  /** Each employee loaded from the accepted records carries its record's name, salary and hours. */
  lemma {:induction false} RestorePrefixElements(recs: seq<Record>)
    ensures forall i :: 0 <= i < |RestorePrefix(recs)| ==>
      recs[i].hours >= 0 && RestorePrefix(recs)[i] == Restore(recs[i])
    decreases |recs|
  {
    if |recs| > 0 && recs[0].hours >= 0 {
      RestorePrefixElements(recs[1..]);
      var r := RestorePrefix(recs);
      assert r == [Restore(recs[0])] + RestorePrefix(recs[1..]);
      assert forall i :: 1 <= i < |r| ==> r[i] == RestorePrefix(recs[1..])[i - 1] && recs[i] == recs[1..][i - 1];
    }
  }

  /** Saving and loading into an empty roster reproduces the fixed-salary employees exactly. */
  lemma SaveLoadFixedExact(roster: Roster)
    requires AllFixed(roster)
    ensures LoadInto([], Save(roster)) == Loaded(roster)
  {
    SaveLoad([], roster);
    assert ReloadedAll(roster) == roster;
  }

  /** Saving and loading into an empty roster gives every employee back as fixed-salary, with
      the same name and hours, in the same order; an hourly employee comes back with salary 0. */
  lemma SaveLoadLosesKind(roster: Roster)
    ensures LoadInto([], Save(roster)).Loaded?
    ensures var back := LoadInto([], Save(roster)).roster;
      && |back| == |roster|
      && AllFixed(back)
      && forall i :: 0 <= i < |roster| ==>
           && back[i].name == roster[i].name
           && back[i].hours == roster[i].hours
           && (roster[i].Hourly? ==> back[i].salary == 0)
           && (roster[i].Fixed? ==> back[i] == roster[i])
  {
    SaveLoad([], roster);
    assert [] + ReloadedAll(roster) == ReloadedAll(roster);
  }

  /** A second save after a save and load writes the same records as the first: the saved form
      is a fixed point of the round trip. */
  lemma SaveAfterReloadIsStable(roster: Roster)
    ensures Save(LoadInto([], Save(roster)).roster) == Save(roster)
  {
    SaveLoadLosesKind(roster);
  }
}
