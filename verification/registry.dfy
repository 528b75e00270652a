/**
 The in-memory roster: an ordered list of employees, kept in registration
 order, with no uniqueness constraint on names. Every operation the menu
 offers on it is a pure function from the old roster to the new one; a Java
 reference to an employee becomes the employee's position in the roster.
 */
module Registry {
  import opened Wrappers
  import opened Employees
  import opened Names

  type Roster = seq<Employee>

  /** What an hour-recording request reports: applied, no such employee, or a negative amount. */
  datatype Status = Done | NotFound | InvalidHours

  /** Registers an employee of kind 1 (fixed salary `amount`) or kind 2 (hourly rate `amount`) at
      the end of the roster (`registrarEmpleado`); any other kind is refused and adds nothing. */
  function Register(roster: Roster, kind: int, name: string, amount: int): (r: Roster)
    ensures kind == 1 || kind == 2 ==> |r| == |roster| + 1 && r[..|roster|] == roster
    ensures kind == 1 ==> r[|roster|] == NewFixed(name, amount)
    ensures kind == 2 ==> r[|roster|] == NewHourly(name, amount)
    ensures kind != 1 && kind != 2 ==> r == roster
  {
    if kind == 1 then roster + [NewFixed(name, amount)]
    else if kind == 2 then roster + [NewHourly(name, amount)]
    else roster
  }

  /** No employee at a position below `k` carries a name matching `name`. */
  predicate NoMatchBelow(roster: Roster, name: string, k: int) {
    forall j :: 0 <= j < k && j < |roster| ==> !SameName(roster[j].name, name)
  }

  /** The position of the first employee whose name matches `name` ignoring case
      (`buscarEmpleado`), or `None` exactly when no employee's name matches. */
  function Find(roster: Roster, name: string): (r: Option<nat>)
    ensures r.Some? ==> r.value < |roster| && SameName(roster[r.value].name, name)
    ensures r.Some? ==> NoMatchBelow(roster, name, r.value)
    ensures r.None? <==> NoMatchBelow(roster, name, |roster|)
  {
    FindFrom(roster, name, 0)
  }

  /** The scan of `Find`, resumed at position `k`. */
  function FindFrom(roster: Roster, name: string, k: nat): (r: Option<nat>)
    requires k <= |roster|
    requires NoMatchBelow(roster, name, k)
    ensures r.Some? ==> k <= r.value < |roster| && SameName(roster[r.value].name, name)
    ensures r.Some? ==> NoMatchBelow(roster, name, r.value)
    ensures r.None? <==> NoMatchBelow(roster, name, |roster|)
    decreases |roster| - k
  {
    if k == |roster| then None
    else if SameName(roster[k].name, name) then Some(k)
    else FindFrom(roster, name, k + 1)
  }

  /** Records `h` more hours for the first employee named `name` (`registrarHoras` of the menu).
      An unknown name or a negative amount changes nothing; otherwise only that employee's
      hour count changes, by exactly `h`. */
  function AccrueHours(roster: Roster, name: string, h: int): (r: (Roster, Status))
    ensures r.1 == NotFound <==> Find(roster, name).None?
    ensures r.1 == InvalidHours <==> Find(roster, name).Some? && h < 0
    ensures r.1 != Done ==> r.0 == roster
    ensures r.1 == Done ==> |r.0| == |roster|
    ensures r.1 == Done ==> var k := Find(roster, name).value;
      && r.0[k].hours == roster[k].hours + h
      && SameBasis(r.0[k], roster[k])
      && forall j :: 0 <= j < |roster| && j != k ==> r.0[j] == roster[j]
  {
    match Find(roster, name)
    case None => (roster, NotFound)
    case Some(k) =>
      match Accrue(roster[k], h)
      case NegativeHours => (roster, InvalidHours)
      case Accrued(e) => (roster[k := e], Done)
  }

  /** The pay of the first employee named `name` (`consultarSalario`), or `None` if there is none. */
  function QuerySalary(roster: Roster, name: string): (r: Option<int>)
    ensures r.None? <==> NoMatchBelow(roster, name, |roster|)
    ensures r.Some? ==> exists k ::
      && 0 <= k < |roster|
      && SameName(roster[k].name, name)
      && NoMatchBelow(roster, name, k)
      && r.value == roster[k].Pay()
  {
    match Find(roster, name)
    case None => None
    case Some(k) => Some(roster[k].Pay())
  }

  /** Lookup cannot tell apart two spellings of a name that differ only in case. */
  lemma FindIgnoresCase(roster: Roster, q1: string, q2: string)
    requires SameName(q1, q2)
    ensures Find(roster, q1) == Find(roster, q2)
  {
    forall j | 0 <= j < |roster|
      ensures SameName(roster[j].name, q1) <==> SameName(roster[j].name, q2)
    {
      SameNameIsEquivalence(roster[j].name, q1, q2);
      SameNameIsEquivalence(roster[j].name, q2, q1);
      SameNameIsEquivalence(q1, q2, q2);
    }
  }

  /** Appending employees never changes an existing match: lookup in `roster + more` finds the
      first match in `roster`, and only when there is none the first match in `more`. */
  lemma FindAfterAppend(roster: Roster, more: Roster, name: string)
    ensures Find(roster, name).Some? ==> Find(roster + more, name) == Find(roster, name)
    ensures Find(roster, name).None? && Find(more, name).Some? ==>
      Find(roster + more, name) == Some(|roster| + Find(more, name).value)
    ensures Find(roster, name).None? && Find(more, name).None? ==> Find(roster + more, name).None?
  {
    var all := roster + more;
    var r := Find(all, name);
    match Find(roster, name)
    case Some(k) =>
      assert all[k] == roster[k];
    case None =>
      assert forall j :: 0 <= j < |roster| ==> all[j] == roster[j];
      match Find(more, name)
      case Some(m) =>
        assert all[|roster| + m] == more[m];
      case None =>
        forall j | 0 <= j < |all|
          ensures !SameName(all[j].name, name)
        {
          if j >= |roster| {
            assert all[j] == more[j - |roster|];
          }
        }
  }

  /** A newly registered employee is found under its own name unless an earlier one matches. */
  lemma RegisterThenFind(roster: Roster, kind: int, name: string, amount: int)
    requires kind == 1 || kind == 2
    ensures Find(roster, name).None? ==> Find(Register(roster, kind, name, amount), name) == Some(|roster|)
    ensures Find(roster, name).Some? ==> Find(Register(roster, kind, name, amount), name) == Find(roster, name)
  {
    var e := if kind == 1 then NewFixed(name, amount) else NewHourly(name, amount);
    assert Register(roster, kind, name, amount) == roster + [e];
    SameNameIsEquivalence(name, name, name);
    assert Find([e], name) == Some(0);
    FindAfterAppend(roster, [e], name);
  }

  /** After recording hours for `name`, querying `name` reports the new pay: unchanged for a
      fixed-salary employee, `h * rate` more for an hourly one. */
  lemma QueryAfterAccrue(roster: Roster, name: string, h: int)
    requires AccrueHours(roster, name, h).1 == Done
    ensures var k := Find(roster, name).value;
      && QuerySalary(AccrueHours(roster, name, h).0, name).Some?
      && (roster[k].Fixed? ==> QuerySalary(AccrueHours(roster, name, h).0, name).value == roster[k].Pay())
      && (roster[k].Hourly? ==>
            QuerySalary(AccrueHours(roster, name, h).0, name).value == roster[k].Pay() + h * roster[k].rate)
  {
    var k := Find(roster, name).value;
    var after := AccrueHours(roster, name, h).0;
    assert after == roster[k := Accrue(roster[k], h).employee];
    assert Find(after, name) == Some(k) by {
      assert forall j :: 0 <= j < |roster| ==> after[j].name == roster[j].name;
      assert SameName(after[k].name, name);
      assert NoMatchBelow(after, name, k);
    }
    AccruedPay(roster[k], h);
  }

  /** Pay after hours are accepted for one employee: unchanged for a fixed salary, `h * rate`
      more for hourly pay. */
  lemma AccruedPay(e: Employee, h: int)
    requires h >= 0
    ensures e.Fixed? ==> Accrue(e, h).employee.Pay() == e.Pay()
    ensures e.Hourly? ==> Accrue(e, h).employee.Pay() == e.Pay() + h * e.rate
  {
    if e.Hourly? {
      Distribute(e.hours, h, e.rate);
    }
  }
}
