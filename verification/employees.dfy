/**
 The two kinds of employee of the payroll ledger and what each is paid.

 An employee carries a name, a count of hours worked and a pay basis. A
 fixed-salary employee is paid its stored salary whatever its hours; an
 hourly employee is paid hours times rate. The Java base class keeps a
 shared `salario` slot; the hourly constructor stores 0 there, so the slot
 is modelled by `StoredSalary()` rather than by a field of `Hourly`.
 Amounts are whole currency units (`int`) instead of `double`.
 */
module Employees {

  datatype Employee =
    | Fixed(name: string, salary: int, hours: nat)
    | Hourly(name: string, rate: int, hours: nat)
  {
    /** The value of the shared salary slot (`getSalario`): a fixed employee's salary, and the
        0 the hourly constructor stores. */
    function StoredSalary(): (r: int)
      ensures Fixed? ==> r == salary
      ensures Hourly? ==> r == 0
    {
      match this
      case Fixed(_, salary, _) => salary
      case Hourly(_, _, _) => 0
    }

    /** The same employee with `h` recorded hours. */
    function WithHours(h: nat): Employee {
      match this
      case Fixed(name, salary, _) => Fixed(name, salary, h)
      case Hourly(name, rate, _) => Hourly(name, rate, h)
    }

    /** What the employee is paid (`calcularSalario`), dispatched on the variant. */
    function Pay(): (r: int)
      ensures Fixed? ==> r == StoredSalary()
      ensures Hourly? ==> r == hours * rate
    {
      match this
      case Fixed(_, salary, _) => salary
      case Hourly(_, rate, hours) => hours * rate
    }
  }

  /** `a` and `b` are the same employee apart from the hours recorded: same variant, name and pay basis. */
  predicate SameBasis(a: Employee, b: Employee) {
    match (a, b)
    case (Fixed(n1, s1, _), Fixed(n2, s2, _)) => n1 == n2 && s1 == s2
    case (Hourly(n1, r1, _), Hourly(n2, r2, _)) => n1 == n2 && r1 == r2
    case _ => false
  }

  /** A fixed-salary employee as registered: no hours worked yet. */
  function NewFixed(name: string, salary: int): (e: Employee)
    ensures e.Fixed? && e.name == name && e.hours == 0
    ensures e.StoredSalary() == salary && e.Pay() == salary
  {
    Fixed(name, salary, 0)
  }

  /** An hourly employee as registered: no hours worked, an empty salary slot, nothing earned. */
  function NewHourly(name: string, rate: int): (e: Employee)
    ensures e.Hourly? && e.name == name && e.rate == rate && e.hours == 0
    ensures e.StoredSalary() == 0 && e.Pay() == 0
  {
    Hourly(name, rate, 0)
  }

  /** The outcome of recording worked hours: the updated employee, or the rejection of a negative amount. */
  datatype Accrual = Accrued(employee: Employee) | NegativeHours

  /** Records `h` more worked hours (`registrarHoras`). A negative amount is rejected and the
      caller keeps the employee it had; otherwise only the hour count changes, by exactly `h`. */
  function Accrue(e: Employee, h: int): (r: Accrual)
    ensures r.NegativeHours? <==> h < 0
    ensures r.Accrued? ==> r.employee.hours == e.hours + h
    ensures r.Accrued? ==> SameBasis(r.employee, e)
  {
    if h < 0 then NegativeHours else Accrued(e.WithHours(e.hours + h))
  }

  /** The employee after a series of accrual requests, each rejected one leaving it as it was
      (the driver reports the rejection and carries on). */
  function AccrueEach(e: Employee, hs: seq<int>): (r: Employee)
    ensures r.hours == e.hours + AcceptedHours(hs)
    ensures SameBasis(r, e)
    decreases |hs|
  {
    if |hs| == 0 then e
    else
      var next := match Accrue(e, hs[0]) case Accrued(e') => e' case NegativeHours => e;
      AccrueEach(next, hs[1..])
  }

  /** The total of the non-negative entries of `hs`: the hours a series of requests adds. */
  function AcceptedHours(hs: seq<int>): nat
    decreases |hs|
  {
    if |hs| == 0 then 0
    else (if hs[0] < 0 then 0 else hs[0]) + AcceptedHours(hs[1..])
  }

  /** Accruing `h1` and then `h2` is accruing `h1 + h2`. */
  lemma AccrueTwice(e: Employee, h1: int, h2: int)
    requires h1 >= 0 && h2 >= 0
    ensures Accrue(e, h1).Accrued?
    ensures Accrue(Accrue(e, h1).employee, h2) == Accrue(e, h1 + h2)
  {
  }

  /** A fixed-salary employee's pay does not depend on how many hours are recorded. */
  lemma FixedPayIgnoresHours(e: Employee, hs: seq<int>)
    requires e.Fixed?
    ensures AccrueEach(e, hs).Fixed?
    ensures AccrueEach(e, hs).Pay() == e.Pay()
  {
  }

  /** An hourly employee's pay is always hours times rate, and grows by rate for each accepted hour. */
  lemma HourlyPayTracksHours(e: Employee, hs: seq<int>)
    requires e.Hourly?
    ensures AccrueEach(e, hs).Hourly?
    ensures AccrueEach(e, hs).Pay() == AccrueEach(e, hs).hours * e.rate
    ensures AccrueEach(e, hs).Pay() == e.Pay() + AcceptedHours(hs) * e.rate
  {
    var r := AccrueEach(e, hs);
    assert r.rate == e.rate;
    Distribute(e.hours, AcceptedHours(hs), e.rate);
  }

  /** Multiplication distributes over addition: a solver hint for the pay lemmas that scale
      accrued hours by the rate. */
  lemma Distribute(a: int, b: int, c: int)
    ensures (a + b) * c == a * c + b * c
  {
  }
}
