/**
 One saved line per employee: `name,salary,hours`, the salary as
 `Double.toString` writes it and the hours as `Integer.toString` writes
 them. Reading a line splits it on commas, takes the first field as the
 name, the second as the salary and the third as the hours; fields after
 the third are ignored. A line with fewer than three fields, or with a
 number that does not parse, makes the source throw a runtime exception it
 does not catch; here it parses to `None`. `None` also covers the texts
 the source reads but this model does not: a fractional salary, the other
 spellings `Double.parseDouble` accepts, and hours written with non-ASCII
 decimal digits.
 */
module LineFormat {
  import opened Wrappers
  import opened Decimal
  import opened DoubleFormat
  import opened Fields
  import opened Persistence

  /** The line written for a record: cut at its commas, it is the name cut at its own commas
      followed by the salary and the hours, so a comma in the name adds fields. */
  function FormatLine(rec: Record): (line: string)
    ensures SplitAll(line) == SplitAll(rec.name) + [DoubleText(rec.salary), IntText(rec.hours)]
  {
    var a, b := DoubleText(rec.salary), IntText(rec.hours);
    var line := Join([rec.name, a, b]);
    assert line == rec.name + [','] + (a + [','] + b) by {
      assert [rec.name, a, b][1..] == [a, b];
      assert [a, b][1..] == [b];
      assert Join([b]) == b;
      assert Join([a, b]) == a + [','] + b;
    }
    SplitAllConcat(rec.name, a + [','] + b);
    SplitAllAfterField(a, b);
    SplitAllCommaFree(b);
    line
  }

  /** The record a line is read as, or `None` when reading it would throw or when its salary is
      not the text of a whole amount. */
  function ParseLine(line: string): (r: Option<Record>)
    ensures r.Some? <==>
      && |JavaSplit(line)| >= 3
      && ParseDouble(JavaSplit(line)[1]).Some?
      && ParseJavaInt(JavaSplit(line)[2]).Some?
    ensures r.Some? ==> r.value.name == JavaSplit(line)[0] && INT_MIN <= r.value.hours <= INT_MAX
    ensures r.Some? ==>
      && ParseDouble(JavaSplit(line)[1]) == Some(r.value.salary)
      && ParseJavaInt(JavaSplit(line)[2]) == Some(r.value.hours)
  {
    var fields := JavaSplit(line);
    if |fields| < 3 then None
    else
      match (ParseDouble(fields[1]), ParseJavaInt(fields[2]))
      case (Some(salary), Some(hours)) => Some(Record(fields[0], salary, hours))
      case _ => None
  }

  /** A name that fits in the format: no comma, which would split it. */
  predicate WritableName(name: string) {
    ',' !in name
  }

  /** Every line written for a record with a comma-free name and 32-bit hours reads back as
      that record. */
  lemma LineRoundTrip(rec: Record)
    requires WritableName(rec.name)
    requires INT_MIN <= rec.hours <= INT_MAX
    ensures ParseLine(FormatLine(rec)) == Some(rec)
  {
    var fs := [rec.name, DoubleText(rec.salary), IntText(rec.hours)];
    JavaSplitJoin(fs);
    DoubleTextRoundTrip(rec.salary);
    JavaIntRoundTrip(rec.hours);
  }

  /** Two commas in a name make the line read back as another record: the name is cut at its
      first comma, and the texts after its commas are taken for the salary and the hours. */
  lemma CommaInNameIsMisread(rec: Record, first: string, x: int, y: int)
    requires rec.name == first + "," + IntText(x) + "," + IntText(y)
    requires ',' !in first && INT_MIN <= y <= INT_MAX
    ensures ParseLine(FormatLine(rec)) == Some(Record(first, x, y))
  {
    var salary, hours := DoubleText(rec.salary), IntText(rec.hours);
    var fs := [first, IntText(x), IntText(y), salary, hours];
    FormatLineOf(rec, salary, hours);
    JoinFive(fs);
    JavaSplitJoin(fs);
    IntTextAsDouble(x);
    JavaIntRoundTrip(y);
  }

  /** One comma in a name makes the line unreadable: the salary text lands in the hours field,
      where `Integer.parseInt` refuses its point. */
  lemma CommaInNameBreaksLine(rec: Record, first: string, x: int)
    requires rec.name == first + "," + IntText(x)
    requires ',' !in first
    ensures ParseLine(FormatLine(rec)) == None
  {
    var salary, hours := DoubleText(rec.salary), IntText(rec.hours);
    var fs := [first, IntText(x), salary, hours];
    FormatLineOf(rec, salary, hours);
    JoinFour(fs);
    JavaSplitJoin(fs);
    PointIsNotDecimal(salary);
  }

  /** A text holding a point is not in the signed decimal form. */
  lemma PointIsNotDecimal(s: string)
    requires '.' in s
    ensures ParseJavaInt(s).None?
  {
    var k :| 0 <= k < |s| && s[k] == '.';
    assert !IsDigit(s[k]);
    if |s| >= 2 && (s[0] == '-' || s[0] == '+') && k > 0 {
      assert s[1..][k - 1] == s[k];
    }
  }

  lemma JoinFour(fs: seq<string>)
    requires |fs| == 4
    ensures Join(fs) == fs[0] + "," + fs[1] + "," + fs[2] + "," + fs[3]
  {
    JoinCons(fs[2], [fs[3]]);
    assert fs[1..][1..] == [fs[2], fs[3]];
    JoinCons(fs[1], [fs[2], fs[3]]);
    assert fs[1..] == [fs[1], fs[2], fs[3]];
    JoinCons(fs[0], fs[1..]);
    assert fs == [fs[0]] + fs[1..];
  }

  lemma JoinFive(fs: seq<string>)
    requires |fs| == 5
    ensures Join(fs) == fs[0] + "," + fs[1] + "," + fs[2] + "," + fs[3] + "," + fs[4]
  {
    JoinFour(fs[1..]);
    JoinCons(fs[0], fs[1..]);
    assert fs == [fs[0]] + fs[1..];
  }

  lemma JoinCons(f: string, rest: seq<string>)
    requires |rest| >= 1
    ensures Join([f] + rest) == f + "," + Join(rest)
  {
    assert ([f] + rest)[1..] == rest;
  }

  lemma FormatLineOf(rec: Record, salary: string, hours: string)
    requires DoubleText(rec.salary) == salary && IntText(rec.hours) == hours
    ensures FormatLine(rec) == rec.name + "," + salary + "," + hours
  {
    assert [rec.name, salary, hours][1..] == [salary, hours];
    assert [salary, hours][1..] == [hours];
    assert Join([hours]) == hours;
    assert Join([salary, hours]) == salary + "," + hours;
  }
}
