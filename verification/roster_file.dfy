/**
 The roster file: the saved lines, each followed by a line feed, and read
 back line by line as `BufferedReader.readLine` does, which ends a line at
 a line feed, a carriage return, or a carriage return followed by a line
 feed, and returns a last line that has no terminator. Loading reads and
 loads one line at a time, so a line after a rejected one is never read.
 A file that cannot be opened is reported by the same handler as rejected
 hours, leaving the roster as it was.
 */
module RosterFile {
  import opened Wrappers
  import opened Employees
  import opened Registry
  import opened Decimal
  import opened DoubleFormat
  import opened Persistence
  import opened LineFormat
  import opened Fields

  predicate IsTerminator(c: char) {
    c == '\n' || c == '\r'
  }

  predicate TerminatorFree(s: string) {
    forall i :: 0 <= i < |s| ==> !IsTerminator(s[i])
  }

  /** The position of the first line terminator in `text`, or its length if there is none. */
  function LineEnd(text: string): (i: nat)
    ensures i <= |text|
    ensures TerminatorFree(text[..i])
    ensures i < |text| ==> IsTerminator(text[i])
    decreases |text|
  {
    if |text| == 0 || IsTerminator(text[0]) then 0
    else
      var i := 1 + LineEnd(text[1..]);
      assert text[..i] == [text[0]] + text[1..][..i - 1];
      i
  }

  /** The lines of `text`, as successive calls of `readLine` return them. */
  function ReadLines(text: string): (lines: seq<string>)
    ensures forall k :: 0 <= k < |lines| ==> TerminatorFree(lines[k])
    ensures |lines| <= |text|
    ensures |lines| == 0 <==> |text| == 0
    decreases |text|
  {
    if |text| == 0 then []
    else
      var i := LineEnd(text);
      var next :=
        if i == |text| then i
        else if text[i] == '\r' && i + 1 < |text| && text[i + 1] == '\n' then i + 2
        else i + 1;
      [text[..i]] + ReadLines(text[next..])
  }

  /** The text `println` writes for `lines`, with a line feed as line separator. */
  function WriteLines(lines: seq<string>): (text: string)
    ensures |text| >= |lines|
    ensures |text| == 0 <==> |lines| == 0
    ensures |lines| > 0 ==> text[|text| - 1] == '\n'
    decreases |lines|
  {
    if |lines| == 0 then [] else lines[0] + "\n" + WriteLines(lines[1..])
  }

  /** Reading back the written lines gives the same lines, provided none holds a terminator. */
  lemma {:induction false} ReadWriteLines(lines: seq<string>)
    requires forall k :: 0 <= k < |lines| ==> TerminatorFree(lines[k])
    ensures ReadLines(WriteLines(lines)) == lines
    decreases |lines|
  {
    if |lines| > 0 {
      ReadFirstLine(lines[0], WriteLines(lines[1..]));
      ReadWriteLines(lines[1..]);
    }
  }

  /** A terminator-free line followed by a line feed is read as that line, and reading goes on
      right after the line feed. */
  lemma ReadFirstLine(l: string, rest: string)
    requires TerminatorFree(l)
    ensures ReadLines(l + "\n" + rest) == [l] + ReadLines(rest)
  {
    var text := l + "\n" + rest;
    FirstTerminator(l, "\n", rest);
    assert text[..|l|] == l;
    assert text[|l| + 1..] == rest;
  }

  /** A carriage return and line feed end a line together: reading goes on right after both. */
  lemma ReadFirstLineCrLf(l: string, rest: string)
    requires TerminatorFree(l)
    ensures ReadLines(l + "\r\n" + rest) == [l] + ReadLines(rest)
  {
    var text := l + "\r\n" + rest;
    FirstTerminator(l, "\r\n", rest);
    assert text[..|l|] == l;
    assert text[|l| + 1] == '\n';
    assert text[|l| + 2..] == rest;
  }

  /** A carriage return not followed by a line feed ends a line on its own. */
  lemma ReadFirstLineCr(l: string, rest: string)
    requires TerminatorFree(l)
    requires |rest| == 0 || rest[0] != '\n'
    ensures ReadLines(l + "\r" + rest) == [l] + ReadLines(rest)
  {
    var text := l + "\r" + rest;
    FirstTerminator(l, "\r", rest);
    assert text[..|l|] == l;
    assert |rest| > 0 ==> text[|l| + 1] == rest[0];
    assert text[|l| + 1..] == rest;
  }

  /** The first terminator of a line followed by a separator is where the separator starts. */
  lemma FirstTerminator(l: string, sep: string, rest: string)
    requires TerminatorFree(l)
    requires |sep| >= 1 && IsTerminator(sep[0])
    ensures LineEnd(l + sep + rest) == |l|
  {
    var text := l + sep + rest;
    assert text[|l|] == sep[0];
    assert text[..|l|] == l;
  }

  /** The lines saved for a list of records, one per record, in order. */
  function FormatAll(recs: seq<Record>): (lines: seq<string>)
    ensures |lines| == |recs|
    ensures forall k :: 0 <= k < |recs| ==> lines[k] == FormatLine(recs[k])
  {
    seq(|recs|, k requires 0 <= k < |recs| => FormatLine(recs[k]))
  }

  /** The file text written for the roster (`guardarEmpleadosEnArchivo`): when no name holds a
      line terminator, reading it line by line gives back the saved lines, one per employee. */
  function SaveFile(roster: Roster): (text: string)
    ensures (forall k :: 0 <= k < |roster| ==> TerminatorFree(roster[k].name)) ==>
      ReadLines(text) == FormatAll(Save(roster))
  {
    var lines := FormatAll(Save(roster));
    assert (forall k :: 0 <= k < |roster| ==> TerminatorFree(roster[k].name)) ==>
      ReadLines(WriteLines(lines)) == lines
    by {
      if forall k :: 0 <= k < |roster| ==> TerminatorFree(roster[k].name) {
        forall k | 0 <= k < |lines|
          ensures TerminatorFree(lines[k])
        {
          FormattedLineTerminatorFree(Save(roster)[k]);
        }
        ReadWriteLines(lines);
      }
    }
    WriteLines(lines)
  }

  /** The result of reading each line: its record, or `None` where reading it would throw. */
  function ParseEach(lines: seq<string>): (parsed: seq<Option<Record>>)
    ensures |parsed| == |lines|
    ensures forall k :: 0 <= k < |lines| ==> parsed[k] == ParseLine(lines[k])
  {
    seq(|lines|, k requires 0 <= k < |lines| => ParseLine(lines[k]))
  }

  /** Every line the load reads parses: each line up to and including the first one whose
      hours are negative, after which reading stops. */
  predicate Readable(parsed: seq<Option<Record>>)
    decreases |parsed|
  {
    |parsed| == 0 || (parsed[0].Some? && (parsed[0].value.hours < 0 || Readable(parsed[1..])))
  }

  /** Loads the read lines one at a time on top of `roster` (the loop of
      `cargarEmpleadosDesdeArchivo`): the existing employees stay first and in order, at most one
      employee is added per line, and every employee added is fixed-salary. */
  function LoadLines(roster: Roster, parsed: seq<Option<Record>>): (r: LoadResult)
    requires Readable(parsed)
    ensures |roster| <= |r.roster| <= |roster| + |parsed|
    ensures r.roster[..|roster|] == roster
    ensures forall k :: |roster| <= k < |r.roster| ==> r.roster[k].Fixed?
    decreases |parsed|
  {
    if |parsed| == 0 then Loaded(roster)
    else
      match LoadRecord(roster, parsed[0].value)
      case Failed(_) => Failed(roster)
      case Loaded(next) =>
        var r := LoadLines(next, parsed[1..]);
        assert r.roster[..|next|][..|roster|] == r.roster[..|roster|];
        r
  }

  /** The records of lines that all parse. */
  function Values(parsed: seq<Option<Record>>): (recs: seq<Record>)
    requires forall k :: 0 <= k < |parsed| ==> parsed[k].Some?
    ensures |recs| == |parsed|
    ensures forall k :: 0 <= k < |parsed| ==> Some(recs[k]) == parsed[k]
  {
    seq(|parsed|, k requires 0 <= k < |parsed| => parsed[k].value)
  }

  /** When every line parses, loading line by line is loading all their records. */
  lemma {:induction false} LoadLinesIsLoadInto(roster: Roster, parsed: seq<Option<Record>>)
    requires forall k :: 0 <= k < |parsed| ==> parsed[k].Some?
    ensures Readable(parsed)
    ensures LoadLines(roster, parsed) == LoadInto(roster, Values(parsed))
    decreases |parsed|
  {
    if |parsed| > 0 {
      var recs := Values(parsed);
      assert Values(parsed[1..]) == recs[1..];
      LoadLinesIsLoadInto(roster, parsed[1..]);
      match LoadRecord(roster, recs[0])
      case Failed(_) =>
      case Loaded(next) =>
        LoadLinesIsLoadInto(next, parsed[1..]);
    }
  }

  /** A line with negative hours ends the load as a failure: everything loaded from the lines
      before it stays appended, and the lines after it are never read, so they need not parse. */
  lemma {:induction false} LoadLinesStopsAtRejection(roster: Roster, parsed: seq<Option<Record>>, k: nat)
    requires k < |parsed|
    requires forall j :: 0 <= j <= k ==> parsed[j].Some?
    requires parsed[k].value.hours < 0
    ensures Readable(parsed)
    ensures LoadLines(roster, parsed) == LoadInto(roster, Values(parsed[..k + 1]))
    ensures LoadLines(roster, parsed).Failed?
    decreases k
  {
    var recs := Values(parsed[..k + 1]);
    assert recs[0] == parsed[0].value;
    if k > 0 {
      match LoadRecord(roster, recs[0])
      case Failed(_) =>
      case Loaded(next) =>
        assert Values(parsed[1..][..k]) == recs[1..];
        LoadLinesStopsAtRejection(next, parsed[1..], k - 1);
    }
    assert recs[k].hours < 0;
  }

  /** Loads the roster file on top of `roster`; `None` is a file that cannot be opened. */
  function LoadFile(roster: Roster, file: Option<string>): (r: LoadResult)
    requires file.Some? ==> Readable(ParseEach(ReadLines(file.value)))
    ensures file.None? ==> r == Failed(roster)
    ensures |r.roster| >= |roster|
    ensures r.roster[..|roster|] == roster
  {
    match file
    case None => Failed(roster)
    case Some(text) => LoadLines(roster, ParseEach(ReadLines(text)))
  }

  /** An employee whose saved line reads back faithfully: a name with no comma and no line
      terminator (the driver reads names as whitespace-free tokens), and hours in the 32-bit range. */
  predicate Storable(e: Employee) {
    WritableName(e.name) && TerminatorFree(e.name) && e.hours <= INT_MAX
  }

  lemma FormattedLineTerminatorFree(rec: Record)
    requires TerminatorFree(rec.name)
    ensures TerminatorFree(FormatLine(rec))
  {
    var line := FormatLine(rec);
    var a, b := DoubleText(rec.salary), IntText(rec.hours);
    assert Join([b]) == b;
    assert [a, b][1..] == [b];
    assert Join([a, b]) == a + [','] + b;
    assert [rec.name, a, b][1..] == [a, b];
    assert line == rec.name + [','] + (a + [','] + b);
    forall i | 0 <= i < |line|
      ensures !IsTerminator(line[i])
    {
      if i < |rec.name| {
        assert line[i] == rec.name[i];
      } else if |rec.name| < i <= |rec.name| + |a| {
        assert line[i] == a[i - |rec.name| - 1];
      } else if |rec.name| + |a| + 1 < i {
        assert line[i] == b[i - |rec.name| - |a| - 2];
      }
    }
  }

  /** Saving a roster of storable employees and loading the file on top of `base` succeeds and
      appends, after `base`, every employee in its reloaded form: fixed-salary, same name, same
      hours, and the saved salary slot as salary. */
  lemma FileRoundTrip(base: Roster, roster: Roster)
    requires forall k :: 0 <= k < |roster| ==> Storable(roster[k])
    ensures ReadLines(SaveFile(roster)) == FormatAll(Save(roster))
    ensures Readable(ParseEach(ReadLines(SaveFile(roster))))
    ensures LoadFile(base, Some(SaveFile(roster))) == Loaded(base + ReloadedAll(roster))
  {
    SavedLinesRead(roster);
    var parsed := ParseEach(ReadLines(SaveFile(roster)));
    LoadLinesIsLoadInto(base, parsed);
    SaveLoad(base, roster);
  }

  /** The saved lines are read back as written, and each as the record it was written for. */
  lemma SavedLinesRead(roster: Roster)
    requires forall k :: 0 <= k < |roster| ==> Storable(roster[k])
    ensures ReadLines(SaveFile(roster)) == FormatAll(Save(roster))
    ensures var parsed := ParseEach(ReadLines(SaveFile(roster)));
      && (forall k :: 0 <= k < |parsed| ==> parsed[k].Some?)
      && Values(parsed) == Save(roster)
  {
    var recs := Save(roster);
    var lines := FormatAll(recs);
    forall k | 0 <= k < |lines|
      ensures TerminatorFree(lines[k])
      ensures ParseLine(lines[k]) == Some(recs[k])
    {
      FormattedLineTerminatorFree(recs[k]);
      LineRoundTrip(recs[k]);
    }
    ReadWriteLines(lines);
    var parsed := ParseEach(lines);
    assert Values(parsed) == recs;
  }

  /** The saved file has one line per employee when no name holds a line terminator, commas
      and hours outside the 32-bit range included. */
  lemma OneLinePerEmployee(roster: Roster)
    requires forall k :: 0 <= k < |roster| ==> TerminatorFree(roster[k].name)
    ensures |ReadLines(SaveFile(roster))| == |roster|
  {
  }
}
