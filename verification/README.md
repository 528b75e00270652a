# Payroll ledger: employees, roster and roster file

A model of the payroll core of `SistemaNomina.java`, a menu-driven payroll ledger that
registers employees, records their worked hours, computes their pay, and saves and loads
the roster through a comma-separated text file.

- **Employees** (`employees.dfy`). There are two kinds of employee. A fixed-salary employee
  (`EmpleadoFijo`) is paid its stored salary. An hourly employee (`EmpleadoTemporal`) stores
  0 in the shared salary slot and is paid hours times rate. Recording hours
  (`registrarHoras`) rejects a negative amount and otherwise adds it.
- **Names** (`names.dfy`). Names are compared ignoring case (`equalsIgnoreCase`).
- **Registry** (`registry.dfy`). The roster is an ordered `seq<Employee>`. The module covers
  registration by kind (1 or 2), first-match lookup, hour recording by name and salary query by
  name. A Java reference to an employee becomes the employee's position in the roster.
- **Persistence** (`persistence.dfy`). Saving writes one record (name, salary slot, hours) per
  employee. Loading rebuilds every record as a fixed-salary employee, records its hours through
  the ordinary accrual, and appends it to the roster already held. A record with negative hours
  stops the load.
- **Text format** (`decimal.dfy`, `double_format.dfy`, `fields.dfy`, `line_format.dfy`,
  `roster_file.dfy`). Hours are written by `Integer.toString` and read back by
  `Integer.parseInt`, with its 32-bit range check. A salary is written by `Double.toString`:
  "1000.0" below 10^7, and the scientific form "1.2345678E7" from 10^7 up. It is read back by
  `Double.parseDouble`, which accepts both forms. Lines are split on commas the way `String.split(",")` splits them. A file is
  split into lines the way `BufferedReader.readLine` reads them. Loading reads the file one line
  at a time.
- **Scenario** (`scenario.dfy`). A complete menu session, written as lemmas.

Every operation is a pure function from the old roster to the new one. The file is a text
value, or `None` when it cannot be opened.

Loading appends the employees it reads to the roster already held (lines 205-213). A malformed
line throws in one of two ways. If the split gives fewer than three fields, indexing `datos`
(lines 207-209) throws `ArrayIndexOutOfBoundsException`; the line "," even splits to no fields
at all. If a field is not a number, `Double.parseDouble` or `Integer.parseInt` throws
`NumberFormatException`. The handler at line 215 catches only `IOException` and
`HorasInvalidasException`, so neither is caught and the program ends. The
model therefore requires the lines that the load reads to parse (`RosterFile.Readable`).

## Model

| member | source | states |
|---|---|---|
| Employees.Employee.StoredSalary | SistemaNomina.java:25-27 | the shared salary slot holds a fixed employee's salary and 0 for an hourly employee |
| Employees.Employee.Pay | SistemaNomina.java:50-67 | a fixed employee is paid the value of its salary slot; an hourly employee is paid hours times rate |
| Employees.NewFixed | SistemaNomina.java:15-19 | a new fixed-salary employee has 0 hours, and both its salary slot and its pay equal the given salary |
| Employees.NewHourly | SistemaNomina.java:59-62 | a new hourly employee has 0 hours, keeps its rate, stores 0 in the salary slot and so far earns 0 |
| Employees.Accrue | SistemaNomina.java:33-38 | recording hours is rejected exactly when the amount is negative; otherwise the hours grow by exactly the amount and nothing else about the employee changes |
| Employees.AccrueEach | SistemaNomina.java:33-38 | after a series of requests, rejected ones changing nothing, the hours have grown by the sum of the non-negative requests and the variant, name and pay basis are unchanged |
| Employees.AccrueTwice | SistemaNomina.java:33-38 | recording `h1` and then `h2` non-negative hours is the same as recording `h1 + h2` |
| Employees.FixedPayIgnoresHours | SistemaNomina.java:50-52 | a fixed-salary employee's pay stays its salary however many hours are recorded |
| Employees.HourlyPayTracksHours | SistemaNomina.java:65-67 | an hourly employee's pay is always hours times rate, and grows by rate for every accepted hour |
| Names.SameName | SistemaNomina.java:184 | two names match ignoring case exactly when their case-folded forms are equal |
| Names.SameNameIsEquivalence | SistemaNomina.java:184 | name matching is reflexive, symmetric and transitive |
| Names.CaseIsIgnored | SistemaNomina.java:184 | "Ana", "ANA" and "ana" match one another, and "Ana" does not match "Anna" |
| Registry.Register | SistemaNomina.java:136-146 | kinds 1 and 2 append exactly one new employee of the matching kind, with 0 hours, after the unchanged roster; any other kind leaves the roster as it was |
| Registry.Find | SistemaNomina.java:182-189 | lookup yields the smallest position whose name matches ignoring case, and yields nothing exactly when no name matches |
| Registry.FindFrom | SistemaNomina.java:183-188 | the scan, resumed past positions known not to match, yields the first later match, or nothing exactly when none matches |
| Registry.AccrueHours | SistemaNomina.java:155-167 | an unknown name reports not-found and a negative amount reports invalid hours, both leaving the roster unchanged; otherwise only the first matching employee changes, and only in its hours, by exactly the amount |
| Registry.QuerySalary | SistemaNomina.java:173-179 | a query yields nothing exactly when no name matches, and otherwise the pay of the first employee whose name matches |
| Registry.AccruedPay | SistemaNomina.java:33-67 | once hours are accepted, a fixed-salary employee's pay is unchanged and an hourly employee's pay grows by the hours times the rate |
| Registry.FindIgnoresCase | SistemaNomina.java:184 | two queries that match ignoring case find the same employee |
| Registry.FindAfterAppend | SistemaNomina.java:182-189 | appending employees keeps an existing first match; without one, lookup finds the first match among the appended employees |
| Registry.RegisterThenFind | SistemaNomina.java:136-146 | a newly registered employee is found under its own name unless an earlier employee's name matches, in which case that one is still found |
| Registry.QueryAfterAccrue | SistemaNomina.java:155-176 | after hours are recorded for a name, the query for that name reports the same pay for a fixed-salary employee and `h * rate` more for an hourly one |
| Persistence.Save | SistemaNomina.java:193-195 | saving yields one record per employee, in roster order, holding its name, salary slot and hours |
| Persistence.LoadRecord | SistemaNomina.java:207-212 | loading one record fails exactly when its hours are negative, leaving the roster as it was; otherwise it appends a fixed-salary employee with the record's name, salary and hours |
| Persistence.AcceptedPrefix | SistemaNomina.java:205-213 | counts the records before the first one with negative hours: all of them have non-negative hours, and the next one, if any, has negative hours |
| Persistence.Restore | SistemaNomina.java:210-211 | a record with non-negative hours loads as a fixed-salary employee with the saved name, salary and hours |
| Persistence.LoadInto | SistemaNomina.java:205-215 | a load keeps the existing roster in front, unchanged and in order, and appends after it the records before the first negative-hours record, in order; it fails exactly when such a record exists |
| Persistence.RestorePrefixElements | SistemaNomina.java:205-212 | every employee loaded from the accepted records is the fixed-salary employee of the record at the same position, and that record's hours are non-negative |
| Persistence.RestoreSaved | SistemaNomina.java:193-212 | no saved record is rejected, and the saved records load as the reloaded form of every employee, in order |
| Persistence.Reloaded | SistemaNomina.java:206-212 | after a save and load an employee is fixed-salary with the same name and hours; a fixed-salary employee comes back unchanged, and an hourly one comes back with salary 0 and pay 0 |
| Persistence.SaveLoad | SistemaNomina.java:191-218 | saving a roster and loading it on top of any roster succeeds and appends the reloaded form of every saved employee, in order |
| Persistence.SaveLoadFixedExact | SistemaNomina.java:191-218 | a roster of fixed-salary employees saved and loaded into an empty roster comes back exactly |
| Persistence.SaveLoadLosesKind | SistemaNomina.java:191-218 | saving and loading into an empty roster gives back every employee as fixed-salary, with the same name and hours, in the same order; hourly employees come back with salary 0 |
| Persistence.SaveAfterReloadIsStable | SistemaNomina.java:191-218 | saving again after a save and load writes the same records as the first save |
| Decimal.NatTextRoundTrip | SistemaNomina.java:209 | the decimal digits written for a natural number are read back as that number |
| Decimal.IntText | SistemaNomina.java:194 | the hours text is a non-empty string of digits and a minus sign, free of commas, starting with a minus sign exactly when the integer is negative |
| Decimal.ParseSigned | SistemaNomina.java:209 | a number is read exactly from an optional sign followed by one or more digits, and is negative only after a minus sign |
| Decimal.ParseJavaInt | SistemaNomina.java:209 | hours text is accepted only within the 32-bit range; text of the signed decimal form that is refused lies outside that range |
| Decimal.IntTextRoundTrip | SistemaNomina.java:209 | the text written for any integer is read back as that integer |
| Decimal.JavaIntRoundTrip | SistemaNomina.java:209 | the text written for a 32-bit integer is read back by the hours parser as that integer |
| DoubleFormat.TrimZeros | SistemaNomina.java:194 | dropping trailing zeros keeps a prefix that is no longer than the text, ends in a non-zero character, and gives the text back when the dropped zeros are added again |
| DoubleFormat.ScientificText | SistemaNomina.java:194 | the scientific form of an amount of at least 10^7 is a digit, a point, one or more fraction digits, the mark E and one or more exponent digits; `DoubleFormat.ScientificShape` ties the digits and the exponent to the amount |
| DoubleFormat.ScientificLayout | SistemaNomina.java:194 | a digit, a point, fraction digits, E and exponent digits use only number characters, with the mark between the two runs of digits |
| DoubleFormat.UnsignedText | SistemaNomina.java:194 | a magnitude is written as a digit first, holds a point, and uses only digits, the point, a minus sign and E |
| DoubleFormat.DoubleText | SistemaNomina.java:194 | a salary's text has at least three characters, holds a point and no comma, and starts with a minus sign exactly when the amount is negative |
| DoubleFormat.PlainIsIntText | SistemaNomina.java:194 | below 10^7 in magnitude, a salary is written as its integer text followed by ".0" |
| DoubleFormat.NatTextPow10 | SistemaNomina.java:194 | the digits of 10^k are a one followed by k zeros |
| DoubleFormat.PowerOfTenText | SistemaNomina.java:194 | from 10^7 up, a power of ten 10^k is written "1.0E" followed by k |
| DoubleFormat.IndexOfAny | SistemaNomina.java:208 | the position found is the first one holding one of the given characters, or the length when there is none |
| DoubleFormat.ParseMantissa | SistemaNomina.java:208 | a run of digits is read as its own value with no fraction digits |
| DoubleFormat.ParseUnsigned | SistemaNomina.java:208 | a run of digits is read as its own value |
| DoubleFormat.ParseDouble | SistemaNomina.java:208 | an accepted text is non-empty, its value is negative only after a minus sign and never negative otherwise, and a run of digits is read as its own value |
| DoubleFormat.DigitsValueZeros | SistemaNomina.java:208 | adding k zero digits multiplies the value read by 10^k |
| DoubleFormat.PointedMantissa | SistemaNomina.java:208 | digits, a point and more digits are read as the value of all the digits, with as many fraction digits as follow the point |
| DoubleFormat.ParsePlain | SistemaNomina.java:208 | digits followed by ".0" are read as the digits' value |
| DoubleFormat.ScientificValue | SistemaNomina.java:194 | the significant digits of the scientific form, times ten to the number of zeros dropped after them, give the amount back |
| DoubleFormat.ScientificShape | SistemaNomina.java:194 | the scientific form of an amount is a leading digit, a point, a fraction and an exponent, and the significant digits times ten to the exponent less the fraction length give the amount back |
| DoubleFormat.ParseScientific | SistemaNomina.java:208 | a text in the scientific form is read as its significant digits times ten to the exponent less the number of fraction digits |
| DoubleFormat.PlainRoundTrip | SistemaNomina.java:194-208 | every magnitude below 10^7 reads back from its plain text |
| DoubleFormat.ScientificRoundTrip | SistemaNomina.java:194-208 | every magnitude from 10^7 up reads back from its scientific text |
| DoubleFormat.DoubleTextRoundTrip | SistemaNomina.java:194-208 | the text `Double.toString` writes for any whole salary is read back by `Double.parseDouble` as that salary |
| DoubleFormat.IntTextAsDouble | SistemaNomina.java:208 | `Double.parseDouble` reads the text `Integer.toString` writes for any integer as that integer |
| Fields.SplitAll | SistemaNomina.java:206 | cutting at every comma gives comma-free fields that join back to the line |
| Fields.SplitAllJoin | SistemaNomina.java:206 | comma-free fields joined by commas are cut back into exactly those fields |
| Fields.DropTrailingEmpty | SistemaNomina.java:206 | dropping trailing empty fields keeps a prefix that ends in a non-empty field, and everything dropped is empty |
| Fields.JavaSplit | SistemaNomina.java:206 | a line without a comma is its own only field; otherwise it is cut at every comma and only the empty fields at the end are dropped, so no field holds a comma and the last one kept is non-empty |
| Fields.JavaSplitJoin | SistemaNomina.java:206 | a line of two or more comma-free fields whose last field is non-empty splits into exactly those fields |
| LineFormat.FormatLine | SistemaNomina.java:194 | the line written for a record, cut at its commas, is the name cut at its own commas followed by the `Double.toString` text of the salary and the `Integer.toString` text of the hours |
| LineFormat.ParseLine | SistemaNomina.java:206-209 | a line is read exactly when it has at least three fields, `Double.parseDouble` reads the second and `Integer.parseInt` reads the third; the record takes the first field as its name, the second's value as its salary and the third's as its hours |
| LineFormat.LineRoundTrip | SistemaNomina.java:194-209 | the line written for a record with a comma-free name and 32-bit hours reads back as that record |
| LineFormat.CommaInNameIsMisread | SistemaNomina.java:194-209 | a name `first,x,y` with a comma-free `first` and integers `x` and `y` (`y` in the 32-bit range) reads back as the record (`first`, `x`, `y`), whatever salary and hours were saved |
| LineFormat.CommaInNameBreaksLine | SistemaNomina.java:194-209 | a name `first,x` with a comma-free `first` and an integer `x` makes the saved line unreadable: the salary text, which holds a point, lands in the hours field |
| LineFormat.PointIsNotDecimal | SistemaNomina.java:209 | `Integer.parseInt` refuses any text that holds a point |
| RosterFile.LineEnd | SistemaNomina.java:205 | a line ends at the first line feed or carriage return, and no terminator comes before that point |
| RosterFile.ReadLines | SistemaNomina.java:205 | the lines read from a text hold no terminator, are no more numerous than its characters, and an empty text has no lines |
| RosterFile.WriteLines | SistemaNomina.java:192-195 | the written text is empty exactly when there are no lines, and otherwise ends with a line feed |
| RosterFile.ReadWriteLines | SistemaNomina.java:194-205 | lines written with line feeds are read back as exactly the same lines when none contains a terminator |
| RosterFile.ReadFirstLine | SistemaNomina.java:205 | a terminator-free line followed by a line feed is read as that line, and reading continues right after the line feed |
| RosterFile.ReadFirstLineCrLf | SistemaNomina.java:205 | a terminator-free line followed by a carriage return and a line feed is read as that line, and reading continues right after both |
| RosterFile.ReadFirstLineCr | SistemaNomina.java:205 | a terminator-free line followed by a carriage return that no line feed follows is read as that line, and reading continues right after the carriage return |
| RosterFile.SaveFile | SistemaNomina.java:191-195 | when no name holds a line terminator, the saved file reads back line by line as exactly the saved lines, one per employee |
| RosterFile.LoadLines | SistemaNomina.java:205-213 | loading the lines keeps the existing roster in front, adds at most one employee per line, and every employee it adds is fixed-salary |
| RosterFile.LoadLinesIsLoadInto | SistemaNomina.java:205-213 | when every line parses, loading line by line is the same as loading all their records |
| RosterFile.LoadLinesStopsAtRejection | SistemaNomina.java:205-217 | a line with negative hours makes the load fail; the employees from earlier lines stay appended, and the later lines are never read, so they need not parse |
| RosterFile.LoadFile | SistemaNomina.java:202-218 | a file that cannot be opened fails with the roster unchanged, and any load keeps the existing roster in front |
| RosterFile.SavedLinesRead | SistemaNomina.java:193-209 | the saved file reads back as the saved lines, each parsing to the record it was written for |
| RosterFile.FileRoundTrip | SistemaNomina.java:191-218 | for names without commas or line terminators and hours in the 32-bit range, saving to the file and loading it on top of any roster succeeds and appends every employee in its reloaded form |
| RosterFile.OneLinePerEmployee | SistemaNomina.java:193-195 | the saved file holds one line per employee whenever no name holds a line terminator, even names with commas |
| Scenario.SessionPay | SistemaNomina.java:170-179 | registering Ana (fixed 1000) and Luis (15 an hour) and recording 10 hours for Luis gives 150 for "Luis" and "LUIS", and 1000 for "Ana" |
| Scenario.SessionReload | SistemaNomina.java:202-218 | loading that session's saved roster into itself appends fixed-salary Ana (1000) and Luis (salary 0, 10 hours), and a query for Luis still finds the original, who earns 150 |

## Left out

- The interactive menu loop, `Scanner` input and console messages (lines 88-127 and the prompt
  and print lines of 129-217) are a driver, not logic. Each menu action is a function over
  the roster here.
- File input and output (`FileWriter`, `FileReader`, closing the resources) are not modelled.
  The saved file is a text value, taken to hold the names' characters exactly; both classes use
  the platform's default charset, which may not encode every character. A file that cannot be opened is `None`. A failed write is
  not modelled, because saving is a pure function.
- RosterFile.LoadFile: an `IOException` partway through reading is not modelled. The source
  reports it and keeps the employees already appended from the lines read before it.
- `double` arithmetic is not modelled. Salary, hourly rate and pay are whole units (`int`), and
  hourly pay is the exact product of hours and rate.
- DoubleFormat.DoubleText: only whole amounts are written, and every whole amount is written
  exactly. A `double` holds every whole amount only up to 2^53 in magnitude. Beyond that, and
  for fractional salaries, `Double.toString` writes the nearest `double` with the shortest
  digits that identify it, which is not modelled.
- DoubleFormat.ParseDouble: reads the texts of whole amounts only. A fractional value, a
  leading point (".5"), surrounding whitespace, the `d` and `f` suffixes, hexadecimal forms,
  `NaN` and `Infinity` are `None`, so a roster file holding them is outside
  `RosterFile.LoadFile`'s precondition. `Double.toString` writes none of them for a whole
  amount.
- Employees.Accrue: hours are an unbounded natural number, so Java's 32-bit wrap-around on a
  very large total is not modelled.
- RosterFile.LoadFile: requires every line the load will read to parse. A malformed line
  throws `NumberFormatException` or `ArrayIndexOutOfBoundsException`, which the source does
  not catch, so there is no recovered result to model.
- RosterFile.WriteLines: the line separator `println` writes is taken to be a line feed. A
  platform that uses carriage return plus line feed is not modelled, though reading accepts it.
- Decimal.ParseJavaInt: only the ASCII digits '0'..'9' are read. `Integer.parseInt` also
  accepts the decimal digits of other scripts (`Character.digit`). A roster file that uses them
  is outside `RosterFile.LoadFile`'s precondition, and `Integer.toString` never writes them.
- Names.SameName: only ASCII letters are folded. The Unicode case mappings of
  `equalsIgnoreCase` beyond ASCII are not modelled.
- `SalarioInvalido` (lines 78-82, 147-149) is never thrown, so there is no salary validation
  to model. A checked exception that its `try` block cannot throw cannot be caught, so Java
  would also refuse to compile that catch clause.
