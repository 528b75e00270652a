/**
 Comma-separated fields, as a saved line is written (fields joined by ',')
 and read (`String.split(",")`). Splitting with Java's default limit cuts at
 every comma and then drops the trailing empty fields, except that a line
 with no comma at all comes back whole as the only field.
 */
module Fields {

  /** The fields `fs` joined with a comma between each two. */
  function Join(fs: seq<string>): (s: string)
    requires |fs| >= 1
    decreases |fs|
  {
    if |fs| == 1 then fs[0] else fs[0] + [','] + Join(fs[1..])
  }

  /** `s` cut at every comma: one field more than there are commas, none containing a comma,
      and joined back together they give `s`. */
  function SplitAll(s: string): (fs: seq<string>)
    ensures |fs| >= 1
    ensures forall i :: 0 <= i < |fs| ==> ',' !in fs[i]
    ensures Join(fs) == s
    decreases |s|
  {
    if |s| == 0 then [""]
    else
      var rest := SplitAll(s[1..]);
      if s[0] == ',' then
        assert s == [] + [','] + Join(rest);
        [""] + rest
      else
        assert s == [s[0]] + rest[0] + (if |rest| == 1 then [] else [','] + Join(rest[1..]));
        [[s[0]] + rest[0]] + rest[1..]
  }

  /** Cutting a joined line at its commas gives back its comma-free fields. */
  lemma {:induction false} SplitAllJoin(fs: seq<string>)
    requires |fs| >= 1
    requires forall i :: 0 <= i < |fs| ==> ',' !in fs[i]
    ensures SplitAll(Join(fs)) == fs
    decreases |fs|
  {
    if |fs| == 1 {
      SplitAllCommaFree(fs[0]);
    } else {
      SplitAllJoin(fs[1..]);
      SplitAllAfterField(fs[0], Join(fs[1..]));
    }
  }

  /** A comma-free text is a single field. */
  lemma {:induction false} SplitAllCommaFree(a: string)
    requires ',' !in a
    ensures SplitAll(a) == [a]
    decreases |a|
  {
    if |a| > 0 {
      assert ',' !in a[1..];
      SplitAllCommaFree(a[1..]);
    }
  }

  /** A comma-free field followed by a comma is split off as the first field. */
  lemma {:induction false} SplitAllAfterField(a: string, b: string)
    requires ',' !in a
    ensures SplitAll(a + [','] + b) == [a] + SplitAll(b)
    decreases |a|
  {
    var s := a + [','] + b;
    if |a| == 0 {
      assert s[1..] == b;
    } else {
      assert s[1..] == a[1..] + [','] + b;
      assert ',' !in a[1..];
      SplitAllAfterField(a[1..], b);
      assert [a[0]] + a[1..] == a;
    }
  }

  /** Cutting at a comma: the fields of the text before it, then the fields of the text after. */
  lemma {:induction false} SplitAllConcat(a: string, b: string)
    ensures SplitAll(a + [','] + b) == SplitAll(a) + SplitAll(b)
    decreases |a|
  {
    var s := a + [','] + b;
    if |a| == 0 {
      assert s[1..] == b;
    } else {
      assert s[1..] == a[1..] + [','] + b;
      SplitAllConcat(a[1..], b);
    }
  }

  /** `fs` without its trailing empty fields. */
  function DropTrailingEmpty(fs: seq<string>): (r: seq<string>)
    ensures |r| <= |fs| && r == fs[..|r|]
    ensures |r| > 0 ==> r[|r| - 1] != ""
    ensures forall i :: |r| <= i < |fs| ==> fs[i] == ""
    decreases |fs|
  {
    if |fs| > 0 && fs[|fs| - 1] == "" then DropTrailingEmpty(fs[..|fs| - 1]) else fs
  }

  /** `String.split(",")`: a text with no comma is its own only field; otherwise the text is cut
      at every comma and only empty fields are dropped, all of them at the end. */
  function JavaSplit(s: string): (fs: seq<string>)
    ensures ',' !in s ==> fs == [s]
    ensures ',' in s ==>
      && |fs| <= |SplitAll(s)|
      && fs == SplitAll(s)[..|fs|]
      && (forall i :: |fs| <= i < |SplitAll(s)| ==> SplitAll(s)[i] == "")
      && (|fs| > 0 ==> fs[|fs| - 1] != "")
    ensures forall i :: 0 <= i < |fs| ==> ',' !in fs[i]
  {
    if ',' !in s then [s] else DropTrailingEmpty(SplitAll(s))
  }

  /** A line of two or more comma-free fields whose last field is not empty splits back into
      exactly those fields. */
  lemma JavaSplitJoin(fs: seq<string>)
    requires |fs| >= 2 && fs[|fs| - 1] != ""
    requires forall i :: 0 <= i < |fs| ==> ',' !in fs[i]
    ensures JavaSplit(Join(fs)) == fs
  {
    SplitAllJoin(fs);
    assert Join(fs) == fs[0] + [','] + Join(fs[1..]);
    assert Join(fs)[|fs[0]|] == ',';
  }
}
