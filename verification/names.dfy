/**
 Case-insensitive name comparison, as `String.equalsIgnoreCase` applies it to
 employee names: two names match when they have the same length and agree
 character by character once letters are folded to one case. Only the ASCII
 letters are folded here.
 */
module Names {

  /** Folds an ASCII lower-case letter to upper case; every other character is kept. */
  function Upper(c: char): char {
    if 'a' <= c <= 'z' then (c as int - 32) as char else c
  }

  /** The name with every character folded, the reference form two matching names share. */
  function UpperName(s: string): (r: string)
    ensures |r| == |s|
    ensures forall i :: 0 <= i < |s| ==> r[i] == Upper(s[i])
  {
    seq(|s|, i requires 0 <= i < |s| => Upper(s[i]))
  }

  /** The comparison itself, character by character; two names match exactly when their
      folded forms are equal. */
  predicate SameName(a: string, b: string): (r: bool)
    ensures r <==> UpperName(a) == UpperName(b)
  {
    var same := |a| == |b| && forall i :: 0 <= i < |a| ==> Upper(a[i]) == Upper(b[i]);
    assert UpperName(a) == UpperName(b) ==> same by {
      if UpperName(a) == UpperName(b) {
        forall i | 0 <= i < |a|
          ensures Upper(a[i]) == Upper(b[i])
        {
          assert UpperName(a)[i] == UpperName(b)[i];
        }
      }
    }
    same
  }

  /** The comparison is an equivalence: reflexive, symmetric and transitive. */
  lemma SameNameIsEquivalence(a: string, b: string, c: string)
    ensures SameName(a, a)
    ensures SameName(a, b) ==> SameName(b, a)
    ensures SameName(a, b) && SameName(b, c) ==> SameName(a, c)
  {
  }

  /** A name matches its upper-case and its lower-case spellings ("Ana", "ANA", "ana"). */
  lemma CaseIsIgnored()
    ensures SameName("Ana", "ANA") && SameName("Ana", "ana") && SameName("ana", "ANA")
    ensures !SameName("Ana", "Anna")
  {
  }
}
