/**
 * `apoc.text.distance` and `apoc.text.fuzzyMatch`: the Levenshtein distance
 * between two Java strings (counted in UTF-16 code units) and the
 * length-dependent threshold that turns it into a fuzzy match.
 */
module TextDistance {
  import opened Lang

  function Min3(x: nat, y: nat, z: nat): (m: nat)
    ensures m <= x && m <= y && m <= z
    ensures m == x || m == y || m == z
  {
    if x <= y && x <= z then x else if y <= z then y else z
  }

  /**
   * The Levenshtein distance: the least number of single code-unit insertions,
   * deletions and substitutions that turn `a` into `b`, by the usual recurrence
   * on the first code units.
   */
  function Lev(a: JString, b: JString): (r: nat)
    ensures r <= |a| + |b|
    decreases |a| + |b|
  {
    if |a| == 0 then |b|
    else if |b| == 0 then |a|
    else Min3(Lev(a[1..], b) + 1, Lev(a, b[1..]) + 1,
              Lev(a[1..], b[1..]) + (if a[0] == b[0] then 0 else 1))
  }

  /** A string is at distance 0 from itself. */
  lemma {:induction false} LevSelf(a: JString)
    ensures Lev(a, a) == 0
  {
    if |a| > 0 {
      LevSelf(a[1..]);
    }
  }

  /** Distance 0 means equal strings, and only equal strings are at distance 0. */
  lemma {:induction false} LevZeroIff(a: JString, b: JString)
    ensures Lev(a, b) == 0 <==> a == b
    decreases |a| + |b|
  {
    if a == b {
      LevSelf(a);
    } else if |a| > 0 && |b| > 0 {
      LevZeroIff(a[1..], b[1..]);
      if a[0] == b[0] {
        assert a == [a[0]] + a[1..] && b == [b[0]] + b[1..];
        assert a[1..] != b[1..];
      }
    }
  }

  /** Edit distance does not depend on the direction of the edit. */
  lemma {:induction false} LevSymmetric(a: JString, b: JString)
    ensures Lev(a, b) == Lev(b, a)
    decreases |a| + |b|
  {
    if |a| > 0 && |b| > 0 {
      LevSymmetric(a[1..], b);
      LevSymmetric(a, b[1..]);
      LevSymmetric(a[1..], b[1..]);
    }
  }

  /** Every edit changes the length by at most one. */
  lemma {:induction false} LevLengthDifference(a: JString, b: JString)
    ensures Lev(a, b) >= |a| - |b| && Lev(a, b) >= |b| - |a|
    decreases |a| + |b|
  {
    if |a| > 0 && |b| > 0 {
      LevLengthDifference(a[1..], b);
      LevLengthDifference(a, b[1..]);
      LevLengthDifference(a[1..], b[1..]);
    }
  }

  /** Substituting along the shorter string and inserting the rest always suffices. */
  lemma {:induction false} LevAtMostLonger(a: JString, b: JString)
    ensures Lev(a, b) <= if |a| >= |b| then |a| else |b|
    decreases |a| + |b|
  {
    if |a| > 0 && |b| > 0 {
      LevAtMostLonger(a[1..], b[1..]);
    }
  }

  /** The number of positions at which two strings of the same length differ. */
  function Mismatches(a: JString, b: JString): nat
    requires |a| == |b|
  {
    if |a| == 0 then 0 else (if a[0] == b[0] then 0 else 1) + Mismatches(a[1..], b[1..])
  }

  /** A string differs from itself nowhere. */
  lemma {:induction false} MismatchesSelf(a: JString)
    ensures Mismatches(a, a) == 0
  {
    if |a| > 0 {
      MismatchesSelf(a[1..]);
    }
  }

  /** For strings of the same length, substitutions alone bound the distance. */
  lemma {:induction false} LevAtMostMismatches(a: JString, b: JString)
    requires |a| == |b|
    ensures Lev(a, b) <= Mismatches(a, b)
  {
    if |a| > 0 {
      LevAtMostMismatches(a[1..], b[1..]);
    }
  }

  /** A common prefix never adds to the distance. */
  lemma {:induction false} LevCommonPrefix(p: JString, a: JString, b: JString)
    ensures Lev(p + a, p + b) <= Lev(a, b)
  {
    if |p| > 0 {
      assert (p + a)[1..] == p[1..] + a;
      assert (p + b)[1..] == p[1..] + b;
      LevCommonPrefix(p[1..], a, b);
    } else {
      assert p + a == a && p + b == b;
    }
  }

  /** Deleting one code unit is one edit. */
  lemma LevDeleteFirst(c: Char16, a: JString)
    ensures Lev([c] + a, a) == 1
  {
    LevSelf(a);
    assert ([c] + a)[1..] == a;
    LevZeroIff([c] + a, a);
    if |a| > 0 {
      assert Lev([c] + a, a) <= Lev(a, a) + 1;
    }
  }

  /** `apoc.text.distance(text1, text2)`: `null` if either text is `null`. */
  function Distance(text1: Option<JString>, text2: Option<JString>): (r: Option<nat>)
    ensures r.None? <==> text1.None? || text2.None?
    ensures r.Some? ==> r.value == Lev(text1.value, text2.value)
    ensures r.Some? ==> (r.value == 0 <==> text1.value == text2.value)
    ensures r.Some? ==> r.value <= if |text1.value| >= |text2.value| then |text1.value| else |text2.value|
  {
    if text1.None? || text2.None? then None
    else
      LevZeroIff(text1.value, text2.value);
      LevAtMostLonger(text1.value, text2.value);
      Some(Lev(text1.value, text2.value))
  }

  /** The edits `fuzzyMatch` allows for a first text of `termLength` code units. */
  function MaxDistanceAllowed(termLength: nat): (k: nat)
    ensures k <= 2
    ensures termLength < 3 <==> k == 0
    ensures 3 <= termLength < 5 ==> k == 1
    ensures 5 <= termLength ==> k == 2
  {
    if termLength < 3 then 0 else if termLength < 5 then 1 else 2
  }

  /** `apoc.text.fuzzyMatch(text1, text2)`: `null` if either text is `null`. */
  function FuzzyMatch(text1: Option<JString>, text2: Option<JString>): (r: Option<bool>)
    ensures r.None? <==> text1.None? || text2.None?
    ensures r.Some? ==> (r.value <==> Lev(text1.value, text2.value) <= MaxDistanceAllowed(|text1.value|))
    ensures r.Some? && |text1.value| < 3 ==> (r.value <==> text1.value == text2.value)
  {
    if text1.None? || text2.None? then None
    else Some(Distance(text1, text2).value <= MaxDistanceAllowed(|text1.value|))
  }

  /** A match never bridges a length gap larger than the allowed distance. */
  lemma FuzzyMatchLengthGap(t1: JString, t2: JString)
    ensures FuzzyMatch(Some(t1), Some(t2)).value ==>
      |t1| - |t2| <= MaxDistanceAllowed(|t1|) && |t2| - |t1| <= MaxDistanceAllowed(|t1|)
  {
    LevLengthDifference(t1, t2);
  }

  /** Equal-length texts that differ in at most the allowed number of positions match. */
  lemma FuzzyMatchFewSubstitutions(t1: JString, t2: JString)
    requires |t1| == |t2| && Mismatches(t1, t2) <= MaxDistanceAllowed(|t1|)
    ensures FuzzyMatch(Some(t1), Some(t2)) == Some(true)
  {
    LevAtMostMismatches(t1, t2);
  }

  /** Deleting one code unit anywhere is distance 1. */
  lemma DistanceOfOneDeletion(p: JString, c: Char16, t: JString)
    ensures Distance(Some(p + ([c] + t)), Some(p + t)) == Some(1)
  {
    LevDeleteFirst(c, t);
    LevCommonPrefix(p, [c] + t, t);
    LevZeroIff(p + ([c] + t), p + t);
    assert |p + ([c] + t)| != |p + t|;
  }

  /** The distance between "Levenshtein" and "Levenstein" is 1. */
  lemma DistanceOfLevenshtein(x: JString, y: JString)
    requires x == Lit("Levenshtein") && y == Lit("Levenstein")
    ensures Distance(Some(x), Some(y)) == Some(1)
  {
    var p, t := Lit("Levens"), Lit("tein");
    assert x == p + (['h' as int] + t) by {
      var w := "Levens" + ("h" + "tein");
      assert |w| == 11 && forall i :: 0 <= i < 11 ==> w[i] == "Levenshtein"[i];
      assert "Levenshtein" == w;
      LitConcat("Levens", "h" + "tein");
      LitConcat("h", "tein");
    }
    assert y == p + t by {
      var w := "Levens" + "tein";
      assert |w| == 10 && forall i :: 0 <= i < 10 ==> w[i] == "Levenstein"[i];
      assert "Levenstein" == w;
      LitConcat("Levens", "tein");
    }
    DistanceOfOneDeletion(p, 'h' as int, t);
  }

  /** Changing one code unit of a string changes it in at most one position. */
  lemma {:induction false} MismatchesOneChange(t: JString, i: nat, c: Char16)
    requires i < |t|
    ensures Mismatches(t[i := c], t) <= 1
  {
    if i == 0 {
      assert t[i := c][1..] == t[1..];
      MismatchesSelf(t[1..]);
    } else {
      assert t[i := c][1..] == t[1..][i - 1 := c];
      MismatchesOneChange(t[1..], i - 1, c);
    }
  }

  /** A text of three or more code units matches itself with any one code unit changed. */
  lemma FuzzyMatchOneSubstitution(t: JString, i: nat, c: Char16)
    requires 3 <= |t| && i < |t|
    ensures FuzzyMatch(Some(t[i := c]), Some(t)) == Some(true)
  {
    MismatchesOneChange(t, i, c);
    FuzzyMatchFewSubstitutions(t[i := c], t);
  }

  /** "The" matches "the". */
  lemma FuzzyMatchCase()
    ensures FuzzyMatch(Some(Lit("The")), Some(Lit("the"))) == Some(true)
  {
    assert Lit("the")[0 := 'T' as int] == Lit("The");
    FuzzyMatchOneSubstitution(Lit("the"), 0, 'T' as int);
  }

  /** "Th" does not match "th": texts shorter than three must be equal. */
  lemma FuzzyMatchShortText()
    ensures FuzzyMatch(Some(Lit("Th")), Some(Lit("th"))) == Some(false)
  {
    assert Lit("Th")[0] != Lit("th")[0];
  }
}
