/**
  `ApproximateMatcher`: two source strings match when they are equal, or
  when they are equal after case folding, turning every run of code units
  that are neither letters nor numbers into one space, and trimming.

  ICU's full case folding and the Unicode classes `\p{L}` and `\p{N}` are
  not modelled; a `Unicode` value supplies them.
 */
module ApproximateMatching {
  import opened JavaText

  /** `UCharacter.foldCase(text, true)` and membership in `\p{L}` or `\p{N}`. */
  datatype Unicode = Unicode(foldCase: JString -> JString, isLetterOrNumber: CodeUnit -> bool)

  /** No letter or number is a blank that `String.trim` removes; the Unicode classes have none below U+0021. */
  predicate NoBlankLetters(keep: CodeUnit -> bool) {
    forall c: CodeUnit | IsTrimmed(c) :: !keep(c)
  }

  /** The length of the run of code units at the start of `s` that are neither letters nor numbers. */
  function RunLength(s: JString, keep: CodeUnit -> bool): (n: nat)
    ensures n <= |s|
    ensures forall k | 0 <= k < n :: !keep(s[k])
    ensures n == |s| || keep(s[n])
  {
    if s == [] || keep(s[0]) then 0 else 1 + RunLength(s[1..], keep)
  }

  /** `replaceAll("[^\\p{L}\\p{N}]+", " ")`: each maximal run of other code units becomes one space. */
  function CollapseRuns(s: JString, keep: CodeUnit -> bool): (r: JString)
    ensures |r| <= |s|
    decreases |s|
  {
    if s == [] then []
    else if keep(s[0]) then [s[0]] + CollapseRuns(s[1..], keep)
    else [SPACE] + CollapseRuns(s[RunLength(s, keep)..], keep)
  }

  /** `processText`: fold case, collapse the runs of separators and trim. */
  function ProcessText(u: Unicode, text: JString): (r: JString)
    ensures |r| <= |u.foldCase(text)|
  {
    Trim(CollapseRuns(u.foldCase(text), u.isLetterOrNumber))
  }

  /** A matcher keeps its text and the text's normalised form, computed once by the constructor. */
  datatype ApproximateMatcher = ApproximateMatcher(text: JString, processedText: JString) {
    /** The instance `matches`: the same text, or the same normalised form. */
    function Matches(u: Unicode, inText: JString): (r: bool) {
      text == inText || processedText == ProcessText(u, inText)
    }
  }

  /** The constructor. */
  function NewMatcher(u: Unicode, text: JString): (r: ApproximateMatcher) {
    ApproximateMatcher(text, ProcessText(u, text))
  }

  /** The static `matches`: a matcher for the first text tried on the second. */
  function Matches(u: Unicode, text1: JString, text2: JString): (r: bool) {
    NewMatcher(u, text1).Matches(u, text2)
  }

  // ---------------------------------------------------------------------
  // the letters and numbers of a string

  /** The letters and numbers of `s`, in order. */
  function Kept(s: JString, keep: CodeUnit -> bool): (r: JString)
    decreases |s|
  {
    if s == [] then [] else (if keep(s[0]) then [s[0]] else []) + Kept(s[1..], keep)
  }

  lemma {:induction false} KeptAppend(a: JString, b: JString, keep: CodeUnit -> bool)
    ensures Kept(a + b, keep) == Kept(a, keep) + Kept(b, keep)
    decreases |a|
  {
    if a != [] {
      var head := if keep(a[0]) then [a[0]] else [];
      assert (a + b)[0] == a[0] && (a + b)[1..] == a[1..] + b;
      KeptAppend(a[1..], b, keep);
      AppendAssoc(head, Kept(a[1..], keep), Kept(b, keep));
    } else {
      assert a + b == b;
    }
  }

  lemma {:induction false} KeptNone(s: JString, keep: CodeUnit -> bool)
    requires forall k | 0 <= k < |s| :: !keep(s[k])
    ensures Kept(s, keep) == []
    decreases |s|
  {
    if s != [] {
      KeptNone(s[1..], keep);
    }
  }

  // ---------------------------------------------------------------------
  // the shape of the collapsed text

  /** A collapsed text that starts with a letter or number starts with the same one. */
  lemma CollapseRunsHead(s: JString, keep: CodeUnit -> bool)
    requires s != [] && keep(s[0])
    ensures CollapseRuns(s, keep) != [] && CollapseRuns(s, keep)[0] == s[0]
  {
  }

  /**
    After the replacement every code unit is a letter, a number or a
    space; no two separators are adjacent; and the letters and numbers are
    those of the input, in order.
   */
  lemma {:induction false} CollapseRunsShape(s: JString, keep: CodeUnit -> bool)
    requires !keep(SPACE)
    ensures var r := CollapseRuns(s, keep);
      (forall i | 0 <= i < |r| :: r[i] == SPACE || keep(r[i])) &&
      (forall i | 0 <= i < |r| - 1 :: keep(r[i]) || keep(r[i + 1])) &&
      Kept(r, keep) == Kept(s, keep)
    decreases |s|
  {
    if s != [] {
      if keep(s[0]) {
        CollapseRunsShape(s[1..], keep);
        var r := CollapseRuns(s, keep);
        assert r[1..] == CollapseRuns(s[1..], keep);
      } else {
        var n := RunLength(s, keep);
        var t := s[n..];
        CollapseRunsShape(t, keep);
        var r := CollapseRuns(s, keep);
        assert r[1..] == CollapseRuns(t, keep);
        if t != [] {
          CollapseRunsHead(t, keep);
        }
        assert s == s[..n] + t;
        KeptAppend(s[..n], t, keep);
        KeptNone(s[..n], keep);
      }
    }
  }

  /** Replacing the runs a second time changes nothing. */
  lemma {:induction false} CollapseRunsIdempotent(s: JString, keep: CodeUnit -> bool)
    ensures CollapseRuns(CollapseRuns(s, keep), keep) == CollapseRuns(s, keep)
    decreases |s|
  {
    if s != [] {
      var r := CollapseRuns(s, keep);
      if keep(s[0]) {
        CollapseRunsIdempotent(s[1..], keep);
        assert r[0] == s[0] && r[1..] == CollapseRuns(s[1..], keep);
      } else {
        var t := s[RunLength(s, keep)..];
        var rest := CollapseRuns(t, keep);
        CollapseRunsIdempotent(t, keep);
        assert r == [SPACE] + rest;
        if !keep(SPACE) {
          if t != [] {
            CollapseRunsHead(t, keep);
          }
          assert RunLength(r, keep) == 1;
          assert r[1..] == rest;
        } else {
          assert r[1..] == rest;
        }
      }
    }
  }

  /**
    The normalised form is empty or starts and ends with a letter or
    number, holds only letters, numbers and single spaces between them,
    and keeps every letter and number of the folded text in order.
   */
  lemma ProcessTextNormal(u: Unicode, text: JString)
    requires NoBlankLetters(u.isLetterOrNumber)
    ensures var p := ProcessText(u, text);
      var keep := u.isLetterOrNumber;
      (p == [] || (keep(p[0]) && keep(p[|p| - 1]))) &&
      (forall i | 0 <= i < |p| :: p[i] == SPACE || keep(p[i])) &&
      (forall i | 0 <= i < |p| - 1 :: keep(p[i]) || keep(p[i + 1])) &&
      Kept(p, keep) == Kept(u.foldCase(text), keep)
  {
    var keep := u.isLetterOrNumber;
    assert IsTrimmed(SPACE);
    CollapseRunsShape(u.foldCase(text), keep);
    TrimShape(CollapseRuns(u.foldCase(text), keep), keep);
  }

  /** Trimming a collapsed text leaves its letters and numbers and ends on them. */
  lemma TrimShape(r: JString, keep: CodeUnit -> bool)
    requires NoBlankLetters(keep)
    requires forall i | 0 <= i < |r| :: r[i] == SPACE || keep(r[i])
    requires forall i | 0 <= i < |r| - 1 :: keep(r[i]) || keep(r[i + 1])
    ensures var p := Trim(r);
      (p == [] || (keep(p[0]) && keep(p[|p| - 1]))) &&
      (forall i | 0 <= i < |p| :: p[i] == SPACE || keep(p[i])) &&
      (forall i | 0 <= i < |p| - 1 :: keep(p[i]) || keep(p[i + 1])) &&
      Kept(p, keep) == Kept(r, keep)
  {
    var p := Trim(r);
    if p == [] {
      BlankNotKept(r, keep);
    } else {
      var i := TrimStartCount(r);
      var j := |r| - TrimEndCount(r);
      assert p == r[i..j];
      assert IsTrimmed(SPACE);
      assert keep(p[0]) by {
        assert p[0] == r[i] && !IsTrimmed(r[i]);
      }
      assert keep(p[|p| - 1]) by {
        assert p[|p| - 1] == r[j - 1] && !IsTrimmed(r[j - 1]);
      }
      forall k | 0 <= k < |p| ensures p[k] == SPACE || keep(p[k]) {
        assert p[k] == r[i + k];
      }
      forall k | 0 <= k < |p| - 1 ensures keep(p[k]) || keep(p[k + 1]) {
        assert p[k] == r[i + k] && p[k + 1] == r[i + k + 1];
      }
      assert Blank(r[..i]) && Blank(r[j..]);
      TrimKept(r, i, j, keep);
    }
  }

  /** Every code unit of `s` is one `String.trim` removes. */
  predicate Blank(s: JString) {
    forall k | 0 <= k < |s| :: IsTrimmed(s[k])
  }

  lemma {:induction false} BlankNotKept(s: JString, keep: CodeUnit -> bool)
    requires NoBlankLetters(keep) && Blank(s)
    ensures Kept(s, keep) == []
    decreases |s|
  {
    if s != [] {
      BlankNotKept(s[1..], keep);
    }
  }

  /** Dropping blanks at both ends keeps the letters and numbers. */
  lemma TrimKept(r: JString, i: nat, j: nat, keep: CodeUnit -> bool)
    requires NoBlankLetters(keep)
    requires i <= j <= |r|
    requires Blank(r[..i]) && Blank(r[j..])
    ensures Kept(r[i..j], keep) == Kept(r, keep)
  {
    assert r == r[..i] + r[i..j] + r[j..];
    KeptAppend(r[..i] + r[i..j], r[j..], keep);
    KeptAppend(r[..i], r[i..j], keep);
    BlankNotKept(r[..i], keep);
    BlankNotKept(r[j..], keep);
  }

  // ---------------------------------------------------------------------
  // trailing separators

  /** The separator run at the start of `x + t`, where `t` holds only separators. */
  lemma {:induction false} RunLengthTail(x: JString, t: JString, keep: CodeUnit -> bool)
    requires forall k | 0 <= k < |t| :: !keep(t[k])
    ensures RunLength(x + t, keep) == if RunLength(x, keep) < |x| then RunLength(x, keep) else |x| + |t|
    decreases |x|
  {
    if x == [] {
      assert x + t == t;
      RunLengthAll(t, keep);
    } else if !keep(x[0]) {
      assert (x + t)[0] == x[0] && (x + t)[1..] == x[1..] + t;
      RunLengthTail(x[1..], t, keep);
    } else {
      assert (x + t)[0] == x[0];
    }
  }

  lemma {:induction false} RunLengthAll(t: JString, keep: CodeUnit -> bool)
    requires forall k | 0 <= k < |t| :: !keep(t[k])
    ensures RunLength(t, keep) == |t|
    decreases |t|
  {
    if t != [] {
      RunLengthAll(t[1..], keep);
    }
  }

  /** The text ends in a separator. */
  predicate EndsInSeparator(x: JString, keep: CodeUnit -> bool) {
    x != [] && !keep(x[|x| - 1])
  }

  /** A run of separators after the text adds at most one space. */
  lemma {:induction false} CollapseRunsTail(x: JString, t: JString, keep: CodeUnit -> bool)
    requires t != [] && forall k | 0 <= k < |t| :: !keep(t[k])
    ensures CollapseRuns(x + t, keep) ==
      if EndsInSeparator(x, keep) then CollapseRuns(x, keep) else CollapseRuns(x, keep) + [SPACE]
    decreases |x|
  {
    if x == [] {
      assert x + t == t;
      RunLengthAll(t, keep);
      assert t[|t|..] == [];
    } else if keep(x[0]) {
      var y := x[1..];
      assert (x + t)[0] == x[0] && (x + t)[1..] == y + t;
      CollapseRunsTail(y, t, keep);
      assert EndsInSeparator(y, keep) == EndsInSeparator(x, keep) by {
        if y != [] {
          assert y[|y| - 1] == x[|x| - 1];
        }
      }
      AppendAssoc([x[0]], CollapseRuns(y, keep), [SPACE]);
    } else {
      var n := RunLength(x, keep);
      RunLengthTail(x, t, keep);
      assert (x + t)[0] == x[0];
      if n < |x| {
        var y := x[n..];
        assert (x + t)[n..] == y + t;
        CollapseRunsTail(y, t, keep);
        assert EndsInSeparator(y, keep) == EndsInSeparator(x, keep) by {
          assert y[|y| - 1] == x[|x| - 1];
        }
        AppendAssoc([SPACE], CollapseRuns(y, keep), [SPACE]);
      } else {
        assert (x + t)[|x + t|..] == [] && x[n..] == [];
      }
    }
  }

  lemma {:induction false} TrimStartCountTail(s: JString, c: CodeUnit)
    requires TrimStartCount(s) < |s|
    ensures TrimStartCount(s + [c]) == TrimStartCount(s)
    decreases |s|
  {
    assert (s + [c])[0] == s[0];
    if IsTrimmed(s[0]) {
      assert (s + [c])[1..] == s[1..] + [c];
      TrimStartCountTail(s[1..], c);
    }
  }

  /** `String.trim` removes a blank appended to the text. */
  lemma TrimBlank(s: JString, c: CodeUnit)
    requires IsTrimmed(c)
    ensures Trim(s + [c]) == Trim(s)
  {
    var sc := s + [c];
    if Blank(s) {
      assert Blank(sc);
    } else {
      var n := TrimStartCount(s);
      var e := TrimEndCount(s);
      TrimStartCountTail(s, c);
      TrimEndCountTail(s, c);
      assert !IsTrimmed(sc[n]);
      SliceBeforeLast(s, c, n, |s| - e);
    }
  }

  lemma TrimEndCountTail(s: JString, c: CodeUnit)
    requires IsTrimmed(c)
    ensures TrimEndCount(s + [c]) == 1 + TrimEndCount(s)
  {
    assert (s + [c])[..|s|] == s;
  }

  lemma SliceBeforeLast(s: JString, c: CodeUnit, i: nat, j: nat)
    requires i <= j <= |s|
    ensures (s + [c])[i..j] == s[i..j]
  {
  }

  /** Separators after the last word do not matter: "Save" matches "Save..." and "save!". */
  lemma TrailingSeparatorsMatch(u: Unicode, a: JString, b: JString, t: JString)
    requires NoBlankLetters(u.isLetterOrNumber)
    requires t != [] && forall k | 0 <= k < |t| :: !u.isLetterOrNumber(t[k])
    requires u.foldCase(a) == u.foldCase(b) + t
    ensures Matches(u, a, b) && Matches(u, b, a)
  {
    var keep := u.isLetterOrNumber;
    var x := u.foldCase(b);
    assert IsTrimmed(SPACE);
    CollapseRunsTail(x, t, keep);
    if !EndsInSeparator(x, keep) {
      TrimBlank(CollapseRuns(x, keep), SPACE);
    }
  }

  /** Matching is reflexive, symmetric and transitive. */
  lemma MatchesEquivalence(u: Unicode, a: JString, b: JString, c: JString)
    ensures Matches(u, a, a)
    ensures Matches(u, a, b) == Matches(u, b, a)
    ensures Matches(u, a, b) && Matches(u, b, c) ==> Matches(u, a, c)
  {
  }
}
