/**
  `LanguageBundle`: the strings, notes and embedded language code of one
  language, as a filter reads them or is given them to write.
 */
module LanguageBundles {
  import opened Wrappers
  import opened JavaText
  import opened ResourceStrings

  /** The list is in the order of `ResourceStringComparator`. */
  predicate Sorted(s: seq<ResourceString>) {
    forall i, j | 0 <= i < j < |s| :: Compare(s[i], s[j], false) <= 0
  }

  /**
    The bundle object. A field the setters have not been called for is
    `None` (Java's null).
   */
  class LanguageBundle {
    var resourceStrings: Option<seq<ResourceString>>
    var notes: Option<seq<JString>>
    var embeddedLanguageCode: Option<JString>

    /** The no-argument constructor: nothing is set. */
    constructor ()
      ensures resourceStrings.None? && notes.None? && embeddedLanguageCode.None?
    {
      resourceStrings := None;
      notes := None;
      embeddedLanguageCode := None;
    }

    /** `setNotes` stores a copy of the list. */
    method SetNotes(ns: seq<JString>)
      modifies this
      ensures notes == Some(ns)
      ensures resourceStrings == old(resourceStrings) && embeddedLanguageCode == old(embeddedLanguageCode)
    {
      notes := Some(ns);
    }

    /** `getNotes`: the notes, or none when they were never set. */
    method GetNotes() returns (r: seq<JString>)
      ensures notes.None? ==> r == []
      ensures notes.Some? ==> r == notes.value
    {
      r := if notes.None? then [] else notes.value;
    }

    /** `setResourceStrings` stores a copy of the collection. */
    method SetResourceStrings(rs: seq<ResourceString>)
      modifies this
      ensures resourceStrings == Some(rs)
      ensures notes == old(notes) && embeddedLanguageCode == old(embeddedLanguageCode)
    {
      resourceStrings := Some(rs);
    }

    /** `getResourceStrings`: a view of the strings; wrapping a collection that was never set throws. */
    method GetResourceStrings() returns (r: Result<seq<ResourceString>>)
      ensures resourceStrings.None? ==> r == Err(NullPointerException)
      ensures resourceStrings.Some? ==> r == Ok(resourceStrings.value)
    {
      if resourceStrings.None? {
        return Err(NullPointerException);
      }
      r := Ok(resourceStrings.value);
    }

    method SetEmbeddedLanguageCode(code: Option<JString>)
      modifies this
      ensures embeddedLanguageCode == code
      ensures resourceStrings == old(resourceStrings) && notes == old(notes)
    {
      embeddedLanguageCode := code;
    }

    /** `getEmbeddedLanguageCode`: what was set, or null. */
    method GetEmbeddedLanguageCode() returns (r: Option<JString>)
      ensures r == embeddedLanguageCode
    {
      r := embeddedLanguageCode;
    }

    /**
      `getSortedResourceStrings`: a sorted copy of the strings; the stored
      collection keeps its order. Copying a collection that was never set
      throws.
     */
    method GetSortedResourceStrings() returns (r: Result<seq<ResourceString>>)
      ensures resourceStrings.None? ==> r == Err(NullPointerException)
      ensures resourceStrings.Some? ==> r == Ok(SortedCopy(resourceStrings.value))
      ensures resourceStrings.Some? ==> Sorted(r.value) && multiset(r.value) == multiset(resourceStrings.value)
    {
      if resourceStrings.None? {
        return Err(NullPointerException);
      }
      var sorted := SortResourceStrings(resourceStrings.value);
      r := Ok(sorted);
    }
  }

  /** `x` inserted into `s` before the first element that comes after it. */
  function InsertSorted(s: seq<ResourceString>, x: ResourceString): (r: seq<ResourceString>)
  {
    if s == [] then [x]
    else if Compare(x, s[0], false) < 0 then [x] + s
    else [s[0]] + InsertSorted(s[1..], x)
  }

  /** The strings inserted one by one, in order, into an initially empty list. */
  function SortedCopy(s: seq<ResourceString>): (r: seq<ResourceString>)
  {
    if s == [] then [] else InsertSorted(SortedCopy(s[..|s| - 1]), s[|s| - 1])
  }

  /** Inserting at position `k`, found by the scan of `Insert`, is `InsertSorted`. */
  lemma {:induction false} InsertAt(s: seq<ResourceString>, x: ResourceString, k: nat)
    requires k <= |s|
    requires forall i | 0 <= i < k :: Compare(x, s[i], false) >= 0
    requires k < |s| ==> Compare(x, s[k], false) < 0
    ensures InsertSorted(s, x) == s[..k] + [x] + s[k..]
  {
    if k > 0 {
      InsertAt(s[1..], x, k - 1);
      assert s[..k] == [s[0]] + s[1..][..k - 1];
      assert s[k..] == s[1..][k - 1..];
    } else {
      assert s[k..] == s;
    }
  }

  /** Inserting keeps a sorted list sorted and adds exactly `x`. */
  lemma InsertSortedSorted(s: seq<ResourceString>, x: ResourceString)
    requires Sorted(s)
    ensures Sorted(InsertSorted(s, x)) && multiset(InsertSorted(s, x)) == multiset(s) + multiset{x}
  {
    var k := 0;
    while k < |s| && Compare(x, s[k], false) >= 0
      invariant 0 <= k <= |s|
      invariant forall i | 0 <= i < k :: Compare(x, s[i], false) >= 0
    {
      k := k + 1;
    }
    InsertAt(s, x, k);
    InsertedSorted(s, x, k);
    assert s == s[..k] + s[k..];
  }

  /** The copy is sorted and holds the same strings. */
  lemma {:induction false} SortedCopySorted(s: seq<ResourceString>)
    ensures Sorted(SortedCopy(s)) && multiset(SortedCopy(s)) == multiset(s)
  {
    if s != [] {
      SortedCopySorted(s[..|s| - 1]);
      InsertSortedSorted(SortedCopy(s[..|s| - 1]), s[|s| - 1]);
      assert s == s[..|s| - 1] + [s[|s| - 1]];
    }
  }

  /** One round of the sort: the scan for the insertion point. */
  method Insert(s: seq<ResourceString>, x: ResourceString) returns (t: seq<ResourceString>)
    ensures t == InsertSorted(s, x)
  {
    var k := 0;
    while k < |s| && Compare(x, s[k], false) >= 0
      invariant 0 <= k <= |s|
      invariant forall i | 0 <= i < k :: Compare(x, s[i], false) >= 0
    {
      k := k + 1;
    }
    t := s[..k] + [x] + s[k..];
    InsertAt(s, x, k);
  }

  /** Inserting at the first element that comes after `x` keeps the list sorted. */
  lemma InsertedSorted(s: seq<ResourceString>, x: ResourceString, k: nat)
    requires Sorted(s) && k <= |s|
    requires forall i | 0 <= i < k :: Compare(x, s[i], false) >= 0
    requires k < |s| ==> Compare(x, s[k], false) < 0
    ensures Sorted(s[..k] + [x] + s[k..])
  {
    var t := s[..k] + [x] + s[k..];
    forall i, j | 0 <= i < j < |t|
      ensures Compare(t[i], t[j], false) <= 0
    {
      if j < k {
        assert t[i] == s[i] && t[j] == s[j];
      } else if j == k {
        assert t[i] == s[i] && t[j] == x;
        CompareAntisymmetric(s[i], x, false);
      } else if i == k {
        assert t[i] == x && t[j] == s[j - 1];
        if j - 1 > k {
          CompareTransitive(x, s[k], s[j - 1], false);
        }
      } else if i < k {
        assert t[i] == s[i] && t[j] == s[j - 1];
      } else {
        assert t[i] == s[i - 1] && t[j] == s[j - 1];
      }
    }
  }

  /** The sort `getSortedResourceStrings` applies: an insertion sort into a new list. */
  method SortResourceStrings(s: seq<ResourceString>) returns (r: seq<ResourceString>)
    ensures r == SortedCopy(s)
    ensures Sorted(r) && multiset(r) == multiset(s)
  {
    r := [];
    var i := 0;
    while i < |s|
      invariant 0 <= i <= |s|
      invariant r == SortedCopy(s[..i])
    {
      assert s[..i + 1][..i] == s[..i];
      r := Insert(r, s[i]);
      i := i + 1;
    }
    assert s[..i] == s;
    SortedCopySorted(s);
  }
}
