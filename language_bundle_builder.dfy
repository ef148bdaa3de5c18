/**
  `LanguageBundleBuilder`: collects strings, notes and an embedded language
  code, and builds a `LanguageBundle` from copies of them. In auto mode it
  numbers the strings 1, 2, 3, ... in the order they are added, and the
  adders that take an explicit number refuse to run.
 */
module LanguageBundleBuilders {
  import opened Wrappers
  import opened JavaText
  import opened ResourceStrings
  import opened LanguageBundles

  /** In auto mode the `i`-th string added carries the number `i + 1`. */
  predicate NumberedFromOne(s: seq<ResourceString>) {
    forall i | 0 <= i < |s| :: s[i].sequenceNumber == i + 1
  }

  /** Numbered from one, the strings sort in the order they were added. */
  lemma {:induction false} NumberedFromOneIsSorted(s: seq<ResourceString>)
    requires NumberedFromOne(s)
    ensures Sorted(s)
  {
    forall i, j | 0 <= i < j < |s|
      ensures Compare(s[i], s[j], false) <= 0
    {
      KnownAscending(s[i], s[j], false);
    }
  }

  class LanguageBundleBuilder {
    var resourceStrings: seq<ResourceString>
    var notes: seq<JString>
    var embeddedLanguageCode: Option<JString>
    const autoSequenceNumbers: bool
    var seqNum: int

    /** In auto mode the next number is one past the strings added so far, and they are numbered in order. */
    predicate Valid()
      reads this
    {
      autoSequenceNumbers ==> seqNum == |resourceStrings| + 1 && NumberedFromOne(resourceStrings)
    }

    constructor (autoSequenceNumbers: bool)
      ensures Valid()
      ensures this.autoSequenceNumbers == autoSequenceNumbers
      ensures resourceStrings == [] && notes == [] && embeddedLanguageCode.None? && seqNum == 1
    {
      this.autoSequenceNumbers := autoSequenceNumbers;
      resourceStrings := [];
      notes := [];
      embeddedLanguageCode := None;
      seqNum := 1;
    }

    /**
      `addResourceString(ResourceString.Builder)`: in auto mode the string
      gets the next number; it is added at the end either way.
     */
    method AddBuilt(rs: ResourceString)
      requires Valid()
      modifies this
      ensures Valid()
      ensures autoSequenceNumbers ==>
        resourceStrings == old(resourceStrings) + [rs.(sequenceNumber := old(seqNum))] && seqNum == old(seqNum) + 1
      ensures !autoSequenceNumbers ==> resourceStrings == old(resourceStrings) + [rs] && seqNum == old(seqNum)
      ensures notes == old(notes) && embeddedLanguageCode == old(embeddedLanguageCode)
    {
      var r := rs;
      if autoSequenceNumbers {
        r := r.(sequenceNumber := seqNum);
        seqNum := seqNum + 1;
      }
      resourceStrings := resourceStrings + [r];
    }

    /** `addResourceString(key, value)`: a string with an unknown number, numbered in auto mode. */
    method AddKeyValue(key: JString, value: JString)
      requires Valid()
      modifies this
      ensures Valid()
      ensures autoSequenceNumbers ==>
        resourceStrings == old(resourceStrings) + [ResourceString(key, value, old(seqNum), None, None)]
      ensures !autoSequenceNumbers ==> resourceStrings == old(resourceStrings) + [WithKeyValue(key, value)]
      ensures notes == old(notes) && embeddedLanguageCode == old(embeddedLanguageCode)
    {
      AddBuilt(WithKeyValue(key, value));
    }

    /**
      The adders that take an explicit number, notes or source value, and
      the one taking a finished `ResourceString`: they throw
      `IllegalStateException` in auto mode and otherwise add `rs` as it is.
     */
    method AddNumbered(rs: ResourceString) returns (r: Result<()>)
      requires Valid()
      modifies this
      ensures Valid()
      ensures autoSequenceNumbers ==> r == Err(IllegalStateException) && resourceStrings == old(resourceStrings)
      ensures !autoSequenceNumbers ==> r.Ok? && resourceStrings == old(resourceStrings) + [rs]
      ensures notes == old(notes) && embeddedLanguageCode == old(embeddedLanguageCode) && seqNum == old(seqNum)
    {
      if autoSequenceNumbers {
        return Err(IllegalStateException);
      }
      resourceStrings := resourceStrings + [rs];
      r := Ok(());
    }

    /** `addResourceString(key, value, sequenceNumber)`. */
    method AddWithNumber(key: JString, value: JString, sequenceNumber: int) returns (r: Result<()>)
      requires Valid()
      modifies this
      ensures Valid()
      ensures autoSequenceNumbers ==> r == Err(IllegalStateException) && resourceStrings == old(resourceStrings)
      ensures !autoSequenceNumbers ==>
        r.Ok? && resourceStrings == old(resourceStrings) + [ResourceString(key, value, sequenceNumber, None, None)]
      ensures notes == old(notes) && embeddedLanguageCode == old(embeddedLanguageCode) && seqNum == old(seqNum)
    {
      r := AddNumbered(ResourceString(key, value, sequenceNumber, None, None));
    }

    /** `addResourceString(key, value, sequenceNumber, notes, sourceValue)`; `sourceValue` is `None` for the four-argument form. */
    method AddWithNotes(key: JString, value: JString, sequenceNumber: int, ns: Option<seq<JString>>, sourceValue: Option<JString>)
      returns (r: Result<()>)
      requires Valid()
      modifies this
      ensures Valid()
      ensures autoSequenceNumbers ==> r == Err(IllegalStateException) && resourceStrings == old(resourceStrings)
      ensures !autoSequenceNumbers ==>
        r.Ok? && resourceStrings == old(resourceStrings) + [ResourceString(key, value, sequenceNumber, ns, sourceValue)]
      ensures notes == old(notes) && embeddedLanguageCode == old(embeddedLanguageCode) && seqNum == old(seqNum)
    {
      r := AddNumbered(ResourceString(key, value, sequenceNumber, ns, sourceValue));
    }

    method AddNote(note: JString)
      requires Valid()
      modifies this
      ensures Valid()
      ensures notes == old(notes) + [note]
      ensures resourceStrings == old(resourceStrings) && embeddedLanguageCode == old(embeddedLanguageCode) && seqNum == old(seqNum)
    {
      notes := notes + [note];
    }

    method AddNotes(ns: seq<JString>)
      requires Valid()
      modifies this
      ensures Valid()
      ensures notes == old(notes) + ns
      ensures resourceStrings == old(resourceStrings) && embeddedLanguageCode == old(embeddedLanguageCode) && seqNum == old(seqNum)
    {
      notes := notes + ns;
    }

    method EmbeddedLanguageCode(code: Option<JString>)
      requires Valid()
      modifies this
      ensures Valid()
      ensures embeddedLanguageCode == code
      ensures resourceStrings == old(resourceStrings) && notes == old(notes) && seqNum == old(seqNum)
    {
      embeddedLanguageCode := code;
    }

    /** `build`: a new bundle holding copies of the strings, the notes and the language code. */
    method Build() returns (b: LanguageBundle)
      ensures fresh(b)
      ensures b.resourceStrings == Some(resourceStrings) && b.notes == Some(notes)
      ensures b.embeddedLanguageCode == embeddedLanguageCode
    {
      b := new LanguageBundle();
      b.SetResourceStrings(resourceStrings);
      b.SetNotes(notes);
      b.SetEmbeddedLanguageCode(embeddedLanguageCode);
    }
  }
}
