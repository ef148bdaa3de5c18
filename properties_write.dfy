/**
  `JavaPropertiesResource.write`: a language bundle to the lines of a
  `.properties` file. The bundle's notes come first as comments, followed
  by a blank line when there are any, then a comment holding the time of
  writing, then every string in the order of `ResourceStringComparator`,
  its value with the single quotes of a message pattern doubled, printed by
  `PropDef.print` with `=` as separator.

  The time of writing is the parameter `stamp`; the word-break iterator is
  the function `segmenter`; `new MessagePattern(value)` is `pattern`.
 */
module PropertiesWrite {
  import opened Wrappers
  import opened JavaText
  import opened PropertiesQuotes
  import opened PropertiesLines
  import opened PropertiesPrint
  import opened ResourceStrings
  import opened LanguageBundles

  /** The word-break iterator cuts every value into non-empty pieces that make it up again. */
  ghost predicate IsSegmenter(segmenter: JString -> seq<JString>) {
    forall v :: IsSegmentation(segmenter(v), v)
  }

  /** The value as written: single quotes doubled when it is treated as a message pattern. */
  function Converted(value: JString, mode: MessagePatternEscape, pattern: JString -> PatternInfo): (r: JString) {
    SingleQuoteConverted(value, mode, pattern(value))
  }

  /** The definition `write` prints for a string. */
  function EntryDef(r: ResourceString, mode: MessagePatternEscape, pattern: JString -> PatternInfo): (d: PropDef)
    ensures d.key == r.key && d.separator == Equal && d.notes == r.notes
  {
    PropDef(r.key, Converted(r.value, mode, pattern), Equal, r.notes)
  }

  /** The lines printed for one string: its notes, then its entry. */
  function EntryText(r: ResourceString, utf8: bool, mode: MessagePatternEscape, pattern: JString -> PatternInfo,
                     segmenter: JString -> seq<JString>): seq<JString>
    requires IsSegmenter(segmenter)
  {
    var d := EntryDef(r, mode, pattern);
    PrintedLines(d, segmenter(d.value), utf8)
  }

  /** The lines printed for the strings, in the order given. */
  function EntriesText(rs: seq<ResourceString>, utf8: bool, mode: MessagePatternEscape, pattern: JString -> PatternInfo,
                       segmenter: JString -> seq<JString>): seq<JString>
    requires IsSegmenter(segmenter)
  {
    if rs == [] then [] else EntryText(rs[0], utf8, mode, pattern, segmenter) + EntriesText(rs[1..], utf8, mode, pattern, segmenter)
  }

  /** Printing one more string adds its lines at the end. */
  lemma {:induction false} EntriesTextAppend(rs: seq<ResourceString>, r: ResourceString, utf8: bool, mode: MessagePatternEscape,
                                             pattern: JString -> PatternInfo, segmenter: JString -> seq<JString>)
    requires IsSegmenter(segmenter)
    ensures EntriesText(rs + [r], utf8, mode, pattern, segmenter) ==
      EntriesText(rs, utf8, mode, pattern, segmenter) + EntryText(r, utf8, mode, pattern, segmenter)
    decreases |rs|
  {
    if rs == [] {
      assert [r][1..] == [];
    } else {
      assert (rs + [r])[0] == rs[0] && (rs + [r])[1..] == rs[1..] + [r];
      EntriesTextAppend(rs[1..], r, utf8, mode, pattern, segmenter);
    }
  }

  /** The comment lines and the time stamp that open the file. */
  function HeaderLines(notes: seq<JString>, stamp: JString, utf8: bool): (r: seq<JString>) {
    NoteLines(Some(notes), utf8) + (if notes != [] then [[]] else []) + [[HASH] + stamp]
  }

  /** What `write` prints for a bundle holding `strings` and `notes`. */
  function WrittenLines(strings: seq<ResourceString>, notes: seq<JString>, stamp: JString, utf8: bool,
                        mode: MessagePatternEscape, pattern: JString -> PatternInfo, segmenter: JString -> seq<JString>)
    : seq<JString>
    requires IsSegmenter(segmenter)
  {
    HeaderLines(notes, stamp, utf8) + EntriesText(SortedCopy(strings), utf8, mode, pattern, segmenter)
  }

  /** One string of the loop of `write`: convert its value, build its definition and print it. */
  method WriteEntry(r: ResourceString, utf8: bool, mode: MessagePatternEscape, pattern: JString -> PatternInfo,
                    segmenter: JString -> seq<JString>) returns (out: seq<JString>)
    requires IsSegmenter(segmenter)
    ensures out == EntryText(r, utf8, mode, pattern, segmenter)
  {
    var value := ConvertSingleQuote(r.value, mode, pattern(r.value));
    var pd := PropDef(r.key, value, Equal, r.notes);
    out := Print(pd, segmenter(value), utf8);
  }

  /** The loop of `write` over the sorted strings. */
  method WriteEntries(rs: seq<ResourceString>, utf8: bool, mode: MessagePatternEscape, pattern: JString -> PatternInfo,
                      segmenter: JString -> seq<JString>) returns (out: seq<JString>)
    requires IsSegmenter(segmenter)
    ensures out == EntriesText(rs, utf8, mode, pattern, segmenter)
  {
    out := [];
    var i := 0;
    while i < |rs|
      invariant 0 <= i <= |rs|
      invariant out == EntriesText(rs[..i], utf8, mode, pattern, segmenter)
    {
      var lines := WriteEntry(rs[i], utf8, mode, pattern, segmenter);
      EntriesTextAppend(rs[..i], rs[i], utf8, mode, pattern, segmenter);
      TakeOneMore(rs, i);
      out := out + lines;
      i := i + 1;
    }
    assert rs[..i] == rs;
  }

  /**
    `write`: the sorted strings are taken first, so a bundle whose strings
    were never set fails before anything is printed; notes never set count
    as none.
   */
  method Write(bundle: LanguageBundle, stamp: JString, utf8: bool, mode: MessagePatternEscape, pattern: JString -> PatternInfo,
               segmenter: JString -> seq<JString>) returns (r: Result<seq<JString>>)
    requires IsSegmenter(segmenter)
    ensures bundle.resourceStrings.None? ==> r == Err(NullPointerException)
    ensures bundle.resourceStrings.Some? ==>
      r == Ok(WrittenLines(bundle.resourceStrings.value, bundle.notes.GetOr([]), stamp, utf8, mode, pattern, segmenter))
  {
    var resStrings := bundle.GetSortedResourceStrings();
    if resStrings.Err? {
      return Err(resStrings.thrown);
    }
    var notes := bundle.GetNotes();
    assert notes == bundle.notes.GetOr([]);
    var out := PrintNotes(notes, utf8);
    if notes != [] {
      out := out + [[]];
    } else {
      assert out + [] == out;
    }
    out := out + [[HASH] + stamp];
    assert out == HeaderLines(notes, stamp, utf8);
    var entries := WriteEntries(resStrings.value, utf8, mode, pattern, segmenter);
    r := Ok(out + entries);
  }
}
