/**
  What `JavaPropertiesResource.parse` makes of the lines `write` prints.
  The strings come back in the order `write` sorted them, numbered 1, 2,
  3, ..., with their keys and values; the bundle's notes come back as they
  were. Each string's notes come back too, except that the time stamp
  comment joins the notes of the first string and an empty list of notes
  comes back as none.
 */
module PropertiesRoundTrip {
  import opened Wrappers
  import opened JavaText
  import opened PropertiesEscape
  import opened PropertiesQuotes
  import opened PropertiesLines
  import opened PropertiesPrint
  import opened ResourceStrings
  import opened LanguageBundles
  import opened PropertiesParse
  import opened PropertiesWrite

  /**
    A comment the reader gets back as it was written: it breaks no line,
    and, unless the file is UTF-8, it holds no backslash that would be read
    as the start of an escape.
   */
  predicate ReadableNote(note: JString, utf8: bool) {
    NEWLINE !in note && CARRIAGE_RETURN !in note && (!utf8 ==> BACKSLASH !in note)
  }

  predicate ReadableNotes(ns: seq<JString>, utf8: bool) {
    forall i | 0 <= i < |ns| :: ReadableNote(ns[i], utf8)
  }

  /** A value the message-pattern test treats the same way once its single quotes are doubled. */
  predicate QuoteSafe(value: JString, mode: MessagePatternEscape, pattern: JString -> PatternInfo) {
    QUOTE in value && Converts(pattern(value), mode) ==> Converts(pattern(QuotesDoubled(value, false)), mode)
  }

  /** A string `write` prints so that it reads back: a key, readable notes and a quote-safe value. */
  predicate Writable(r: ResourceString, utf8: bool, mode: MessagePatternEscape, pattern: JString -> PatternInfo) {
    r.key != [] && ReadableNotes(r.notes.GetOr([]), utf8) && QuoteSafe(r.value, mode, pattern)
  }

  /** No two strings share a key. */
  predicate UniqueKeys(rs: seq<ResourceString>) {
    (forall a | a in multiset(rs) :: multiset(rs)[a] == 1) &&
    (forall a, b | a in rs && b in rs && a.key == b.key :: a == b)
  }

  predicate DistinctKeys(rs: seq<ResourceString>) {
    forall i, j | 0 <= i < j < |rs| :: rs[i].key != rs[j].key
  }

  /** The notes the `i`-th written string comes back with: the time stamp joins the first string's notes. */
  function ExpectedNotes(rs: seq<ResourceString>, i: nat, stamp: JString): (r: Option<seq<JString>>)
    requires i < |rs|
  {
    var ns := (if i == 0 then [stamp] else []) + rs[i].notes.GetOr([]);
    if ns == [] then None else Some(ns)
  }

  /** The strings a reader gets back from the strings `rs`, written in this order. */
  function ReadBack(rs: seq<ResourceString>, stamp: JString): (r: seq<ResourceString>)
    ensures |r| == |rs|
  {
    seq(|rs|, i requires 0 <= i < |rs| => ResourceString(rs[i].key, rs[i].value, i + 1, ExpectedNotes(rs, i, stamp), None))
  }

  // ---------------------------------------------------------------------
  // One round of the reader at a time

  /** A comment line as `write` prints it reads back as the note it was made of. */
  lemma CommentReadBack(note: JString, utf8: bool)
    requires ReadableNote(note, utf8)
    ensures var line := NoteLine(note, utf8);
      StripLeadingSpaces(line) == line && IsComment(line) && NoteText(line, utf8, true) == Ok(note)
  {
    var body := if utf8 then note else UnicodeEscaped(note);
    var line := [HASH] + body;
    assert line == NoteLine(note, utf8);
    assert line[1..] == body;
    if !utf8 {
      UnicodeRoundTrip(note, true);
    }
    StripNothing(line);
  }

  /** The comment lines of a list of notes: the first note's line, then the others'. */
  lemma NoteLinesCons(ns: seq<JString>, utf8: bool)
    requires ns != []
    ensures NoteLines(Some(ns), utf8) == [NoteLine(ns[0], utf8)] + NoteLines(Some(ns[1..]), utf8)
  {
  }

  /** Reading the first comment line of `ns` adds its note to the waiting ones. */
  lemma FirstNoteReadBack(ns: seq<JString>, rest: seq<JString>, st: ParseState, utf8: bool,
                          mode: MessagePatternEscape, pattern: JString -> PatternInfo)
    requires ns != [] && ReadableNote(ns[0], utf8)
    ensures ParsedLines(NoteLines(Some(ns), utf8) + rest, st, utf8, true, mode, pattern) ==
      ParsedLines(NoteLines(Some(ns[1..]), utf8) + rest, st.(currentNotes := st.currentNotes + [ns[0]]), utf8, true, mode, pattern)
  {
    var line := NoteLine(ns[0], utf8);
    var tail := NoteLines(Some(ns[1..]), utf8) + rest;
    var lines := NoteLines(Some(ns), utf8) + rest;
    NoteLinesCons(ns, utf8);
    AppendAssoc([line], NoteLines(Some(ns[1..]), utf8), rest);
    HeadTailAppend([line], tail);
    CommentReadBack(ns[0], utf8);
    ParsedComment(lines, st, utf8, true, mode, pattern);
  }

  /** The first comment line of `ns`, then the others: the notes are added in order. */
  lemma NotesStep(ns: seq<JString>, rest: seq<JString>, st: ParseState, utf8: bool,
                  mode: MessagePatternEscape, pattern: JString -> PatternInfo)
    requires ns != [] && ReadableNote(ns[0], utf8)
    requires ParsedLines(NoteLines(Some(ns[1..]), utf8) + rest, st.(currentNotes := st.currentNotes + [ns[0]]), utf8, true, mode, pattern) ==
      ParsedLines(rest, st.(currentNotes := st.currentNotes + [ns[0]] + ns[1..]), utf8, true, mode, pattern)
    ensures ParsedLines(NoteLines(Some(ns), utf8) + rest, st, utf8, true, mode, pattern) ==
      ParsedLines(rest, st.(currentNotes := st.currentNotes + ns), utf8, true, mode, pattern)
  {
    FirstNoteReadBack(ns, rest, st, utf8, mode, pattern);
    HeadThenTail(st.currentNotes, ns);
  }

  /** Reading the comment lines of `ns` adds them, in order, to the waiting notes. */
  lemma {:induction false} NotesReadBack(ns: seq<JString>, rest: seq<JString>, st: ParseState, utf8: bool,
                                         mode: MessagePatternEscape, pattern: JString -> PatternInfo)
    requires ReadableNotes(ns, utf8)
    ensures ParsedLines(NoteLines(Some(ns), utf8) + rest, st, utf8, true, mode, pattern) ==
      ParsedLines(rest, st.(currentNotes := st.currentNotes + ns), utf8, true, mode, pattern)
    decreases |ns|
  {
    if ns == [] {
      AppendEmpty(rest);
      AppendEmpty(st.currentNotes);
      assert st.(currentNotes := st.currentNotes + ns) == st;
    } else {
      NotesReadBack(ns[1..], rest, st.(currentNotes := st.currentNotes + [ns[0]]), utf8, mode, pattern);
      NotesStep(ns, rest, st, utf8, mode, pattern);
    }
  }

  /** The first line of an entry as `write` prints it, joined with its continuation lines, defines the entry. */
  lemma EntryLinesShape(key: JString, value: JString, rest: seq<JString>, utf8: bool,
                        mode: MessagePatternEscape, pattern: JString -> PatternInfo, segs: seq<JString>)
    requires key != [] && QuoteSafe(value, mode, pattern)
    requires IsSegmentation(segs, Converted(value, mode, pattern))
    ensures var L := EntryLines(key, Converted(value, mode, pattern), Equal, segs, utf8);
      var lines := L + rest;
      lines != [] && StripLeadingSpaces(lines[0]) != [] && !IsComment(StripLeadingSpaces(lines[0])) &&
      LogicalEntry(Joined(StripLeadingSpaces(lines[0]), lines[1..]).0, true, mode, pattern) == Ok((key, value)) &&
      1 + Joined(StripLeadingSpaces(lines[0]), lines[1..]).1 == |L|
  {
    var L := EntryLines(key, Converted(value, mode, pattern), Equal, segs, utf8);
    EntryLinesJoined(key, value, rest, utf8, mode, pattern, segs);
    HeadTailAppend(L, rest);
    var lines := L + rest;
    assert StripLeadingSpaces(lines[0]) == L[0];
    assert Joined(StripLeadingSpaces(lines[0]), lines[1..]) == Joined(L[0], L[1..] + rest);
  }

  /** The printed lines of an entry, followed by any others, join back into the entry's logical line. */
  lemma EntryLinesJoined(key: JString, value: JString, rest: seq<JString>, utf8: bool,
                         mode: MessagePatternEscape, pattern: JString -> PatternInfo, segs: seq<JString>)
    requires key != [] && QuoteSafe(value, mode, pattern)
    requires IsSegmentation(segs, Converted(value, mode, pattern))
    ensures var L := EntryLines(key, Converted(value, mode, pattern), Equal, segs, utf8);
      L != [] && L[0] != [] && StripLeadingSpaces(L[0]) == L[0] && !IsComment(L[0]) &&
      LogicalEntry(Joined(L[0], L[1..] + rest).0, true, mode, pattern) == Ok((key, value)) &&
      1 + Joined(L[0], L[1..] + rest).1 == |L|
  {
    var w := Converted(value, mode, pattern);
    var L := EntryLines(key, w, Equal, segs, utf8);
    EntryLinesLogical(key, value, utf8, mode, pattern, segs);
    PrintedEntryEnds(key, w, Equal, segs, utf8);
    if |L| > 1 {
      TailLast(L);
    }
    JoinedExtends(L[0], L[1..], rest);
  }

  /** The printed lines of an entry join into one logical line that defines the entry. */
  lemma EntryLinesLogical(key: JString, value: JString, utf8: bool,
                          mode: MessagePatternEscape, pattern: JString -> PatternInfo, segs: seq<JString>)
    requires key != [] && QuoteSafe(value, mode, pattern)
    requires IsSegmentation(segs, Converted(value, mode, pattern))
    ensures var L := EntryLines(key, Converted(value, mode, pattern), Equal, segs, utf8);
      L != [] && L[0] != [] && StripLeadingSpaces(L[0]) == L[0] && !IsComment(L[0]) &&
      LogicalEntry(Joined(L[0], L[1..]).0, true, mode, pattern) == Ok((key, value)) &&
      Joined(L[0], L[1..]).1 == |L| - 1
  {
    var w := Converted(value, mode, pattern);
    PrintedEntryReadsBack(key, w, Equal, segs, utf8);
    ConvertRoundTrip(value, mode, pattern);
  }

  /** The lines of an entry as `write` prints them read back as its key and its original value. */
  lemma EntryLinesReadBack(key: JString, value: JString, rest: seq<JString>, st: ParseState, utf8: bool,
                           mode: MessagePatternEscape, pattern: JString -> PatternInfo, segs: seq<JString>)
    requires key != [] && QuoteSafe(value, mode, pattern)
    requires IsSegmentation(segs, Converted(value, mode, pattern))
    ensures var L := EntryLines(key, Converted(value, mode, pattern), Equal, segs, utf8);
      ParsedLines(L + rest, st, utf8, true, mode, pattern) == ParsedLines(rest, PutProperty(st, key, value), utf8, true, mode, pattern)
  {
    var L := EntryLines(key, Converted(value, mode, pattern), Equal, segs, utf8);
    EntryLinesShape(key, value, rest, utf8, mode, pattern, segs);
    ParsedEntry(L + rest, st, utf8, true, mode, pattern, key, value);
    DropPrefix(L, rest);
  }

  /** The state after reading the lines of one written string. */
  function NextState(st: ParseState, r: ResourceString): (res: ParseState) {
    PutProperty(st.(currentNotes := st.currentNotes + r.notes.GetOr([])), r.key, r.value)
  }

  /** The lines of one written string read back as its notes, then its entry. */
  lemma EntryReadBack(r: ResourceString, rest: seq<JString>, st: ParseState, utf8: bool, mode: MessagePatternEscape,
                      pattern: JString -> PatternInfo, segmenter: JString -> seq<JString>)
    requires IsSegmenter(segmenter) && Writable(r, utf8, mode, pattern)
    ensures ParsedLines(EntryText(r, utf8, mode, pattern, segmenter) + rest, st, utf8, true, mode, pattern) ==
      ParsedLines(rest, NextState(st, r), utf8, true, mode, pattern)
  {
    var d := EntryDef(r, mode, pattern);
    var segs := segmenter(d.value);
    var ns := r.notes.GetOr([]);
    var L := EntryLines(d.key, d.value, d.separator, segs, utf8);
    assert NoteLines(r.notes, utf8) == NoteLines(Some(ns), utf8);
    AppendAssoc(NoteLines(Some(ns), utf8), L, rest);
    NotesReadBack(ns, L + rest, st, utf8, mode, pattern);
    EntryLinesReadBack(r.key, r.value, rest, st.(currentNotes := st.currentNotes + ns), utf8, mode, pattern, segs);
  }

  // ---------------------------------------------------------------------
  // The entries

  /** The keys read so far are those of the first `k` written strings, in order. */
  predicate KeysRead(rs: seq<ResourceString>, k: nat, st: ParseState) {
    k <= |rs| && |st.order| == k && (forall i | 0 <= i < k :: st.order[i] == rs[i].key)
  }

  /** Each of the first `k` written strings has its value. */
  predicate ValuesRead(rs: seq<ResourceString>, k: nat, st: ParseState) {
    k <= |rs| && forall i | 0 <= i < k :: rs[i].key in st.props && st.props[rs[i].key] == rs[i].value
  }

  /** Each of the first `k` written strings has its expected notes, and only read keys have notes. */
  predicate NotesRead(rs: seq<ResourceString>, k: nat, st: ParseState, stamp: JString) {
    k <= |rs| && (forall i | 0 <= i < k :: NotesOf(st, rs[i].key) == ExpectedNotes(rs, i, stamp)) &&
    (forall key | key in st.notesMap :: key in st.props)
  }

  /**
    After the first `k` written strings: their keys in order, each with its
    value and its expected notes, no note waiting except the time stamp
    before the first string, and the global notes untouched.
   */
  predicate ReadInv(rs: seq<ResourceString>, k: nat, st: ParseState, stamp: JString, g: Option<seq<JString>>, avail: bool) {
    WellFormed(st) && KeysRead(rs, k, st) && ValuesRead(rs, k, st) && NotesRead(rs, k, st, stamp) &&
    st.currentNotes == (if k == 0 then [stamp] else []) &&
    st.globalNotes == g && st.globalNotesAvailable == avail
  }

  /** Storing a new key adds it to the notes map exactly when notes are waiting. */
  lemma NotesOfPut(st: ParseState, key: JString, value: JString, other: JString)
    ensures NotesOf(PutProperty(st, key, value), other) ==
      if other == key && st.currentNotes != [] then Some(st.currentNotes) else NotesOf(st, other)
  {
  }

  /** A string whose key is not read yet is stored after the others. */
  lemma NextKeysRead(rs: seq<ResourceString>, k: nat, st: ParseState, st0: ParseState)
    requires KeysRead(rs, k, st) && k < |rs| && WellFormed(st0) && st0.order == st.order && st0.props == st.props
    requires rs[k].key !in st.props
    ensures KeysRead(rs, k + 1, PutProperty(st0, rs[k].key, rs[k].value))
    ensures WellFormed(PutProperty(st0, rs[k].key, rs[k].value))
  {
    PutPropertyKeeps(st0, rs[k].key, rs[k].value);
  }

  /** Storing a new key keeps the values of the others. */
  lemma NextValuesRead(rs: seq<ResourceString>, k: nat, st: ParseState, st0: ParseState)
    requires ValuesRead(rs, k, st) && k < |rs| && DistinctKeys(rs) && st0.props == st.props
    ensures ValuesRead(rs, k + 1, PutProperty(st0, rs[k].key, rs[k].value))
  {
    var st' := PutProperty(st0, rs[k].key, rs[k].value);
    forall i | 0 <= i < k + 1
      ensures rs[i].key in st'.props && st'.props[rs[i].key] == rs[i].value
    {
      if i < k {
        assert rs[i].key != rs[k].key;
      }
    }
  }

  /** Storing a new key with the waiting notes gives it its expected notes and keeps the others'. */
  lemma NextNotesRead(rs: seq<ResourceString>, k: nat, st: ParseState, stamp: JString, st0: ParseState)
    requires NotesRead(rs, k, st, stamp) && k < |rs| && DistinctKeys(rs)
    requires st0.notesMap == st.notesMap && st0.props == st.props
    requires st0.currentNotes == (if k == 0 then [stamp] else []) + rs[k].notes.GetOr([])
    requires rs[k].key !in st.props
    ensures NotesRead(rs, k + 1, PutProperty(st0, rs[k].key, rs[k].value), stamp)
  {
    var st' := PutProperty(st0, rs[k].key, rs[k].value);
    forall i | 0 <= i < k + 1
      ensures NotesOf(st', rs[i].key) == ExpectedNotes(rs, i, stamp)
    {
      NotesOfPut(st0, rs[k].key, rs[k].value, rs[i].key);
      if i < k {
        assert rs[i].key != rs[k].key;
      }
    }
  }

  /** The next written string's key is not read yet. */
  lemma NextKeyNew(rs: seq<ResourceString>, k: nat, st: ParseState)
    requires WellFormed(st) && KeysRead(rs, k, st) && k < |rs| && DistinctKeys(rs)
    ensures rs[k].key !in st.props
  {
    forall i | 0 <= i < |st.order|
      ensures st.order[i] != rs[k].key
    {
      assert st.order[i] == rs[i].key;
    }
  }

  /** Reading one more string keeps the invariant. */
  lemma NextStateInv(rs: seq<ResourceString>, k: nat, st: ParseState, stamp: JString, g: Option<seq<JString>>, avail: bool)
    requires ReadInv(rs, k, st, stamp, g, avail) && k < |rs| && DistinctKeys(rs)
    ensures ReadInv(rs, k + 1, NextState(st, rs[k]), stamp, g, avail)
  {
    var r := rs[k];
    var st0 := st.(currentNotes := st.currentNotes + r.notes.GetOr([]));
    NextKeyNew(rs, k, st);
    NextKeysRead(rs, k, st, st0);
    NextValuesRead(rs, k, st, st0);
    NextNotesRead(rs, k, st, stamp, st0);
  }

  /** The state after reading the written strings from the `k`-th on. */
  function FinalState(rs: seq<ResourceString>, k: nat, st: ParseState): (r: ParseState)
    requires k <= |rs|
    decreases |rs| - k
  {
    if k == |rs| then st else FinalState(rs, k + 1, NextState(st, rs[k]))
  }

  /** Reading the written strings from the `k`-th on keeps the invariant to the end. */
  lemma {:induction false} FinalStateInv(rs: seq<ResourceString>, k: nat, st: ParseState, stamp: JString, g: Option<seq<JString>>,
                                         avail: bool)
    requires DistinctKeys(rs) && ReadInv(rs, k, st, stamp, g, avail)
    ensures ReadInv(rs, |rs|, FinalState(rs, k, st), stamp, g, avail)
    decreases |rs| - k
  {
    FinalStateUnfold(rs, k, st);
    if k < |rs| {
      NextStateInv(rs, k, st, stamp, g, avail);
      FinalStateInv(rs, k + 1, NextState(st, rs[k]), stamp, g, avail);
    }
  }

  lemma FinalStateUnfold(rs: seq<ResourceString>, k: nat, st: ParseState)
    requires k <= |rs|
    ensures k == |rs| ==> FinalState(rs, k, st) == st
    ensures k < |rs| ==> FinalState(rs, k, st) == FinalState(rs, k + 1, NextState(st, rs[k]))
  {
  }

  /** From the state after the header, the invariant holds to the end; its strings are the ones expected. */
  lemma FinalStateReadBack(rs: seq<ResourceString>, notes: seq<JString>, stamp: JString)
    requires DistinctKeys(rs)
    ensures WellFormed(FinalState(rs, 0, AfterHeader(notes, stamp)))
    ensures BundleStrings(FinalState(rs, 0, AfterHeader(notes, stamp))) == ReadBack(rs, stamp)
    ensures FinalState(rs, 0, AfterHeader(notes, stamp)).globalNotes.GetOr([]) == notes
  {
    var g := if notes == [] then None else Some(notes);
    var st0 := AfterHeader(notes, stamp);
    assert ReadInv(rs, 0, st0, stamp, g, notes == []);
    FinalStateInv(rs, 0, st0, stamp, g, notes == []);
    ReadInvStrings(rs, FinalState(rs, 0, st0), stamp, g, notes == []);
  }

  /** The lines of each written string, one list per string. */
  function EntryTexts(rs: seq<ResourceString>, utf8: bool, mode: MessagePatternEscape, pattern: JString -> PatternInfo,
                      segmenter: JString -> seq<JString>): (t: seq<seq<JString>>)
    requires IsSegmenter(segmenter)
    ensures |t| == |rs|
  {
    if rs == [] then [] else [EntryText(rs[0], utf8, mode, pattern, segmenter)] + EntryTexts(rs[1..], utf8, mode, pattern, segmenter)
  }

  /** The lines of all written strings are those of each string, one after the other. */
  lemma {:induction false} EntriesTextFlat(rs: seq<ResourceString>, utf8: bool, mode: MessagePatternEscape,
                                           pattern: JString -> PatternInfo, segmenter: JString -> seq<JString>)
    requires IsSegmenter(segmenter)
    ensures EntriesText(rs, utf8, mode, pattern, segmenter) == Flatten(EntryTexts(rs, utf8, mode, pattern, segmenter))
  {
    if rs != [] {
      EntriesTextFlat(rs[1..], utf8, mode, pattern, segmenter);
      ConsParts(EntryText(rs[0], utf8, mode, pattern, segmenter), EntryTexts(rs[1..], utf8, mode, pattern, segmenter));
    }
  }

  /** The `i`-th list of lines is the `i`-th string's. */
  lemma {:induction false} EntryTextsAt(rs: seq<ResourceString>, i: nat, utf8: bool, mode: MessagePatternEscape,
                                        pattern: JString -> PatternInfo, segmenter: JString -> seq<JString>)
    requires IsSegmenter(segmenter) && i < |rs|
    ensures EntryTexts(rs, utf8, mode, pattern, segmenter)[i] == EntryText(rs[i], utf8, mode, pattern, segmenter)
  {
    var head := EntryText(rs[0], utf8, mode, pattern, segmenter);
    var tail := EntryTexts(rs[1..], utf8, mode, pattern, segmenter);
    assert EntryTexts(rs, utf8, mode, pattern, segmenter) == [head] + tail;
    ConsParts(head, tail);
    if i > 0 {
      EntryTextsAt(rs[1..], i - 1, utf8, mode, pattern, segmenter);
      assert rs[1..][i - 1] == rs[i];
    }
  }

  /** Each list of lines in `text` reads back as its string, whatever follows it and whatever the state. */
  ghost predicate ReadsAsEach(rs: seq<ResourceString>, text: seq<seq<JString>>, utf8: bool, mode: MessagePatternEscape,
                              pattern: JString -> PatternInfo) {
    |text| == |rs| &&
    forall i, rest, s | 0 <= i < |rs| ::
      ParsedLines(text[i] + rest, s, utf8, true, mode, pattern) == ParsedLines(rest, NextState(s, rs[i]), utf8, true, mode, pattern)
  }

  /** The lines `write` prints for each string read back as that string. */
  lemma EntryTextsReadBack(rs: seq<ResourceString>, utf8: bool, mode: MessagePatternEscape, pattern: JString -> PatternInfo,
                           segmenter: JString -> seq<JString>)
    requires IsSegmenter(segmenter)
    requires forall i | 0 <= i < |rs| :: Writable(rs[i], utf8, mode, pattern)
    ensures ReadsAsEach(rs, EntryTexts(rs, utf8, mode, pattern, segmenter), utf8, mode, pattern)
  {
    var text := EntryTexts(rs, utf8, mode, pattern, segmenter);
    forall i, rest, s | 0 <= i < |rs|
      ensures ParsedLines(text[i] + rest, s, utf8, true, mode, pattern) == ParsedLines(rest, NextState(s, rs[i]), utf8, true, mode, pattern)
    {
      EntryTextsAt(rs, i, utf8, mode, pattern, segmenter);
      EntryReadBack(rs[i], rest, s, utf8, mode, pattern, segmenter);
    }
  }

  /** The lines of the strings from the `k`-th on read back one string after the other. */
  lemma {:induction false} EntriesReadBack(rs: seq<ResourceString>, k: nat, st: ParseState, utf8: bool, mode: MessagePatternEscape,
                                           pattern: JString -> PatternInfo, text: seq<seq<JString>>)
    requires k <= |rs| && ReadsAsEach(rs, text, utf8, mode, pattern)
    ensures ParsedLines(Flatten(text[k..]), st, utf8, true, mode, pattern) == Ok(FinalState(rs, k, st))
    decreases |rs| - k
  {
    if k < |rs| {
      EntriesReadBack(rs, k + 1, NextState(st, rs[k]), utf8, mode, pattern, text);
      SuffixHead(text, k);
    } else {
      assert text[k..] == [];
    }
  }

  // ---------------------------------------------------------------------
  // The header

  /** The state after the header: the time stamp waits as a note, and the bundle's notes, if any, are global. */
  function AfterHeader(notes: seq<JString>, stamp: JString): (r: ParseState) {
    ParseState([], map[], map[], [stamp], notes == [], if notes == [] then None else Some(notes))
  }

  /** A blank line after the leading comments makes them the global notes. */
  lemma BlankAfterNotes(lines: seq<JString>, notes: seq<JString>, utf8: bool, mode: MessagePatternEscape,
                        pattern: JString -> PatternInfo)
    requires lines != [] && lines[0] == [] && notes != []
    ensures ParsedLines(lines, START.(currentNotes := notes), utf8, true, mode, pattern) ==
      ParsedLines(lines[1..], ParseState([], map[], map[], [], false, Some(notes)), utf8, true, mode, pattern)
  {
    StripNothing(lines[0]);
    BlankAfterNotesState(notes);
    ParsedBlank(lines, START.(currentNotes := notes), utf8, true, mode, pattern);
  }

  lemma BlankAfterNotesState(notes: seq<JString>)
    requires notes != []
    ensures BlankLine(START.(currentNotes := notes)) == ParseState([], map[], map[], [], false, Some(notes))
  {
  }

  lemma StampState(notes: seq<JString>, stamp: JString)
    ensures var st1 := ParseState([], map[], map[], [], notes == [], if notes == [] then None else Some(notes));
      st1.(currentNotes := st1.currentNotes + [stamp]) == AfterHeader(notes, stamp) &&
      (notes == [] ==> START.(currentNotes := notes) == st1)
  {
  }

  /** The header `write` prints reads back as the global notes and the time stamp waiting as a note. */
  lemma HeaderReadBack(notes: seq<JString>, stamp: JString, rest: seq<JString>, utf8: bool, mode: MessagePatternEscape,
                       pattern: JString -> PatternInfo)
    requires ReadableNotes(notes, utf8) && ReadableNote(stamp, utf8)
    ensures ParsedLines(HeaderLines(notes, stamp, utf8) + rest, START, utf8, true, mode, pattern) ==
      ParsedLines(rest, AfterHeader(notes, stamp), utf8, true, mode, pattern)
  {
    var stampLine := [HASH] + stamp;
    assert stampLine == NoteLine(stamp, true);
    CommentReadBack(stamp, true);
    var afterStamp := [stampLine] + rest;
    HeadTailAppend([stampLine], rest);
    var blank: seq<JString> := if notes != [] then [[]] else [];
    AppendAssoc(NoteLines(Some(notes), utf8), blank, [stampLine]);
    AppendAssoc(NoteLines(Some(notes), utf8), blank + [stampLine], rest);
    AppendAssoc(blank, [stampLine], rest);
    NotesReadBack(notes, blank + afterStamp, START, utf8, mode, pattern);
    AppendEmpty(notes);
    var st1 := ParseState([], map[], map[], [], notes == [], if notes == [] then None else Some(notes));
    if notes != [] {
      BlankAfterNotes(blank + afterStamp, notes, utf8, mode, pattern);
      HeadTailAppend(blank, afterStamp);
    } else {
      AppendEmpty(afterStamp);
    }
    StampState(notes, stamp);
    assert NoteText(stampLine, utf8, true) == Ok(stamp) by {
      if !utf8 {
        PlainCommentUnchanged(stamp);
      }
    }
    ParsedComment(afterStamp, st1, utf8, true, mode, pattern);
  }

  // ---------------------------------------------------------------------
  // The round trip

  /** A string found once in a list is found at no later position. */
  lemma OnceOnly(rs: seq<ResourceString>, i: nat, j: nat)
    requires i < j < |rs| && multiset(rs)[rs[i]] == 1
    ensures rs[i] != rs[j]
  {
    assert rs == rs[..j] + [rs[j]] + rs[j + 1..];
    assert rs[..j][i] == rs[i];
    assert multiset(rs) == multiset(rs[..j]) + multiset{rs[j]} + multiset(rs[j + 1..]);
  }

  /** A list with unique keys has its keys at distinct positions. */
  lemma UniqueKeysDistinct(rs: seq<ResourceString>)
    requires UniqueKeys(rs)
    ensures DistinctKeys(rs)
  {
    forall i, j | 0 <= i < j < |rs|
      ensures rs[i].key != rs[j].key
    {
      assert rs[i] in multiset(rs);
      OnceOnly(rs, i, j);
    }
  }

  /** The sorted copy keeps unique keys and what each string satisfies. */
  lemma SortedCopyKeeps(strings: seq<ResourceString>, utf8: bool, mode: MessagePatternEscape, pattern: JString -> PatternInfo)
    requires UniqueKeys(strings) && forall r | r in strings :: Writable(r, utf8, mode, pattern)
    ensures var rs := SortedCopy(strings);
      DistinctKeys(rs) && forall i | 0 <= i < |rs| :: Writable(rs[i], utf8, mode, pattern)
  {
    var rs := SortedCopy(strings);
    SortedCopySorted(strings);
    assert forall r :: r in rs <==> r in strings by {
      forall r
        ensures r in rs <==> r in strings
      {
        assert r in rs <==> r in multiset(rs);
        assert r in strings <==> r in multiset(strings);
      }
    }
    UniqueKeysDistinct(rs);
    forall i | 0 <= i < |rs|
      ensures Writable(rs[i], utf8, mode, pattern)
    {
      assert rs[i] in rs;
    }
  }

  /** The strings a reader finds once every written string is read. */
  lemma ReadInvStrings(rs: seq<ResourceString>, st: ParseState, stamp: JString, g: Option<seq<JString>>, avail: bool)
    requires ReadInv(rs, |rs|, st, stamp, g, avail)
    ensures BundleStrings(st) == ReadBack(rs, stamp)
  {
    forall i | 0 <= i < |rs|
      ensures BundleStrings(st)[i] == ReadBack(rs, stamp)[i]
    {
      assert BundleStrings(st)[i] == StringAt(st, i);
    }
  }

  /** The lines `write` prints read back to the state after the last string. */
  lemma WrittenLinesReadBack(strings: seq<ResourceString>, notes: seq<JString>, stamp: JString, utf8: bool,
                             mode: MessagePatternEscape, pattern: JString -> PatternInfo, segmenter: JString -> seq<JString>)
    requires IsSegmenter(segmenter)
    requires forall i | 0 <= i < |SortedCopy(strings)| :: Writable(SortedCopy(strings)[i], utf8, mode, pattern)
    requires ReadableNotes(notes, utf8) && ReadableNote(stamp, utf8)
    ensures ParsedLines(WrittenLines(strings, notes, stamp, utf8, mode, pattern, segmenter), START, utf8, true, mode, pattern) ==
      Ok(FinalState(SortedCopy(strings), 0, AfterHeader(notes, stamp)))
  {
    var rs := SortedCopy(strings);
    var entries := EntriesText(rs, utf8, mode, pattern, segmenter);
    HeaderReadBack(notes, stamp, entries, utf8, mode, pattern);
    EntryTextsReadBack(rs, utf8, mode, pattern, segmenter);
    EntriesTextFlat(rs, utf8, mode, pattern, segmenter);
    var text := EntryTexts(rs, utf8, mode, pattern, segmenter);
    DropPrefix([], text);
    AppendEmpty(text);
    EntriesReadBack(rs, 0, AfterHeader(notes, stamp), utf8, mode, pattern, text);
  }

  /**
    `parse` after `write`: the strings come back sorted and numbered from
    one, with their keys and values; the bundle's notes come back as they
    were; the time stamp joins the first string's notes.
   */
  lemma WriteThenParse(strings: seq<ResourceString>, notes: seq<JString>, stamp: JString, utf8: bool,
                       mode: MessagePatternEscape, pattern: JString -> PatternInfo, segmenter: JString -> seq<JString>)
    requires IsSegmenter(segmenter)
    requires UniqueKeys(strings) && forall r | r in strings :: Writable(r, utf8, mode, pattern)
    requires ReadableNotes(notes, utf8) && ReadableNote(stamp, utf8)
    ensures ParsedBundle(WrittenLines(strings, notes, stamp, utf8, mode, pattern, segmenter), utf8, true, mode, pattern) ==
      Ok(BundleContents(ReadBack(SortedCopy(strings), stamp), notes))
  {
    var rs := SortedCopy(strings);
    SortedCopyKeeps(strings, utf8, mode, pattern);
    WrittenLinesReadBack(strings, notes, stamp, utf8, mode, pattern, segmenter);
    FinalStateReadBack(rs, notes, stamp);
  }
}
