/**
  `JavaPropertiesResource.parse`: the lines of a `.properties` file to a
  language bundle. Comment lines collect notes for the next entry, the
  first blank line after leading comments turns them into the bundle's
  notes, and every other line starts a logical line that continuation lines
  extend; its entry is recorded with the doubled quotes of a message
  pattern undone. The entries are numbered in the order of their keys'
  first appearance.

  The file arrives as its lines (the reader is not part of this model);
  `new MessagePattern(value)` is the function `pattern`. With `corrected`
  false every line goes through `PropDef.parseLine` and comment decoding as
  written; with `corrected` true through their corrected readings.
 */
module PropertiesParse {
  import opened Wrappers
  import opened JavaText
  import opened PropertiesEscape
  import opened PropertiesQuotes
  import opened PropertiesLines
  import opened ResourceStrings
  import opened LanguageBundles
  import opened LanguageBundleBuilders

  /**
    What `parse` keeps while it reads: the `LinkedProperties` (keys in the
    order of their first `put`, and their values), the notes map, the notes
    waiting for an entry, and the global-notes state.
   */
  datatype ParseState = ParseState(
    order: seq<JString>,
    props: map<JString, JString>,
    notesMap: map<JString, seq<JString>>,
    currentNotes: seq<JString>,
    globalNotesAvailable: bool,
    globalNotes: Option<seq<JString>>)

  const START: ParseState := ParseState([], map[], map[], [], true, None)

  /** The ordered keys are distinct and are exactly the keys with a value. */
  predicate WellFormed(st: ParseState) {
    (forall i, j | 0 <= i < j < |st.order| :: st.order[i] != st.order[j]) &&
    (forall k | k in st.props :: k in st.order) &&
    (forall i | 0 <= i < |st.order| :: st.order[i] in st.props)
  }

  /** A line, once stripped of leading white space, is a comment when it starts with `#` or `!`. */
  predicate IsComment(line: JString) {
    line != [] && (line[0] == HASH || line[0] == BANG)
  }

  /**
    The note a comment line gives: its text after the marker, with `\uXXXX`
    decoded unless the file is UTF-8. As written the decoder fails on a
    `\u` with exactly three code units after it at the end of the line.
   */
  function NoteText(line: JString, utf8: bool, corrected: bool): (r: Result<JString>)
    requires line != []
    ensures utf8 || corrected ==> r.Ok?
    ensures utf8 ==> r == Ok(line[1..])
  {
    if utf8 then Ok(line[1..])
    else
      UnicodeUnescapeTotal(line[1..]);
      UnicodeUnescaped(line[1..], corrected)
  }

  /** A blank line: it ends the global comment if that is still possible and there is one, else it is an empty note. */
  function BlankLine(st: ParseState): (r: ParseState)
    ensures !r.globalNotesAvailable && r.order == st.order && r.props == st.props && r.notesMap == st.notesMap
  {
    var st' :=
      if st.globalNotesAvailable && st.currentNotes != [] then st.(globalNotes := Some(st.currentNotes), currentNotes := [])
      else st.(currentNotes := st.currentNotes + [[]]);
    st'.(globalNotesAvailable := false)
  }

  /** `props.setProperty(key, value)`, then the waiting notes, if any, are attached to `key`. */
  function PutProperty(st: ParseState, key: JString, value: JString): (r: ParseState)
    ensures r.props == st.props[key := value] && r.currentNotes == []
    ensures r.globalNotesAvailable == st.globalNotesAvailable && r.globalNotes == st.globalNotes
  {
    var st1 := st.(order := if key in st.props then st.order else st.order + [key], props := st.props[key := value]);
    if st.currentNotes != [] then st1.(notesMap := st.notesMap[key := st.currentNotes], currentNotes := []) else st1
  }

  lemma PutPropertyKeeps(st: ParseState, key: JString, value: JString)
    requires WellFormed(st)
    ensures WellFormed(PutProperty(st, key, value))
    ensures key in PutProperty(st, key, value).order
    ensures key !in st.props ==> PutProperty(st, key, value).order == st.order + [key]
    ensures key in st.props ==> PutProperty(st, key, value).order == st.order
  {
    var r := PutProperty(st, key, value);
    if key !in st.props {
      assert r.order == st.order + [key];
      assert forall i | 0 <= i < |st.order| :: r.order[i] == st.order[i];
      assert r.order[|st.order|] == key;
    }
  }

  /** The entry a logical line defines, with the doubled quotes of a message pattern undone; no entry is an error. */
  function LogicalEntry(logical: JString, corrected: bool, mode: MessagePatternEscape, pattern: JString -> PatternInfo): (r: Result<(JString, JString)>) {
    var pd :- ParseLineAs(logical, corrected);
    if pd.None? then Err(NullPointerException)
    else Ok((pd.value.key, DoubleSingleQuoteConverted(pd.value.value, mode, pattern(pd.value.value))))
  }

  /** What one round of the loop does: it throws, or it reads `count` lines and leaves the state `next`. */
  datatype Round = Failed(thrown: Exception) | Read(count: nat, next: ParseState)

  /**
    One round of the loop of `parse`: the line is stripped of leading white
    space; a comment adds a note, a blank line is handled by `BlankLine`,
    and any other line, with the continuation lines it takes in, defines an
    entry. The result is how many lines were read and the new state.
   */
  function Step(lines: seq<JString>, st: ParseState, utf8: bool, corrected: bool, mode: MessagePatternEscape, pattern: JString -> PatternInfo)
    : (r: Round)
    requires lines != []
    ensures r.Read? ==> 1 <= r.count <= |lines|
  {
    var line := StripLeadingSpaces(lines[0]);
    if IsComment(line) then
      match NoteText(line, utf8, corrected)
      case Err(e) => Failed(e)
      case Ok(note) => Read(1, st.(currentNotes := st.currentNotes + [note]))
    else if line == [] then Read(1, BlankLine(st))
    else EntryRound(line, lines[1..], st, corrected, mode, pattern)
  }

  /**
    The round for a line that defines an entry: the line takes in its
    continuation lines from `next`, and the entry they define is put.
   */
  function EntryRound(line: JString, next: seq<JString>, st: ParseState, corrected: bool, mode: MessagePatternEscape,
                      pattern: JString -> PatternInfo): (r: Round)
    ensures r.Read? ==> 1 <= r.count <= |next| + 1
  {
    var joined := Joined(line, next);
    EntryPut(joined.0, joined.1, st, corrected, mode, pattern)
  }

  /** The entry of a logical line made of `1 + consumed` lines is put, or the round throws. */
  function EntryPut(logical: JString, consumed: nat, st: ParseState, corrected: bool, mode: MessagePatternEscape,
                    pattern: JString -> PatternInfo): (r: Round)
    ensures r.Read? ==> r.count == 1 + consumed
  {
    var entry := LogicalEntry(logical, corrected, mode, pattern);
    if entry.Err? then Failed(entry.thrown)
    else Read(1 + consumed, PutProperty(st, entry.value.0, entry.value.1))
  }

  /** A round keeps the keys distinct and in step with the values. */
  lemma StepWellFormed(lines: seq<JString>, st: ParseState, utf8: bool, corrected: bool, mode: MessagePatternEscape, pattern: JString -> PatternInfo)
    requires lines != [] && WellFormed(st)
    ensures Step(lines, st, utf8, corrected, mode, pattern).Read? ==> WellFormed(Step(lines, st, utf8, corrected, mode, pattern).next)
  {
    var line := StripLeadingSpaces(lines[0]);
    if !IsComment(line) && line != [] {
      var joined := Joined(line, lines[1..]);
      var entry := LogicalEntry(joined.0, corrected, mode, pattern);
      if entry.Ok? {
        PutPropertyKeeps(st, entry.value.0, entry.value.1);
      }
    }
  }

  /** The loop of `parse` over the remaining lines. */
  function ParsedLines(lines: seq<JString>, st: ParseState, utf8: bool, corrected: bool, mode: MessagePatternEscape, pattern: JString -> PatternInfo)
    : Result<ParseState>
    decreases |lines|
  {
    if lines == [] then Ok(st)
    else
      match Step(lines, st, utf8, corrected, mode, pattern)
      case Failed(e) => Err(e)
      case Read(n, next) => ParsedLines(lines[n..], next, utf8, corrected, mode, pattern)
  }

  /** The loop keeps the keys distinct and in step with the values. */
  lemma {:induction false} ParsedLinesWellFormed(lines: seq<JString>, st: ParseState, utf8: bool, corrected: bool, mode: MessagePatternEscape,
                                                 pattern: JString -> PatternInfo)
    requires WellFormed(st)
    ensures ParsedLines(lines, st, utf8, corrected, mode, pattern).Ok? ==> WellFormed(ParsedLines(lines, st, utf8, corrected, mode, pattern).value)
    decreases |lines|
  {
    if lines != [] {
      var next := Step(lines, st, utf8, corrected, mode, pattern);
      if next.Read? {
        StepWellFormed(lines, st, utf8, corrected, mode, pattern);
        ParsedLinesWellFormed(lines[next.count..], next.next, utf8, corrected, mode, pattern);
      }
    }
  }

  /** A line that defines an entry: the loop goes on after its continuation lines with the entry put. */
  lemma ParsedEntry(lines: seq<JString>, st: ParseState, utf8: bool, corrected: bool, mode: MessagePatternEscape, pattern: JString -> PatternInfo,
                    key: JString, value: JString)
    requires lines != [] && StripLeadingSpaces(lines[0]) != [] && !IsComment(StripLeadingSpaces(lines[0]))
    requires LogicalEntry(Joined(StripLeadingSpaces(lines[0]), lines[1..]).0, corrected, mode, pattern) == Ok((key, value))
    ensures var n := 1 + Joined(StripLeadingSpaces(lines[0]), lines[1..]).1;
      n <= |lines| &&
      ParsedLines(lines, st, utf8, corrected, mode, pattern) == ParsedLines(lines[n..], PutProperty(st, key, value), utf8, corrected, mode, pattern)
  {
    StepEntryFields(lines, st, utf8, corrected, mode, pattern, key, value);
    ParsedAfterRead(lines, st, utf8, corrected, mode, pattern, 1 + Joined(StripLeadingSpaces(lines[0]), lines[1..]).1, PutProperty(st, key, value));
  }

  /** The round of a line that defines an entry reads it with its continuation lines and puts the entry. */
  lemma StepEntryFields(lines: seq<JString>, st: ParseState, utf8: bool, corrected: bool, mode: MessagePatternEscape, pattern: JString -> PatternInfo,
                        key: JString, value: JString)
    requires lines != [] && StripLeadingSpaces(lines[0]) != [] && !IsComment(StripLeadingSpaces(lines[0]))
    requires LogicalEntry(Joined(StripLeadingSpaces(lines[0]), lines[1..]).0, corrected, mode, pattern) == Ok((key, value))
    ensures Step(lines, st, utf8, corrected, mode, pattern).Read?
    ensures Step(lines, st, utf8, corrected, mode, pattern).count == 1 + Joined(StripLeadingSpaces(lines[0]), lines[1..]).1
    ensures Step(lines, st, utf8, corrected, mode, pattern).next == PutProperty(st, key, value)
  {
    var joined := Joined(StripLeadingSpaces(lines[0]), lines[1..]);
    StepIsEntry(lines, st, utf8, corrected, mode, pattern);
    EntryPutOk(joined.0, joined.1, st, corrected, mode, pattern, key, value);
  }

  /** A comment line adds its note to the waiting ones. */
  lemma StepComment(lines: seq<JString>, st: ParseState, utf8: bool, corrected: bool, mode: MessagePatternEscape, pattern: JString -> PatternInfo)
    requires lines != [] && IsComment(StripLeadingSpaces(lines[0]))
    requires NoteText(StripLeadingSpaces(lines[0]), utf8, corrected).Ok?
    ensures Step(lines, st, utf8, corrected, mode, pattern).Read? && Step(lines, st, utf8, corrected, mode, pattern).count == 1
    ensures Step(lines, st, utf8, corrected, mode, pattern).next ==
      st.(currentNotes := st.currentNotes + [NoteText(StripLeadingSpaces(lines[0]), utf8, corrected).value])
  {
  }

  /** A comment line: the loop goes on with its note added to the waiting ones. */
  lemma ParsedComment(lines: seq<JString>, st: ParseState, utf8: bool, corrected: bool, mode: MessagePatternEscape, pattern: JString -> PatternInfo)
    requires lines != [] && IsComment(StripLeadingSpaces(lines[0]))
    requires NoteText(StripLeadingSpaces(lines[0]), utf8, corrected).Ok?
    ensures ParsedLines(lines, st, utf8, corrected, mode, pattern) ==
      ParsedLines(lines[1..], st.(currentNotes := st.currentNotes + [NoteText(StripLeadingSpaces(lines[0]), utf8, corrected).value]),
                  utf8, corrected, mode, pattern)
  {
    StepComment(lines, st, utf8, corrected, mode, pattern);
    ParsedAfterRead(lines, st, utf8, corrected, mode, pattern, 1,
                    st.(currentNotes := st.currentNotes + [NoteText(StripLeadingSpaces(lines[0]), utf8, corrected).value]));
  }

  /** A blank line is handled by `BlankLine`. */
  lemma StepBlank(lines: seq<JString>, st: ParseState, utf8: bool, corrected: bool, mode: MessagePatternEscape, pattern: JString -> PatternInfo)
    requires lines != [] && StripLeadingSpaces(lines[0]) == []
    ensures Step(lines, st, utf8, corrected, mode, pattern).Read? && Step(lines, st, utf8, corrected, mode, pattern).count == 1
    ensures Step(lines, st, utf8, corrected, mode, pattern).next == BlankLine(st)
  {
  }

  /** A blank line: the loop goes on from the state `BlankLine` leaves. */
  lemma ParsedBlank(lines: seq<JString>, st: ParseState, utf8: bool, corrected: bool, mode: MessagePatternEscape, pattern: JString -> PatternInfo)
    requires lines != [] && StripLeadingSpaces(lines[0]) == []
    ensures ParsedLines(lines, st, utf8, corrected, mode, pattern) == ParsedLines(lines[1..], BlankLine(st), utf8, corrected, mode, pattern)
  {
    StepBlank(lines, st, utf8, corrected, mode, pattern);
    ParsedAfterRead(lines, st, utf8, corrected, mode, pattern, 1, BlankLine(st));
  }

  /** A line that is neither a comment nor blank starts an entry round. */
  lemma StepIsEntry(lines: seq<JString>, st: ParseState, utf8: bool, corrected: bool, mode: MessagePatternEscape, pattern: JString -> PatternInfo)
    requires lines != [] && StripLeadingSpaces(lines[0]) != [] && !IsComment(StripLeadingSpaces(lines[0]))
    ensures Step(lines, st, utf8, corrected, mode, pattern) == EntryRound(StripLeadingSpaces(lines[0]), lines[1..], st, corrected, mode, pattern)
  {
  }

  /** A logical line that defines an entry puts it. */
  lemma EntryPutOk(logical: JString, consumed: nat, st: ParseState, corrected: bool, mode: MessagePatternEscape, pattern: JString -> PatternInfo,
                   key: JString, value: JString)
    requires LogicalEntry(logical, corrected, mode, pattern) == Ok((key, value))
    ensures EntryPut(logical, consumed, st, corrected, mode, pattern).Read?
    ensures EntryPut(logical, consumed, st, corrected, mode, pattern).count == 1 + consumed
    ensures EntryPut(logical, consumed, st, corrected, mode, pattern).next == PutProperty(st, key, value)
  {
  }

  /** After a round that read `n` lines and left `next`, the loop goes on from there. */
  lemma ParsedAfterRead(lines: seq<JString>, st: ParseState, utf8: bool, corrected: bool, mode: MessagePatternEscape, pattern: JString -> PatternInfo,
                        n: nat, next: ParseState)
    requires lines != [] && Step(lines, st, utf8, corrected, mode, pattern).Read?
    requires Step(lines, st, utf8, corrected, mode, pattern).count == n && Step(lines, st, utf8, corrected, mode, pattern).next == next
    ensures n <= |lines|
    ensures ParsedLines(lines, st, utf8, corrected, mode, pattern) == ParsedLines(lines[n..], next, utf8, corrected, mode, pattern)
  {
  }

  /** What the bundle holds: its strings and its notes. */
  datatype BundleContents = BundleContents(strings: seq<ResourceString>, notes: seq<JString>)

  /** The notes attached to `key`, or null. */
  function NotesOf(st: ParseState, key: JString): (r: Option<seq<JString>>) {
    if key in st.notesMap then Some(st.notesMap[key]) else None
  }

  /** The string for the `i`-th key: its value, the number `i + 1` and its notes. */
  function StringAt(st: ParseState, i: nat): (r: ResourceString)
    requires WellFormed(st) && i < |st.order|
  {
    var key := st.order[i];
    ResourceString(key, st.props[key], i + 1, NotesOf(st, key), None)
  }

  /** The strings the auto-numbering builder makes of the properties, in key order. */
  function BundleStrings(st: ParseState): (r: seq<ResourceString>)
    requires WellFormed(st)
    ensures |r| == |st.order|
  {
    seq(|st.order|, i requires 0 <= i < |st.order| => StringAt(st, i))
  }

  /** What `parse` returns for the lines of a file. */
  function ParsedBundle(lines: seq<JString>, utf8: bool, corrected: bool, mode: MessagePatternEscape, pattern: JString -> PatternInfo)
    : Result<BundleContents>
  {
    ParsedLinesWellFormed(lines, START, utf8, corrected, mode, pattern);
    var st :- ParsedLines(lines, START, utf8, corrected, mode, pattern);
    Ok(BundleContents(BundleStrings(st), st.globalNotes.GetOr([])))
  }

  /**
    The strings of a parsed file are numbered 1, 2, 3, ... in order, so they
    are already sorted; their keys are distinct, and each key maps to the
    value of its last definition.
   */
  lemma ParsedBundleShape(lines: seq<JString>, utf8: bool, corrected: bool, mode: MessagePatternEscape, pattern: JString -> PatternInfo)
    requires ParsedBundle(lines, utf8, corrected, mode, pattern).Ok?
    ensures var s := ParsedBundle(lines, utf8, corrected, mode, pattern).value.strings;
      NumberedFromOne(s) && Sorted(s) && forall i, j | 0 <= i < j < |s| :: s[i].key != s[j].key
  {
    ParsedLinesWellFormed(lines, START, utf8, corrected, mode, pattern);
    var s := ParsedBundle(lines, utf8, corrected, mode, pattern).value.strings;
    NumberedFromOneIsSorted(s);
  }

  // ---------------------------------------------------------------------
  // The loops of parse

  /** The loop over the keys of `parse`: each string goes to the auto-numbering builder with its notes. */
  method AddStrings(bb: LanguageBundleBuilder, st: ParseState)
    requires WellFormed(st)
    requires bb.Valid() && bb.autoSequenceNumbers && bb.resourceStrings == []
    modifies bb
    ensures bb.Valid() && bb.resourceStrings == BundleStrings(st)
    ensures bb.notes == old(bb.notes) && bb.embeddedLanguageCode == old(bb.embeddedLanguageCode)
  {
    var k := 0;
    while k < |st.order|
      invariant 0 <= k <= |st.order|
      invariant bb.Valid() && bb.autoSequenceNumbers && bb.resourceStrings == BundleStrings(st)[..k]
      invariant bb.notes == old(bb.notes) && bb.embeddedLanguageCode == old(bb.embeddedLanguageCode)
    {
      var key := st.order[k];
      var notes := if key in st.notesMap then Some(st.notesMap[key]) else None;
      bb.AddBuilt(WithKeyValue(key, st.props[key]).(notes := notes));
      assert BundleStrings(st)[..k + 1] == BundleStrings(st)[..k] + [StringAt(st, k)];
      k := k + 1;
    }
    assert BundleStrings(st)[..k] == BundleStrings(st);
  }

  /** A comment line: its note waits for the next entry. */
  method ReadComment(line: JString, utf8: bool, corrected: bool) returns (note: Result<JString>)
    requires line != []
    ensures note == NoteText(line, utf8, corrected)
  {
    if utf8 {
      note := Ok(line[1..]);
    } else {
      note := UnescapeOnlyUnicode(line[1..], corrected);
    }
  }

  /** A logical line: parse it, undo the doubled quotes, or fail. */
  method ReadEntry(logical: JString, corrected: bool, mode: MessagePatternEscape, pattern: JString -> PatternInfo) returns (r: Result<(JString, JString)>)
    ensures r == LogicalEntry(logical, corrected, mode, pattern)
  {
    var pd: Result<Option<PropDef>>;
    if corrected {
      pd := ParsedProperty(logical);
    } else {
      pd := ParseLine(logical);
    }
    if pd.Err? {
      return Err(pd.thrown);
    }
    if pd.value.None? {
      return Err(NullPointerException);
    }
    var value := ConvertDoubleSingleQuote(pd.value.value.value, mode, pattern(pd.value.value.value));
    r := Ok((pd.value.value.key, value));
  }

  /** One round of the loop of `parse`, on the lines the reader has not yet given. */
  method ParseStep(rest: seq<JString>, st: ParseState, utf8: bool, corrected: bool, mode: MessagePatternEscape, pattern: JString -> PatternInfo)
    returns (r: Round)
    requires rest != []
    ensures r == Step(rest, st, utf8, corrected, mode, pattern)
  {
    var lead := GetLeadingSpacesLength(rest[0]);
    var line := rest[0][lead..];
    if line != [] && (line[0] == HASH || line[0] == BANG) {
      var note := ReadComment(line, utf8, corrected);
      if note.Err? {
        return Failed(note.thrown);
      }
      return Read(1, st.(currentNotes := st.currentNotes + [note.value]));
    } else if line == [] {
      var st' := st;
      if st.globalNotesAvailable && st.currentNotes != [] {
        st' := st'.(globalNotes := Some(st.currentNotes), currentNotes := []);
      } else {
        st' := st'.(currentNotes := st.currentNotes + [line]);
      }
      assert st'.(globalNotesAvailable := false) == BlankLine(st);
      return Read(1, st'.(globalNotesAvailable := false));
    }
    r := ParseEntryLines(line, rest[1..], st, corrected, mode, pattern);
  }

  /** A line that is neither a comment nor blank: join its continuation lines and record the entry. */
  method ParseEntryLines(line: JString, next: seq<JString>, st: ParseState, corrected: bool, mode: MessagePatternEscape,
                         pattern: JString -> PatternInfo)
    returns (r: Round)
    ensures r == EntryRound(line, next, st, corrected, mode, pattern)
  {
    var logical, consumed := JoinContinuationLines(line, next);
    r := PutEntry(logical, consumed, st, corrected, mode, pattern);
  }

  /** The entry of the logical line is read and put. */
  method PutEntry(logical: JString, consumed: nat, st: ParseState, corrected: bool, mode: MessagePatternEscape,
                  pattern: JString -> PatternInfo) returns (r: Round)
    ensures r == EntryPut(logical, consumed, st, corrected, mode, pattern)
  {
    var entry := ReadEntry(logical, corrected, mode, pattern);
    if entry.Err? {
      return Failed(entry.thrown);
    }
    r := Read(1 + consumed, PutProperty(st, entry.value.0, entry.value.1));
  }

  /** The end of `parse`: the entries, in key order, and the global notes go to an auto-numbering builder. */
  method BuildBundle(st: ParseState) returns (b: LanguageBundle)
    requires WellFormed(st)
    ensures fresh(b)
    ensures b.resourceStrings == Some(BundleStrings(st)) && b.notes == Some(st.globalNotes.GetOr([]))
    ensures b.embeddedLanguageCode.None?
  {
    var bb := new LanguageBundleBuilder(true);
    AddStrings(bb, st);
    if st.globalNotes.Some? {
      bb.AddNotes(st.globalNotes.value);
      assert bb.notes == st.globalNotes.value;
    }
    b := bb.Build();
  }

  /** The loop of `parse`: each round reads a line and the continuation lines it takes in. */
  method ReadLines(lines: seq<JString>, utf8: bool, corrected: bool, mode: MessagePatternEscape, pattern: JString -> PatternInfo)
    returns (r: Result<ParseState>)
    ensures r == ParsedLines(lines, START, utf8, corrected, mode, pattern)
  {
    var st := START;
    var rest := lines;
    while rest != []
      invariant ParsedLines(rest, st, utf8, corrected, mode, pattern) == ParsedLines(lines, START, utf8, corrected, mode, pattern)
      decreases |rest|
    {
      var step := ParseStep(rest, st, utf8, corrected, mode, pattern);
      if step.Failed? {
        return Err(step.thrown);
      }
      rest, st := rest[step.count..], step.next;
    }
    r := Ok(st);
  }

  /** `parse`: read every line, then hand the entries and the global notes to an auto-numbering builder. */
  method Parse(lines: seq<JString>, utf8: bool, corrected: bool, mode: MessagePatternEscape, pattern: JString -> PatternInfo)
    returns (r: Result<LanguageBundle>)
    ensures ParsedBundle(lines, utf8, corrected, mode, pattern).Err? ==> r == Err(ParsedBundle(lines, utf8, corrected, mode, pattern).thrown)
    ensures ParsedBundle(lines, utf8, corrected, mode, pattern).Ok? ==>
      r.Ok? && fresh(r.value) &&
      r.value.resourceStrings == Some(ParsedBundle(lines, utf8, corrected, mode, pattern).value.strings) &&
      r.value.notes == Some(ParsedBundle(lines, utf8, corrected, mode, pattern).value.notes) &&
      r.value.embeddedLanguageCode.None?
  {
    var st := ReadLines(lines, utf8, corrected, mode, pattern);
    if st.Err? {
      return Err(st.thrown);
    }
    ParsedLinesWellFormed(lines, START, utf8, corrected, mode, pattern);
    var b := BuildBundle(st.value);
    r := Ok(b);
  }
}
