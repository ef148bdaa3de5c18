/**
  `PropDef.print`: the comment lines of an entry, then the entry itself,
  on one line when key and value are short and otherwise wrapped at word
  boundaries into continuation lines.

  The word boundaries come from a `BreakIterator`, which is not part of
  this model: `print` receives the segments it would yield, a list of
  non-empty pieces that spell out the value.
 */
module PropertiesPrint {
  import opened Wrappers
  import opened JavaText
  import opened PropertiesEscape
  import opened PropertiesLines

  /** `PropDef.COLMAX`: the column where `print` starts wrapping. */
  const COLMAX: nat := 80

  /** `PropDef.INDENT`: what a continuation line starts with. */
  const INDENT: JString := [SPACE, SPACE, SPACE, SPACE]

  function Concat(ss: seq<JString>): (r: JString) {
    if ss == [] then [] else ss[0] + Concat(ss[1..])
  }

  lemma {:induction false} ConcatAppend(ss: seq<JString>, x: JString)
    ensures Concat(ss + [x]) == Concat(ss) + x
  {
    if ss == [] {
      assert [x][1..] == [];
    } else {
      assert (ss + [x])[1..] == ss[1..] + [x];
      ConcatAppend(ss[1..], x);
      AppendAssoc(ss[0], Concat(ss[1..]), x);
    }
  }

  predicate NonEmptySegments(segs: seq<JString>) {
    forall i | 0 <= i < |segs| :: segs[i] != []
  }

  /** What a `BreakIterator` yields over `value`: non-empty segments that spell it out. */
  predicate IsSegmentation(segs: seq<JString>, value: JString) {
    NonEmptySegments(segs) && Concat(segs) == value
  }

  /** The first segment keeps its leading white space escaped; the others are escaped with no space rule. */
  function SegmentEscape(first: bool): (r: EscapeSpace) {
    if first then LeadingOnly else NoSpaces
  }

  /** The escaped segments one after the other, the first of them escaped as the start of a value. */
  function EscapedSegments(segs: seq<JString>, first: bool, utf8: bool): (r: JString) {
    if segs == [] then [] else Escaped(segs[0], SegmentEscape(first), utf8) + EscapedSegments(segs[1..], false, utf8)
  }

  lemma EscapedNonEmpty(s: JString, esc: EscapeSpace, utf8: bool)
    requires s != []
    ensures Escaped(s, esc, utf8) != []
  {
    var n := if esc == NoSpaces then 0 else LeadingSpaces(s);
    assert |EscapedRun(s[..n], AllSpaces, utf8)| >= n;
    assert |EscapedRun(s[n..], esc, utf8)| >= |s| - n;
  }

  // ---------------------------------------------------------------------
  // Wrapping

  /**
    The state of the wrapping loop. `pieces` holds what each physical line
    printed so far carries after its indentation and before its
    continuation backslash; the last piece is the line being built.
   */
  datatype WrapState = WrapState(pieces: seq<JString>, emitNext: bool)

  /** The buffer `print` holds: the line being built, indented unless it is the first. */
  function BufOf(pieces: seq<JString>): (r: JString)
    requires pieces != []
  {
    if |pieces| == 1 then pieces[0] else INDENT + pieces[|pieces| - 1]
  }

  /** The `j`-th physical line: indented unless it is the first, with a backslash unless it is the last. */
  function LineOf(pieces: seq<JString>, j: nat): (r: JString)
    requires j < |pieces|
  {
    (if j == 0 then pieces[0] else INDENT + pieces[j]) + (if j + 1 < |pieces| then [BACKSLASH] else [])
  }

  function Lines(pieces: seq<JString>): (r: seq<JString>)
    ensures |r| == |pieces|
  {
    seq(|pieces|, j requires 0 <= j < |pieces| => LineOf(pieces, j))
  }

  /**
    Whether the escaped segment `e` goes to a new line: the previous segment
    asked for it or `e` would reach the column limit, and `e` does not start
    with white space (which a reader would strip from a continuation line).
   */
  predicate Breaks(w: WrapState, e: JString)
    requires w.pieces != [] && e != []
  {
    (w.emitNext || |BufOf(w.pieces)| + |e| + 2 >= COLMAX) && !IsPropsWhiteSpace(e[0])
  }

  /** One round of the wrapping loop for the escaped segment `e`. */
  function WrapStep(w: WrapState, e: JString): (r: WrapState)
    requires w.pieces != [] && e != []
    ensures r.pieces != []
    ensures w.pieces[0] != [] ==> r.pieces[0] != []
  {
    var n := |w.pieces|;
    var broke := Breaks(w, e);
    var pieces := if broke then w.pieces + [e] else w.pieces[..n - 1] + [w.pieces[n - 1] + e];
    WrapState(pieces, (!broke && w.emitNext) || |BufOf(pieces)| + 2 >= COLMAX)
  }

  /** The wrapping loop over the remaining segments. */
  function Wrapped(w: WrapState, segs: seq<JString>, first: bool, utf8: bool): (r: WrapState)
    requires w.pieces != [] && NonEmptySegments(segs)
    ensures r.pieces != []
    ensures w.pieces[0] != [] ==> r.pieces[0] != []
    decreases |segs|
  {
    if segs == [] then w
    else
      var e := Escaped(segs[0], SegmentEscape(first), utf8);
      EscapedNonEmpty(segs[0], SegmentEscape(first), utf8);
      Wrapped(WrapStep(w, e), segs[1..], false, utf8)
  }

  /** What `print` writes before the value: the escaped key and the separator. */
  function KeyLine(key: JString, sep: PropSeparator, utf8: bool): (r: JString) {
    Escaped(key, AllSpaces, utf8) + SeparatorText(sep)
  }

  /** Before the first segment: a key line past the column limit is printed on its own. */
  function StartState(head: JString): (r: WrapState) {
    if |head| > COLMAX then WrapState([head, []], false) else WrapState([head], false)
  }

  /**
    The lines `print` writes for an entry: one line when key and value
    (unescaped) and the padded separator fit in `COLMAX` columns, the
    wrapped form otherwise.
   */
  function EntryLines(key: JString, value: JString, sep: PropSeparator, segs: seq<JString>, utf8: bool): (r: seq<JString>)
    requires NonEmptySegments(segs)
  {
    if |key| + |value| + 3 <= COLMAX then [SingleLine(key, value, sep, utf8)]
    else Lines(Wrapped(StartState(KeyLine(key, sep, utf8)), segs, true, utf8).pieces)
  }

  /** A comment line: `#` and the note, with `\uXXXX` escapes unless the file is UTF-8. */
  function NoteLine(note: JString, utf8: bool): (r: JString) {
    [HASH] + (if utf8 then note else UnicodeEscaped(note))
  }

  function NoteLines(notes: Option<seq<JString>>, utf8: bool): (r: seq<JString>)
    ensures notes.Some? ==> |r| == |notes.value| && forall i | 0 <= i < |r| :: r[i] == NoteLine(notes.value[i], utf8)
    ensures notes.None? ==> r == []
  {
    match notes
    case None => []
    case Some(ns) => seq(|ns|, i requires 0 <= i < |ns| => NoteLine(ns[i], utf8))
  }

  /** Everything `PropDef.print` writes for `d`. */
  function PrintedLines(d: PropDef, segs: seq<JString>, utf8: bool): (r: seq<JString>)
    requires NonEmptySegments(segs)
  {
    NoteLines(d.notes, utf8) + EntryLines(d.key, d.value, d.separator, segs, utf8)
  }

  // ---------------------------------------------------------------------
  // The loops of print

  /** The lines already printed and the buffer agree with the wrap state. */
  lemma StepLines(w: WrapState, e: JString)
    requires w.pieces != [] && e != []
    ensures var w' := WrapStep(w, e);
      Lines(w'.pieces)[..|w'.pieces| - 1] ==
        Lines(w.pieces)[..|w.pieces| - 1] + (if Breaks(w, e) then [BufOf(w.pieces) + [BACKSLASH]] else [])
    ensures BufOf(WrapStep(w, e).pieces) == (if Breaks(w, e) then INDENT else BufOf(w.pieces)) + e
  {
    var p := w.pieces;
    var n := |p|;
    var p' := WrapStep(w, e).pieces;
    if Breaks(w, e) {
      assert p' == p + [e];
      assert LineOf(p', n - 1) == BufOf(p) + [BACKSLASH];
      assert forall j | 0 <= j < n - 1 :: LineOf(p', j) == LineOf(p, j);
    } else {
      assert p' == p[..n - 1] + [p[n - 1] + e];
      assert forall j | 0 <= j < n - 1 :: LineOf(p', j) == LineOf(p, j);
      if n > 1 {
        AppendAssoc(INDENT, p[n - 1], e);
      }
    }
  }

  /** The last line is the buffer. */
  lemma LinesLast(pieces: seq<JString>)
    requires pieces != []
    ensures Lines(pieces) == Lines(pieces)[..|pieces| - 1] + [BufOf(pieces)]
  {
    assert LineOf(pieces, |pieces| - 1) == BufOf(pieces);
  }

  /** The lines printed, the buffer and the flag of the loop agree with the wrap state `w`. */
  predicate Printed(out: seq<JString>, buf: JString, emitNext: bool, w: WrapState) {
    w.pieces != [] && out == Lines(w.pieces)[..|w.pieces| - 1] && buf == BufOf(w.pieces) && emitNext == w.emitNext
  }

  /** Before the first segment the loop agrees with `StartState`. */
  lemma PrintedAtStart(head: JString, out: seq<JString>, buf: JString)
    requires out == (if |head| > COLMAX then [head + [BACKSLASH]] else [])
    requires buf == (if |head| > COLMAX then INDENT else head)
    ensures Printed(out, buf, false, StartState(head))
  {
  }

  /** After the last segment the buffer completes the lines. */
  lemma PrintedAtEnd(out: seq<JString>, buf: JString, emitNext: bool, w: WrapState)
    requires Printed(out, buf, emitNext, w) && w.pieces[0] != []
    ensures Lines(w.pieces) == out + (if |buf| > 0 then [buf] else [])
  {
    LinesLast(w.pieces);
  }

  /** One round of the wrapping loop of `print`. */
  method WrapSegment(out: seq<JString>, buf: JString, emitNext: bool, escSegment: JString, ghost w: WrapState)
    returns (out': seq<JString>, buf': JString, emitNext': bool)
    requires escSegment != [] && Printed(out, buf, emitNext, w)
    ensures Printed(out', buf', emitNext', WrapStep(w, escSegment))
  {
    StepLines(w, escSegment);
    out', buf', emitNext' := out, buf, emitNext;
    if emitNext' || |buf'| + |escSegment| + 2 >= COLMAX {
      if !IsPropsWhiteSpace(escSegment[0]) {
        out' := out' + [buf' + [BACKSLASH]];
        buf' := INDENT;
        emitNext' := false;
      }
    }
    buf' := buf' + escSegment;
    if |buf'| + 2 >= COLMAX {
      emitNext' := true;
    }
  }

  /** The escaped segments: leading white space is escaped in the first one only when `first`. */
  function EscapedEach(segs: seq<JString>, first: bool, utf8: bool): (r: seq<JString>)
    ensures |r| == |segs|
    ensures forall k | 0 <= k < |r| :: r[k] == Escaped(segs[k], SegmentEscape(first && k == 0), utf8)
  {
    seq(|segs|, k requires 0 <= k < |segs| => Escaped(segs[k], SegmentEscape(first && k == 0), utf8))
  }

  /** The wrapping loop over segments already escaped. */
  function WrappedEscaped(w: WrapState, es: seq<JString>): (r: WrapState)
    requires w.pieces != [] && NonEmptySegments(es)
    decreases |es|
  {
    if es == [] then w else WrappedEscaped(WrapStep(w, es[0]), es[1..])
  }

  /** Escaping every segment first and then wrapping is the wrapping loop. */
  lemma {:induction false} WrappedIsEscaped(w: WrapState, segs: seq<JString>, first: bool, utf8: bool)
    requires w.pieces != [] && NonEmptySegments(segs)
    ensures NonEmptySegments(EscapedEach(segs, first, utf8))
    ensures Wrapped(w, segs, first, utf8) == WrappedEscaped(w, EscapedEach(segs, first, utf8))
    decreases |segs|
  {
    var es := EscapedEach(segs, first, utf8);
    forall k | 0 <= k < |es| ensures es[k] != [] {
      EscapedNonEmpty(segs[k], SegmentEscape(first && k == 0), utf8);
    }
    if segs != [] {
      var e := Escaped(segs[0], SegmentEscape(first), utf8);
      EscapedNonEmpty(segs[0], SegmentEscape(first), utf8);
      WrappedIsEscaped(WrapStep(w, e), segs[1..], false, utf8);
      assert EscapedEach(segs[1..], false, utf8) == es[1..];
    }
  }

  /** One more round of the loop over escaped segments keeps its final state. */
  lemma WrappedEscapedAt(w: WrapState, es: seq<JString>, i: nat)
    requires w.pieces != [] && NonEmptySegments(es) && i < |es|
    ensures WrappedEscaped(w, es[i..]) == WrappedEscaped(WrapStep(w, es[i]), es[i + 1..])
  {
    assert es[i..][0] == es[i] && es[i..][1..] == es[i + 1..];
  }

  /** One round of the wrapping loop: the segment is escaped (leading white space only for the first) and wrapped. */
  method PrintSegment(out: seq<JString>, buf: JString, emitNext: bool, segment: JString, first: bool, utf8: bool,
                      ghost w: WrapState)
    returns (out': seq<JString>, buf': JString, emitNext': bool)
    requires segment != [] && Printed(out, buf, emitNext, w)
    ensures Escaped(segment, SegmentEscape(first), utf8) != []
    ensures Printed(out', buf', emitNext', WrapStep(w, Escaped(segment, SegmentEscape(first), utf8)))
  {
    var escSegment;
    if first {
      escSegment := Escape(segment, LeadingOnly, utf8);
    } else {
      escSegment := Escape(segment, NoSpaces, utf8);
    }
    EscapedNonEmpty(segment, SegmentEscape(first), utf8);
    out', buf', emitNext' := WrapSegment(out, buf, emitNext, escSegment, w);
  }

  /** The wrapping loop of `print` over the segments, from the key line on. */
  method PrintWrapped(head: JString, segs: seq<JString>, utf8: bool) returns (out: seq<JString>)
    requires head != [] && NonEmptySegments(segs)
    ensures out == Lines(Wrapped(StartState(head), segs, true, utf8).pieces)
  {
    var buf := head;
    out := [];
    if |buf| > COLMAX {
      out := out + [buf + [BACKSLASH]];
      buf := INDENT;
    }
    PrintedAtStart(head, out, buf);
    ghost var w;
    out, buf, w := WrapSegments(out, buf, segs, utf8, StartState(head));
    PrintedAtEnd(out, buf, w.emitNext, w);
    if |buf| > 0 {
      out := out + [buf];
    }
  }

  /** The loop over the segments, started from the wrap state `w0`. */
  method WrapSegments(out0: seq<JString>, buf0: JString, segs: seq<JString>, utf8: bool, ghost w0: WrapState)
    returns (out: seq<JString>, buf: JString, ghost w: WrapState)
    requires w0.pieces != [] && w0.pieces[0] != [] && NonEmptySegments(segs)
    requires Printed(out0, buf0, false, w0) && !w0.emitNext
    ensures w == Wrapped(w0, segs, true, utf8) && w.pieces[0] != []
    ensures Printed(out, buf, w.emitNext, w)
  {
    ghost var es := EscapedEach(segs, true, utf8);
    WrappedIsEscaped(w0, segs, true, utf8);
    w := w0;
    out, buf := out0, buf0;
    var emitNext := false;
    var firstSegment := true;
    var i := 0;
    while i < |segs|
      invariant 0 <= i <= |segs|
      invariant w.pieces != [] && w.pieces[0] != []
      invariant firstSegment == (i == 0)
      invariant Printed(out, buf, emitNext, w)
      invariant WrappedEscaped(w, es[i..]) == WrappedEscaped(w0, es)
    {
      WrappedEscapedAt(w, es, i);
      out, buf, emitNext := PrintSegment(out, buf, emitNext, segs[i], firstSegment, utf8, w);
      firstSegment := false;
      w := WrapStep(w, es[i]);
      i := i + 1;
    }
    assert es[i..] == [];
  }

  /** The comment loop of `print`. */
  method PrintNotes(notes: seq<JString>, utf8: bool) returns (out: seq<JString>)
    ensures out == NoteLines(Some(notes), utf8)
  {
    out := [];
    var i := 0;
    while i < |notes|
      invariant 0 <= i <= |notes|
      invariant out == NoteLines(Some(notes[..i]), utf8)
    {
      var line;
      if utf8 {
        line := [HASH] + notes[i];
      } else {
        var escaped := EscapeOnlyUnicode(notes[i]);
        line := [HASH] + escaped;
      }
      out := out + [line];
      i := i + 1;
    }
    assert notes[..i] == notes;
  }

  /** `PropDef.print`: the notes, then the entry on one line or wrapped. */
  method Print(d: PropDef, segs: seq<JString>, utf8: bool) returns (out: seq<JString>)
    requires IsSegmentation(segs, d.value)
    ensures out == PrintedLines(d, segs, utf8)
  {
    out := [];
    if d.notes.Some? {
      out := PrintNotes(d.notes.value, utf8);
    }
    var escKey := Escape(d.key, AllSpaces, utf8);
    if |d.key| + |d.value| + 3 <= COLMAX {
      var escValue := Escape(d.value, LeadingOnly, utf8);
      out := out + [escKey + SeparatorText(d.separator) + escValue];
      return;
    }
    var entry := PrintWrapped(escKey + SeparatorText(d.separator), segs, utf8);
    out := out + entry;
  }

  // ---------------------------------------------------------------------
  // Reading the printed lines back

  /**
    What makes the printed lines read back: the first piece starts with
    neither white space nor nothing, every other piece is empty or does not
    start with white space, every piece ends in an even number of
    backslashes, and only before the first segment is the last piece empty.
   */
  predicate WellShaped(p: seq<JString>, first: bool) {
    p != [] && p[0] != [] && !IsPropsWhiteSpace(p[0][0]) &&
    (forall j | 1 <= j < |p| :: p[j] == [] || !IsPropsWhiteSpace(p[j][0])) &&
    (forall j | 0 <= j < |p| :: TrailingBackslashes(p[j]) % 2 == 0) &&
    (!first ==> p[|p| - 1] != [])
  }

  predicate WellWrapped(w: WrapState, first: bool) {
    WellShaped(w.pieces, first)
  }

  /** Starting a new line with `e`. */
  lemma AddPiece(p: seq<JString>, e: JString, first: bool)
    requires WellShaped(p, first) && e != []
    requires TrailingBackslashes(e) % 2 == 0 && !IsPropsWhiteSpace(e[0])
    ensures WellShaped(p + [e], false)
    ensures Concat(p + [e]) == Concat(p) + e
  {
    ConcatAppend(p, e);
    var q := p + [e];
    forall j | 1 <= j < |q|
      ensures q[j] == [] || !IsPropsWhiteSpace(q[j][0])
    {
      if j < |p| {
        assert q[j] == p[j];
      }
    }
    forall j | 0 <= j < |q|
      ensures TrailingBackslashes(q[j]) % 2 == 0
    {
      if j < |p| {
        assert q[j] == p[j];
      }
    }
  }

  /** Appending `e` to the line being built. */
  lemma ExtendPiece(p: seq<JString>, e: JString, first: bool)
    requires WellShaped(p, first) && e != []
    requires TrailingBackslashes(e) % 2 == 0
    requires first ==> !IsPropsWhiteSpace(e[0])
    ensures var n := |p|;
      WellShaped(p[..n - 1] + [p[n - 1] + e], false) &&
      Concat(p[..n - 1] + [p[n - 1] + e]) == Concat(p) + e
  {
    ExtendPieceShaped(p, e, first);
    ExtendPieceText(p, e);
  }

  /** Appending `e` to the line being built keeps the pieces well shaped. */
  lemma ExtendPieceShaped(p: seq<JString>, e: JString, first: bool)
    requires WellShaped(p, first) && e != []
    requires TrailingBackslashes(e) % 2 == 0
    requires first ==> !IsPropsWhiteSpace(e[0])
    ensures WellShaped(p[..|p| - 1] + [p[|p| - 1] + e], false)
  {
    var n := |p|;
    var last := p[n - 1];
    var q := p[..n - 1] + [last + e];
    EvenBackslashesAppend(last, e);
    assert q[n - 1] == last + e;
    assert last != [] ==> q[n - 1][0] == last[0];
    forall j | 1 <= j < |q|
      ensures q[j] == [] || !IsPropsWhiteSpace(q[j][0])
    {
      if j < n - 1 {
        assert q[j] == p[j];
      }
    }
    forall j | 0 <= j < |q|
      ensures TrailingBackslashes(q[j]) % 2 == 0
    {
      if j < n - 1 {
        assert q[j] == p[j];
      }
    }
  }

  /** Appending `e` to the line being built adds `e` to the text the pieces carry. */
  lemma ExtendPieceText(p: seq<JString>, e: JString)
    requires p != []
    ensures Concat(p[..|p| - 1] + [p[|p| - 1] + e]) == Concat(p) + e
  {
    var n := |p|;
    var last := p[n - 1];
    assert p == p[..n - 1] + [last];
    ConcatAppend(p[..n - 1], last);
    ConcatAppend(p[..n - 1], last + e);
    AppendAssoc(Concat(p[..n - 1]), last, e);
  }

  /** One round keeps the pieces well shaped and adds `e` to the text they carry. */
  lemma WrapStepKeeps(w: WrapState, e: JString, first: bool)
    requires WellWrapped(w, first) && e != []
    requires TrailingBackslashes(e) % 2 == 0
    requires first ==> !IsPropsWhiteSpace(e[0])
    ensures WellWrapped(WrapStep(w, e), false)
    ensures Concat(WrapStep(w, e).pieces) == Concat(w.pieces) + e
  {
    WrapStepPieces(w, e);
    if Breaks(w, e) {
      AddPiece(w.pieces, e, first);
    } else {
      ExtendPiece(w.pieces, e, first);
    }
  }

  /** The pieces after one round: `e` starts a new one, or extends the last. */
  lemma WrapStepPieces(w: WrapState, e: JString)
    requires w.pieces != [] && e != []
    ensures Breaks(w, e) ==> !IsPropsWhiteSpace(e[0]) && WrapStep(w, e).pieces == w.pieces + [e]
    ensures !Breaks(w, e) ==>
      WrapStep(w, e).pieces == w.pieces[..|w.pieces| - 1] + [w.pieces[|w.pieces| - 1] + e]
  {
  }

  /** The whole loop keeps the pieces well shaped and adds the escaped segments to their text. */
  lemma {:induction false} WrappedKeeps(w: WrapState, segs: seq<JString>, first: bool, utf8: bool)
    requires WellWrapped(w, first) && NonEmptySegments(segs)
    ensures WellWrapped(Wrapped(w, segs, first, utf8), first && segs == [])
    ensures Concat(Wrapped(w, segs, first, utf8).pieces) == Concat(w.pieces) + EscapedSegments(segs, first, utf8)
    decreases |segs|
  {
    if segs != [] {
      var e := Escaped(segs[0], SegmentEscape(first), utf8);
      EscapedNonEmpty(segs[0], SegmentEscape(first), utf8);
      EscapedNotContinued(segs[0], SegmentEscape(first), utf8);
      if first {
        EscapedValueHead(segs[0], utf8);
      }
      WrapStepKeeps(w, e, first);
      WrappedKeeps(WrapStep(w, e), segs[1..], false, utf8);
      AppendAssoc(Concat(w.pieces), e, EscapedSegments(segs[1..], false, utf8));
    }
  }

  /** The text of the first pieces ends in an even number of backslashes. */
  lemma {:induction false} ConcatEven(p: seq<JString>, j: nat)
    requires j <= |p|
    requires forall i | 0 <= i < |p| :: TrailingBackslashes(p[i]) % 2 == 0
    ensures TrailingBackslashes(Concat(p[..j])) % 2 == 0
  {
    if j > 0 {
      ConcatEven(p, j - 1);
      assert p[..j] == p[..j - 1] + [p[j - 1]];
      ConcatAppend(p[..j - 1], p[j - 1]);
      EvenBackslashesAppend(Concat(p[..j - 1]), p[j - 1]);
    }
  }

  /** A reader strips the indentation of a continuation line and nothing more. */
  lemma StripIndent(c: JString)
    requires c == [] || !IsPropsWhiteSpace(c[0])
    ensures StripLeadingSpaces(INDENT + c) == c
  {
    SameLeadingSpaces(INDENT + c, 4);
    assert (INDENT + c)[4..] == c;
  }

  /** A reader joins a continuation line to text ending in an even number of backslashes plus one. */
  lemma ReadStep(acc: JString, c: JString, suffix: JString, rest: seq<JString>)
    requires TrailingBackslashes(acc) % 2 == 0
    requires c == [] || !IsPropsWhiteSpace(c[0])
    requires suffix == [] || suffix == [BACKSLASH]
    ensures Joined(acc + [BACKSLASH], [INDENT + (c + suffix)] + rest) ==
      (Joined(acc + c + suffix, rest).0, Joined(acc + c + suffix, rest).1 + 1)
  {
    OneMoreBackslash(acc);
    var next := [INDENT + (c + suffix)] + rest;
    assert (acc + [BACKSLASH])[..|acc|] == acc;
    assert next[0] == INDENT + (c + suffix) && next[1..] == rest;
    assert c != [] ==> (c + suffix)[0] == c[0];
    StripIndent(c + suffix);
    AppendAssoc(acc, c, suffix);
  }

  /** Text ending in an even number of backslashes is a whole logical line. */
  lemma ReadLast(acc: JString)
    requires TrailingBackslashes(acc) % 2 == 0
    ensures Joined(acc, []) == (acc, 0)
  {
  }

  lemma ConcatTakeOneMore(p: seq<JString>, j: nat)
    requires j < |p|
    ensures Concat(p[..j + 1]) == Concat(p[..j]) + p[j]
  {
    assert p[..j + 1] == p[..j] + [p[j]];
    ConcatAppend(p[..j], p[j]);
  }

  /** The `j`-th line is the `j`-th piece, indented, with its continuation backslash unless it is the last. */
  function Suffix(p: seq<JString>, j: nat): (r: JString) {
    if j + 1 < |p| then [BACKSLASH] else []
  }

  /** Reading the `j`-th line after the text of the lines before it. */
  lemma ReadLine(p: seq<JString>, j: nat)
    requires 1 <= j < |p|
    requires TrailingBackslashes(Concat(p[..j])) % 2 == 0
    requires p[j] == [] || !IsPropsWhiteSpace(p[j][0])
    ensures Joined(Concat(p[..j]) + [BACKSLASH], Lines(p)[j..]).0 ==
      Joined(Concat(p[..j + 1]) + Suffix(p, j), Lines(p)[j + 1..]).0
    ensures Joined(Concat(p[..j]) + [BACKSLASH], Lines(p)[j..]).1 ==
      Joined(Concat(p[..j + 1]) + Suffix(p, j), Lines(p)[j + 1..]).1 + 1
  {
    var suffix := Suffix(p, j);
    assert Lines(p)[j..] == [INDENT + (p[j] + suffix)] + Lines(p)[j + 1..] by {
      assert Lines(p)[j] == LineOf(p, j);
      AppendAssoc(INDENT, p[j], suffix);
    }
    ReadStep(Concat(p[..j]), p[j], suffix, Lines(p)[j + 1..]);
    ConcatTakeOneMore(p, j);
  }

  /** Reading from the `j`-th line on, after the text of the lines before it. */
  lemma {:induction false} ReadFrom(p: seq<JString>, first: bool, j: nat)
    requires WellShaped(p, first) && 1 <= j < |p|
    ensures Joined(Concat(p[..j]) + [BACKSLASH], Lines(p)[j..]) == (Concat(p), |p| - j)
    decreases |p| - j
  {
    if j + 1 < |p| {
      ReadFrom(p, first, j + 1);
      ReadFromNext(p, first, j);
    } else {
      ReadFromLast(p, first);
    }
  }

  /** Reading from the `j`-th line on, given the reading from the next line on. */
  lemma ReadFromNext(p: seq<JString>, first: bool, j: nat)
    requires WellShaped(p, first) && 1 <= j && j + 1 < |p|
    requires Joined(Concat(p[..j + 1]) + [BACKSLASH], Lines(p)[j + 1..]) == (Concat(p), |p| - (j + 1))
    ensures Joined(Concat(p[..j]) + [BACKSLASH], Lines(p)[j..]) == (Concat(p), |p| - j)
  {
    ConcatEven(p, j);
    ReadLine(p, j);
    assert Suffix(p, j) == [BACKSLASH];
    var before := Concat(p[..j]) + [BACKSLASH];
    assert Joined(before, Lines(p)[j..]).0 == Concat(p);
    assert Joined(before, Lines(p)[j..]).1 == |p| - j;
  }

  /** Reading the last line, after the text of the lines before it. */
  lemma ReadFromLast(p: seq<JString>, first: bool)
    requires WellShaped(p, first) && 2 <= |p|
    ensures Joined(Concat(p[..|p| - 1]) + [BACKSLASH], Lines(p)[|p| - 1..]) == (Concat(p), 1)
  {
    var j := |p| - 1;
    ConcatEven(p, j);
    ReadLine(p, j);
    var next := Joined(Concat(p[..j + 1]) + Suffix(p, j), Lines(p)[j + 1..]);
    assert Suffix(p, j) == [] && p[..j + 1] == p;
    assert Concat(p[..j + 1]) + Suffix(p, j) == Concat(p);
    assert Lines(p)[j + 1..] == [];
    ConcatEven(p, |p|);
    ReadLast(Concat(p));
    assert next == (Concat(p), 0);
    var before := Concat(p[..j]) + [BACKSLASH];
    assert Joined(before, Lines(p)[j..]).0 == Concat(p);
    assert Joined(before, Lines(p)[j..]).1 == 1;
  }

  /** A single piece is a single line, read as it is. */
  lemma ReadOne(p: seq<JString>)
    requires |p| == 1 && TrailingBackslashes(p[0]) % 2 == 0
    ensures Joined(Lines(p)[0], Lines(p)[1..]) == (Concat(p), 0)
  {
    assert Lines(p)[0] == LineOf(p, 0) == p[0];
    assert Lines(p)[1..] == [];
    assert Concat(p) == p[0] + Concat(p[1..]);
    assert p[1..] == [];
    ReadLast(p[0]);
  }

  /** Several pieces: the first line ends in the continuation backslash after the first piece. */
  lemma ReadMany(p: seq<JString>, first: bool)
    requires WellShaped(p, first) && |p| >= 2
    ensures Joined(Lines(p)[0], Lines(p)[1..]) == (Concat(p), |p| - 1)
  {
    assert Lines(p)[0] == LineOf(p, 0) == p[0] + [BACKSLASH];
    assert Concat(p[..1]) == p[0] by {
      assert p[..1] == [p[0]];
      ConcatAppend([], p[0]);
    }
    ReadFrom(p, first, 1);
  }

  /** Parse's continuation join of the wrapped lines gives back the text of all pieces and consumes every line. */
  lemma ReadWrapped(p: seq<JString>, first: bool)
    requires WellShaped(p, first)
    ensures var L := Lines(p);
      Joined(L[0], L[1..]) == (Concat(p), |L| - 1)
  {
    if |p| == 1 {
      ReadOne(p);
    } else {
      ReadMany(p, first);
    }
  }

  /** Unescaping an escaped text followed by anything. */
  lemma UnescapeEscapedThen(s: JString, esc: EscapeSpace, utf8: bool, rest: JString)
    ensures Unescaped(Escaped(s, esc, utf8) + rest, true) == Prepend(s, Unescaped(rest, true))
  {
    var n := if esc == NoSpaces then 0 else LeadingSpaces(s);
    var a := EscapedRun(s[..n], AllSpaces, utf8);
    var b := EscapedRun(s[n..], esc, utf8);
    assert Escaped(s, esc, utf8) == a + b;
    AppendAssoc(a, b, rest);
    UnescapeEscapedRun(s[..n], AllSpaces, utf8, b + rest, true);
    UnescapeEscapedRun(s[n..], esc, utf8, rest, true);
    PrependTwice(s[..n], s[n..], Unescaped(rest, true));
    assert s[..n] + s[n..] == s;
  }

  /** The escaped segments unescape to the value they spell out. */
  lemma {:induction false} UnescapeSegments(segs: seq<JString>, first: bool, utf8: bool)
    ensures Unescaped(EscapedSegments(segs, first, utf8), true) == Ok(Concat(segs))
    decreases |segs|
  {
    if segs != [] {
      UnescapeSegments(segs[1..], false, utf8);
      UnescapeEscapedThen(segs[0], SegmentEscape(first), utf8, EscapedSegments(segs[1..], false, utf8));
    }
  }

  /** The escaped segments start the way a value must. */
  lemma SegmentsValueStart(segs: seq<JString>, utf8: bool)
    requires NonEmptySegments(segs)
    ensures ValueStart(EscapedSegments(segs, true, utf8))
  {
    if segs != [] {
      var e := Escaped(segs[0], LeadingOnly, utf8);
      EscapedValueHead(segs[0], utf8);
      assert (e + EscapedSegments(segs[1..], false, utf8))[0] == e[0];
    }
  }

  /** The key line is a well-shaped first piece. */
  lemma KeyLineShape(key: JString, sep: PropSeparator, utf8: bool)
    requires key != []
    ensures var head := KeyLine(key, sep, utf8);
      head != [] && !IsPropsWhiteSpace(head[0]) && head[0] != HASH && head[0] != BANG &&
      TrailingBackslashes(head) % 2 == 0
  {
    var k := Escaped(key, AllSpaces, utf8);
    EscapedKeyHead(key, utf8);
    EscapedNotContinued(key, AllSpaces, utf8);
    var t := SeparatorText(sep);
    assert TrailingBackslashes(t) == 0 by {
      assert t[|t| - 1] != BACKSLASH;
    }
    EvenBackslashesAppend(k, t);
  }

  /** The wrapped form of an entry: its lines and the logical line they join into. */
  lemma ReadWrappedEntry(key: JString, value: JString, sep: PropSeparator, segs: seq<JString>, utf8: bool)
    requires key != [] && IsSegmentation(segs, value)
    ensures var L := Lines(Wrapped(StartState(KeyLine(key, sep, utf8)), segs, true, utf8).pieces);
      L != [] && L[0] != [] && L[0][0] == KeyLine(key, sep, utf8)[0] &&
      Joined(L[0], L[1..]) == (KeyLine(key, sep, utf8) + EscapedSegments(segs, true, utf8), |L| - 1)
  {
    var head := KeyLine(key, sep, utf8);
    var w0 := StartState(head);
    KeyLineShape(key, sep, utf8);
    StartShape(head);
    WrappedKeeps(w0, segs, true, utf8);
    var w := Wrapped(w0, segs, true, utf8);
    ReadWrapped(w.pieces, segs == []);
    assert Lines(w.pieces)[0] == LineOf(w.pieces, 0);
    assert w.pieces[0][0] == head[0] by {
      WrappedFirstChar(w0, segs, true, utf8);
    }
  }

  /** Before the first segment the pieces are well shaped and carry the key line. */
  lemma StartShape(head: JString)
    requires head != [] && !IsPropsWhiteSpace(head[0]) && TrailingBackslashes(head) % 2 == 0
    ensures WellWrapped(StartState(head), true) && Concat(StartState(head).pieces) == head
  {
    var p := StartState(head).pieces;
    if |head| > COLMAX {
      assert p == [head, []];
      assert p[1..] == [[]];
      assert Concat(p[1..]) == [] + Concat(p[2..]);
      assert p[2..] == [];
      assert TrailingBackslashes(p[1]) == 0;
    } else {
      assert p == [head] && p[1..] == [];
    }
  }

  /** The wrapping loop only ever appends to the first piece. */
  lemma {:induction false} WrappedFirstChar(w: WrapState, segs: seq<JString>, first: bool, utf8: bool)
    requires w.pieces != [] && w.pieces[0] != [] && NonEmptySegments(segs)
    ensures Wrapped(w, segs, first, utf8).pieces[0][0] == w.pieces[0][0]
    decreases |segs|
  {
    if segs != [] {
      var e := Escaped(segs[0], SegmentEscape(first), utf8);
      EscapedNonEmpty(segs[0], SegmentEscape(first), utf8);
      var w' := WrapStep(w, e);
      if !Breaks(w, e) && |w.pieces| == 1 {
        assert w'.pieces[0] == w.pieces[0] + e;
      }
      assert w'.pieces[0][0] == w.pieces[0][0];
      WrappedFirstChar(w', segs[1..], false, utf8);
    }
  }

  /**
    Whatever the segments and wherever the lines are broken, `parse` reads
    the lines `print` writes for an entry back as that entry: the first line
    is neither blank nor a comment, the continuation join consumes exactly
    the lines written, and the logical line parses to the key, value and
    separator printed.
   */
  lemma PrintedEntryReadsBack(key: JString, value: JString, sep: PropSeparator, segs: seq<JString>, utf8: bool)
    requires key != [] && IsSegmentation(segs, value)
    ensures var L := EntryLines(key, value, sep, segs, utf8);
      L != [] && L[0] != [] && StripLeadingSpaces(L[0]) == L[0] && L[0][0] != HASH && L[0][0] != BANG &&
      Joined(L[0], L[1..]).1 == |L| - 1 &&
      ParsedProperty(Joined(L[0], L[1..]).0) == Ok(Some(PropDef(key, value, sep, None)))
  {
    if |key| + |value| + 3 <= COLMAX {
      PrintedShortEntryReadsBack(key, value, sep, segs, utf8);
    } else {
      PrintedLongEntryReadsBack(key, value, sep, segs, utf8);
    }
  }

  /** `PrintedEntryReadsBack` for an entry that fits on one line. */
  lemma PrintedShortEntryReadsBack(key: JString, value: JString, sep: PropSeparator, segs: seq<JString>, utf8: bool)
    requires key != [] && IsSegmentation(segs, value) && |key| + |value| + 3 <= COLMAX
    ensures var L := EntryLines(key, value, sep, segs, utf8);
      L != [] && L[0] != [] && StripLeadingSpaces(L[0]) == L[0] && L[0][0] != HASH && L[0][0] != BANG &&
      Joined(L[0], L[1..]).1 == |L| - 1 &&
      ParsedProperty(Joined(L[0], L[1..]).0) == Ok(Some(PropDef(key, value, sep, None)))
  {
    var L := EntryLines(key, value, sep, segs, utf8);
    KeyLineShape(key, sep, utf8);
    var line := SingleLine(key, value, sep, utf8);
    var v := Escaped(value, LeadingOnly, utf8);
    AppendAssoc(Escaped(key, AllSpaces, utf8), SeparatorText(sep), v);
    assert line == KeyLine(key, sep, utf8) + v;
    EscapedNotContinued(value, LeadingOnly, utf8);
    EvenBackslashesAppend(KeyLine(key, sep, utf8), v);
    assert L[1..] == [];
    SingleLineRoundTrip(key, value, sep, utf8);
    StripNothing(L[0]);
  }

  /** `PrintedEntryReadsBack` for an entry wrapped over several lines. */
  lemma PrintedLongEntryReadsBack(key: JString, value: JString, sep: PropSeparator, segs: seq<JString>, utf8: bool)
    requires key != [] && IsSegmentation(segs, value) && |key| + |value| + 3 > COLMAX
    ensures var L := EntryLines(key, value, sep, segs, utf8);
      L != [] && L[0] != [] && StripLeadingSpaces(L[0]) == L[0] && L[0][0] != HASH && L[0][0] != BANG &&
      Joined(L[0], L[1..]).1 == |L| - 1 &&
      ParsedProperty(Joined(L[0], L[1..]).0) == Ok(Some(PropDef(key, value, sep, None)))
  {
    var L := EntryLines(key, value, sep, segs, utf8);
    KeyLineShape(key, sep, utf8);
    ReadWrappedEntry(key, value, sep, segs, utf8);
    var v := EscapedSegments(segs, true, utf8);
    UnescapeSegments(segs, true, utf8);
    SegmentsValueStart(segs, utf8);
    EntryRoundTrip(key, v, value, sep, utf8);
    StripNothing(L[0]);
  }

  /** The last line of a wrapped text ends in an even number of backslashes once stripped. */
  lemma WrappedEnds(p: seq<JString>, first: bool)
    requires WellShaped(p, first)
    ensures var L := Lines(p);
      TrailingBackslashes(StripLeadingSpaces(L[|L| - 1])) % 2 == 0
  {
    var n := |p| - 1;
    assert Lines(p)[n] == LineOf(p, n);
    if n == 0 {
      assert LineOf(p, n) == p[0];
      StripNothing(p[0]);
    } else {
      assert LineOf(p, n) == INDENT + p[n];
      StripIndent(p[n]);
    }
  }

  /** A line holding a whole entry ends in an even number of backslashes. */
  lemma SingleLineEnds(key: JString, value: JString, sep: PropSeparator, utf8: bool)
    requires key != []
    ensures TrailingBackslashes(StripLeadingSpaces(SingleLine(key, value, sep, utf8))) % 2 == 0
  {
    KeyLineShape(key, sep, utf8);
    var line := SingleLine(key, value, sep, utf8);
    var v := Escaped(value, LeadingOnly, utf8);
    AppendAssoc(Escaped(key, AllSpaces, utf8), SeparatorText(sep), v);
    assert line == KeyLine(key, sep, utf8) + v;
    EscapedNotContinued(value, LeadingOnly, utf8);
    EvenBackslashesAppend(KeyLine(key, sep, utf8), v);
    StripNothing(line);
  }

  /** The last line printed for an entry is not continued, whatever follows it. */
  lemma PrintedEntryEnds(key: JString, value: JString, sep: PropSeparator, segs: seq<JString>, utf8: bool)
    requires key != [] && IsSegmentation(segs, value)
    ensures var L := EntryLines(key, value, sep, segs, utf8);
      L != [] && TrailingBackslashes(StripLeadingSpaces(L[|L| - 1])) % 2 == 0
  {
    KeyLineShape(key, sep, utf8);
    if |key| + |value| + 3 <= COLMAX {
      SingleLineEnds(key, value, sep, utf8);
    } else {
      var head := KeyLine(key, sep, utf8);
      var w0 := StartState(head);
      StartShape(head);
      WrappedKeeps(w0, segs, true, utf8);
      WrappedEnds(Wrapped(w0, segs, true, utf8).pieces, segs == []);
    }
  }
}
