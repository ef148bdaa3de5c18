/**
  `JavaPropertiesResource.merge`: a base `.properties` file is copied line by
  line, and every entry whose key the bundle has a string for is printed
  again with the bundle's value, keeping the entry's leading white space and
  separator. Comment lines, blank lines, lines that define no entry and
  entries with no string in the bundle are copied as they are, continuation
  lines included.

  The base file arrives as its lines and the output is the lines written;
  the word-break iterator is `segmenter` and `new MessagePattern(value)` is
  `pattern`. The rounds of the loop are defined for any line parser `parse`
  and either continuation rule: `merge` as written uses `PropDef.parseLine`
  as written (`ParsedLine`) and the rule `ContinuesAfter(_, false)`; the
  corrected `merge` uses `ParsedProperty` and the parity rule.
 */
module PropertiesMerge {
  import opened Wrappers
  import opened JavaText
  import opened PropertiesEscape
  import opened PropertiesQuotes
  import opened PropertiesLines
  import opened PropertiesPrint
  import opened PropertiesParse
  import opened PropertiesWrite
  import opened ResourceStrings
  import opened LanguageBundles
  import opened UtilsMaps

  /**
    What a logical line of the base file becomes: its lines copied, or a
    definition printed in place of its lines after the white space that
    led its first line.
   */
  datatype Piece =
    | Kept(lines: seq<JString>)
    | Replaced(indent: JString, def: PropDef, source: seq<JString>)

  /** What `PropDef.parseLine` gives for a logical line: an exception, no entry, or an entry. */
  type LineParser = JString -> Result<Option<PropDef>>

  /** What one round of the loop does: it throws, or it takes `count` lines and gives `pieces`. */
  datatype MergeStep = Threw(thrown: Exception) | Took(count: nat, pieces: seq<Piece>)

  /** The base lines a piece stands for. */
  function SourceOf(p: Piece): (r: seq<JString>) {
    match p
    case Kept(lines) => lines
    case Replaced(_, _, source) => source
  }

  function Sources(ps: seq<Piece>): (r: seq<JString>) {
    if ps == [] then [] else SourceOf(ps[0]) + Sources(ps[1..])
  }

  /** The first line prefixed with `indent`, as `print(indent)` followed by `println` lines writes them. */
  function Indented(indent: JString, ls: seq<JString>): (r: seq<JString>)
    ensures |r| == |ls|
    ensures ls != [] ==> r[0] == indent + ls[0] && r[1..] == ls[1..]
  {
    if ls == [] then [] else [indent + ls[0]] + ls[1..]
  }

  /** The lines written for a piece. */
  function PieceLines(p: Piece, utf8: bool, segmenter: JString -> seq<JString>): (r: seq<JString>)
    requires IsSegmenter(segmenter)
  {
    match p
    case Kept(lines) => lines
    case Replaced(indent, d, _) => Indented(indent, PrintedLines(d, segmenter(d.value), utf8))
  }

  function Rendered(ps: seq<Piece>, utf8: bool, segmenter: JString -> seq<JString>): (r: seq<JString>)
    requires IsSegmenter(segmenter)
  {
    if ps == [] then [] else PieceLines(ps[0], utf8, segmenter) + Rendered(ps[1..], utf8, segmenter)
  }

  // ---------------------------------------------------------------------
  // Logical lines

  /**
    Whether a line that follows a continued line continues in turn. The
    code as written asks only whether it ends in a backslash; the corrected
    rule is that of the first line and of `parse`: an odd number of
    trailing backslashes.
   */
  predicate ContinuesAfter(norm: JString, corrected: bool) {
    if corrected then IsContinued(norm) else norm != [] && norm[|norm| - 1] == BACKSLASH
  }

  /**
    The lines after a continued line, taken into the buffer `buf` (each
    stripped of leading white space, each continuing one without its last
    backslash) until one does not continue or the file ends: the logical
    line and how many lines were taken.
   */
  function Gathered(buf: JString, next: seq<JString>, corrected: bool): (r: (JString, nat))
    ensures r.1 <= |next|
    decreases |next|
  {
    if next == [] then (buf, 0)
    else
      var norm := StripLeadingSpaces(next[0]);
      if ContinuesAfter(norm, corrected) then
        var r := Gathered(buf + norm[..|norm| - 1], next[1..], corrected);
        (r.0, r.1 + 1)
      else (buf + norm, 1)
  }

  /**
    The logical line that starts at the first line, which is not a comment,
    and how many lines it takes: a line that is not continued is the
    logical line by itself, leading white space included.
   */
  function GroupOf(rest: seq<JString>, corrected: bool): (r: (JString, nat))
    requires rest != []
    ensures 1 <= r.1 <= |rest|
  {
    var norm := StripLeadingSpaces(rest[0]);
    if IsContinued(norm) then
      var g := Gathered(norm[..|norm| - 1], rest[1..], corrected);
      (g.0, 1 + g.1)
    else (rest[0], 1)
  }

  /**
    A logical line read from the lines `source` and parsed to `pd`: parsing
    may have thrown; an entry whose key is in `kv` is replaced by the
    definition with the bundle's value, with its quotes converted, and the
    entry's separator; anything else keeps its lines.
   */
  function EntryStep(pd: Result<Option<PropDef>>, source: seq<JString>, kv: map<JString, JString>, mode: MessagePatternEscape,
                     pattern: JString -> PatternInfo): (s: MergeStep)
    requires source != []
    ensures s.Took? ==> s.count == |source| && |s.pieces| == 1 && Sources(s.pieces) == source
    ensures s.Threw? <==> pd.Err?
  {
    if pd.Err? then Threw(pd.thrown)
    else if pd.value.Some? && pd.value.value.key in kv then
      var key := pd.value.value.key;
      var first := source[0];
      Took(|source|, [Replaced(first[..LeadingSpaces(first)], PropDef(key, Converted(kv[key], mode, pattern), pd.value.value.separator, None), source)])
    else Took(|source|, [Kept(source)])
  }

  /** One round of the loop of `merge`: a comment line is copied; any other line starts a logical line. */
  function Step(rest: seq<JString>, kv: map<JString, JString>, corrected: bool, parse: LineParser,
                mode: MessagePatternEscape, pattern: JString -> PatternInfo): (s: MergeStep)
    requires rest != []
    ensures s.Took? ==> 1 <= s.count <= |rest| && Sources(s.pieces) == rest[..s.count]
  {
    if IsComment(StripLeadingSpaces(rest[0])) then
      assert Sources([Kept([rest[0]])]) == [rest[0]];
      Took(1, [Kept([rest[0]])])
    else
      var g := GroupOf(rest, corrected);
      EntryStep(parse(g.0), rest[..g.1], kv, mode, pattern)
  }

  /** The pieces of the whole base file, or what the first failing round throws. */
  function MergedPieces(lines: seq<JString>, kv: map<JString, JString>, corrected: bool, parse: LineParser,
                        mode: MessagePatternEscape, pattern: JString -> PatternInfo): (r: Result<seq<Piece>>)
    decreases |lines|
  {
    if lines == [] then Ok([])
    else
      var s := Step(lines, kv, corrected, parse, mode, pattern);
      if s.Threw? then Err(s.thrown)
      else
        var tail :- MergedPieces(lines[s.count..], kv, corrected, parse, mode, pattern);
        Ok(s.pieces + tail)
  }

  /** What `merge` writes for the base file `lines` and the key-value map `kv`, under either continuation rule. */
  function MergedLines(lines: seq<JString>, kv: map<JString, JString>, corrected: bool, parse: LineParser, utf8: bool,
                       mode: MessagePatternEscape, pattern: JString -> PatternInfo, segmenter: JString -> seq<JString>)
    : Result<seq<JString>>
    requires IsSegmenter(segmenter)
  {
    var ps :- MergedPieces(lines, kv, corrected, parse, mode, pattern);
    Ok(Rendered(ps, utf8, segmenter))
  }

  // ---------------------------------------------------------------------
  // Properties

  lemma {:induction false} SourcesAppend(a: seq<Piece>, b: seq<Piece>)
    ensures Sources(a + b) == Sources(a) + Sources(b)
    decreases |a|
  {
    if a != [] {
      ConsParts(a[0], a[1..] + b);
      assert a + b == [a[0]] + (a[1..] + b);
      SourcesAppend(a[1..], b);
    } else {
      assert a + b == b;
    }
  }

  lemma {:induction false} RenderedAppend(a: seq<Piece>, b: seq<Piece>, utf8: bool, segmenter: JString -> seq<JString>)
    requires IsSegmenter(segmenter)
    ensures Rendered(a + b, utf8, segmenter) == Rendered(a, utf8, segmenter) + Rendered(b, utf8, segmenter)
    decreases |a|
  {
    if a != [] {
      ConsParts(a[0], a[1..] + b);
      assert a + b == [a[0]] + (a[1..] + b);
      RenderedAppend(a[1..], b, utf8, segmenter);
    } else {
      assert a + b == b;
    }
  }

  /** A merge that succeeds is the pieces of its first round, which stand for its first lines, and those of the rest. */
  lemma MergedPiecesStep(lines: seq<JString>, kv: map<JString, JString>, corrected: bool, parse: LineParser,
                         mode: MessagePatternEscape, pattern: JString -> PatternInfo)
    returns (count: nat, head: seq<Piece>, tail: seq<Piece>)
    requires lines != [] && MergedPieces(lines, kv, corrected, parse, mode, pattern).Ok?
    ensures Step(lines, kv, corrected, parse, mode, pattern) == Took(count, head)
    ensures 1 <= count <= |lines| && Sources(head) == lines[..count]
    ensures MergedPieces(lines[count..], kv, corrected, parse, mode, pattern) == Ok(tail)
    ensures MergedPieces(lines, kv, corrected, parse, mode, pattern) == Ok(head + tail)
  {
    var s := Step(lines, kv, corrected, parse, mode, pattern);
    count, head := s.count, s.pieces;
    tail := MergedPieces(lines[count..], kv, corrected, parse, mode, pattern).value;
  }

  /** Every line of the base file is accounted for by exactly one piece, in order. */
  lemma {:induction false} MergedSources(lines: seq<JString>, kv: map<JString, JString>, corrected: bool, parse: LineParser,
                                         mode: MessagePatternEscape, pattern: JString -> PatternInfo)
    requires MergedPieces(lines, kv, corrected, parse, mode, pattern).Ok?
    ensures Sources(MergedPieces(lines, kv, corrected, parse, mode, pattern).value) == lines
    decreases |lines|
  {
    if lines != [] {
      var count, head, tail := MergedPiecesStep(lines, kv, corrected, parse, mode, pattern);
      MergedSources(lines[count..], kv, corrected, parse, mode, pattern);
      SourcesAppend(head, tail);
      assert lines == lines[..count] + lines[count..];
    }
  }

  /** A piece that is replaced has its key in the map, the map's value converted, no notes, and its own indent. */
  predicate ReplacedFromMap(p: Piece, kv: map<JString, JString>, mode: MessagePatternEscape, pattern: JString -> PatternInfo) {
    p.Replaced? ==>
      p.def.key in kv && p.def.value == Converted(kv[p.def.key], mode, pattern) && p.def.notes.None? &&
      p.source != [] && p.indent == p.source[0][..LeadingSpaces(p.source[0])]
  }

  /** Only keys of the map are replaced, each with the map's value; nothing else is printed anew. */
  lemma {:induction false} MergedReplacesFromMap(lines: seq<JString>, kv: map<JString, JString>, corrected: bool, parse: LineParser,
                                                 mode: MessagePatternEscape, pattern: JString -> PatternInfo)
    requires MergedPieces(lines, kv, corrected, parse, mode, pattern).Ok?
    ensures forall p | p in MergedPieces(lines, kv, corrected, parse, mode, pattern).value :: ReplacedFromMap(p, kv, mode, pattern)
    decreases |lines|
  {
    if lines != [] {
      var count, head, tail := MergedPiecesStep(lines, kv, corrected, parse, mode, pattern);
      MergedReplacesFromMap(lines[count..], kv, corrected, parse, mode, pattern);
      assert forall p | p in head :: ReplacedFromMap(p, kv, mode, pattern);
    }
  }

  /** Pieces that are all kept write exactly the lines they stand for. */
  lemma {:induction false} KeptRendered(ps: seq<Piece>, utf8: bool, segmenter: JString -> seq<JString>)
    requires IsSegmenter(segmenter)
    requires forall p | p in ps :: p.Kept?
    ensures Rendered(ps, utf8, segmenter) == Sources(ps)
    decreases |ps|
  {
    if ps != [] {
      assert ps[0] in ps;
      assert forall p | p in ps[1..] :: p in ps;
      KeptRendered(ps[1..], utf8, segmenter);
    }
  }

  /** With no key of the base file in the bundle, `merge` copies the base file unchanged. */
  lemma NothingToMergeCopies(lines: seq<JString>, kv: map<JString, JString>, corrected: bool, parse: LineParser, utf8: bool,
                             mode: MessagePatternEscape, pattern: JString -> PatternInfo, segmenter: JString -> seq<JString>)
    requires IsSegmenter(segmenter)
    requires kv == map[]
    requires MergedLines(lines, kv, corrected, parse, utf8, mode, pattern, segmenter).Ok?
    ensures MergedLines(lines, kv, corrected, parse, utf8, mode, pattern, segmenter).value == lines
  {
    var ps := MergedPieces(lines, kv, corrected, parse, mode, pattern).value;
    MergedReplacesFromMap(lines, kv, corrected, parse, mode, pattern);
    assert forall p | p in ps :: p.Kept? by {
      forall p | p in ps ensures p.Kept? {
        assert ReplacedFromMap(p, kv, mode, pattern);
      }
    }
    KeptRendered(ps, utf8, segmenter);
    MergedSources(lines, kv, corrected, parse, mode, pattern);
  }

  /** Stripping leading white space twice strips nothing more. */
  lemma StripTwice(s: JString)
    ensures StripLeadingSpaces(StripLeadingSpaces(s)) == StripLeadingSpaces(s)
  {
    var t := StripLeadingSpaces(s);
    assert LeadingSpaces(t) == 0;
  }

  /** A backslash after text ending in an even number of them continues onto the next line, if any. */
  lemma JoinedAfterEven(buf: JString, next: seq<JString>)
    requires TrailingBackslashes(buf) % 2 == 0
    ensures next == [] ==> Joined(buf + [BACKSLASH], next) == (buf, 0)
    ensures next != [] ==>
      var j := Joined(buf + StripLeadingSpaces(next[0]), next[1..]);
      Joined(buf + [BACKSLASH], next) == (j.0, j.1 + 1)
  {
    OneMoreBackslash(buf);
    assert (buf + [BACKSLASH])[..|buf|] == buf;
  }

  /**
    With the corrected rule a continued logical line gathers what `Joined`
    gathers for `parse`, provided the buffer ends in an even number of
    backslashes.
   */
  lemma {:induction false} GatheredAsJoined(buf: JString, next: seq<JString>)
    requires TrailingBackslashes(buf) % 2 == 0
    ensures Gathered(buf, next, true) == Joined(buf + [BACKSLASH], next)
    decreases |next|
  {
    JoinedAfterEven(buf, next);
    if next != [] {
      var norm := StripLeadingSpaces(next[0]);
      if IsContinued(norm) {
        ContinuedPart(buf, norm);
        var buf' := buf + norm[..|norm| - 1];
        GatheredAsJoined(buf', next[1..]);
        GatheredContinued(buf, next, norm, buf');
      } else {
        GatheredEnd(buf, next, norm, true);
        EvenBackslashesAppend(buf, norm);
      }
    }
  }

  /** The continued case of `GatheredAsJoined`, given its claim for the rest of the lines. */
  lemma {:induction false} GatheredContinued(buf: JString, next: seq<JString>, norm: JString, buf': JString)
    requires next != [] && norm == StripLeadingSpaces(next[0]) && norm != [] && IsContinued(norm)
    requires buf' == buf + norm[..|norm| - 1] && buf' + [BACKSLASH] == buf + norm
    requires TrailingBackslashes(buf) % 2 == 0
    requires Gathered(buf', next[1..], true) == Joined(buf' + [BACKSLASH], next[1..])
    ensures Gathered(buf, next, true) == Joined(buf + [BACKSLASH], next)
  {
    JoinedAfterEven(buf, next);
    GatheredMore(buf, next, norm, buf', true);
  }

  /** A continued line without its last backslash leaves the buffer with an even number of them. */
  lemma ContinuedPart(buf: JString, norm: JString)
    requires TrailingBackslashes(buf) % 2 == 0 && IsContinued(norm)
    ensures norm != [] && TrailingBackslashes(buf + norm[..|norm| - 1]) % 2 == 0
    ensures norm != [] && buf + norm[..|norm| - 1] + [BACKSLASH] == buf + norm
  {
    var init := norm[..|norm| - 1];
    assert norm == init + [BACKSLASH];
    OneMoreBackslash(init);
    EvenBackslashesAppend(buf, init);
  }

  /**
    With the corrected rule a round of `merge` groups lines as a round of
    `parse` does: a continued line gathers what `Joined` gathers, and a line
    that is not continued is read on its own.
   */
  lemma GroupAsJoined(rest: seq<JString>)
    requires rest != []
    ensures var norm := StripLeadingSpaces(rest[0]);
      var g := GroupOf(rest, true);
      g.1 == 1 + Joined(norm, rest[1..]).1 &&
      (IsContinued(norm) ==> g.0 == Joined(norm, rest[1..]).0) &&
      (!IsContinued(norm) ==> g.0 == rest[0] && Joined(norm, rest[1..]).0 == norm)
  {
    var norm := StripLeadingSpaces(rest[0]);
    if IsContinued(norm) {
      var init := norm[..|norm| - 1];
      assert norm == init + [BACKSLASH];
      OneMoreBackslash(init);
      GatheredAsJoined(init, rest[1..]);
    }
  }

  /** `PropDef.parseLine` strips leading white space itself. */
  lemma ParsedPropertyStripped(s: JString)
    ensures ParsedProperty(StripLeadingSpaces(s)) == ParsedProperty(s)
  {
    StripTwice(s);
    assert ParsedProperty(s) == ParsedStripped(StripLeadingSpaces(s));
  }

  /**
    `merge` reads the same entries as `parse`: the logical line a round of
    the corrected merge parses defines what the logical line of a round of
    `parse` defines, and both take the same number of lines.
   */
  lemma GroupAsParse(rest: seq<JString>)
    requires rest != []
    ensures var norm := StripLeadingSpaces(rest[0]);
      var g := GroupOf(rest, true);
      g.1 == 1 + Joined(norm, rest[1..]).1 && ParsedProperty(g.0) == ParsedProperty(Joined(norm, rest[1..]).0)
  {
    GroupAsJoined(rest);
    ParsedPropertyStripped(rest[0]);
  }

  // ---------------------------------------------------------------------
  // The loop of merge

  /** What a round writes: what it throws, or the lines of its pieces. */
  function Written(s: MergeStep, utf8: bool, segmenter: JString -> seq<JString>): (r: Result<seq<JString>>)
    requires IsSegmenter(segmenter)
  {
    if s.Threw? then Err(s.thrown) else Ok(Rendered(s.pieces, utf8, segmenter))
  }

  lemma RenderedOne(p: Piece, utf8: bool, segmenter: JString -> seq<JString>)
    requires IsSegmenter(segmenter)
    ensures Rendered([p], utf8, segmenter) == PieceLines(p, utf8, segmenter)
  {
    assert [p][1..] == [];
  }

  /** A merge over `p` is the first round of `p` followed by the merge over what that round leaves. */
  lemma MergedAfterStep(p: seq<JString>, kv: map<JString, JString>, corrected: bool, parse: LineParser, utf8: bool,
                        mode: MessagePatternEscape, pattern: JString -> PatternInfo, segmenter: JString -> seq<JString>,
                        out: seq<JString>)
    requires p != [] && IsSegmenter(segmenter)
    ensures var s := Step(p, kv, corrected, parse, mode, pattern);
      var w := Written(s, utf8, segmenter);
      Then(out, MergedLines(p, kv, corrected, parse, utf8, mode, pattern, segmenter)) ==
        if w.Err? then w else Then(out + w.value, MergedLines(p[s.count..], kv, corrected, parse, utf8, mode, pattern, segmenter))
  {
    var s := Step(p, kv, corrected, parse, mode, pattern);
    if s.Took? {
      var tail := MergedPieces(p[s.count..], kv, corrected, parse, mode, pattern);
      if tail.Ok? {
        RenderedAppend(s.pieces, tail.value, utf8, segmenter);
        AppendAssoc(out, Rendered(s.pieces, utf8, segmenter), Rendered(tail.value, utf8, segmenter));
      }
    }
  }

  /** A comment line is written as it is. */
  lemma CommentRound(p: seq<JString>, kv: map<JString, JString>, corrected: bool, parse: LineParser, utf8: bool,
                     mode: MessagePatternEscape, pattern: JString -> PatternInfo, segmenter: JString -> seq<JString>,
                     out: seq<JString>)
    requires p != [] && IsComment(StripLeadingSpaces(p[0])) && IsSegmenter(segmenter)
    ensures Then(out, MergedLines(p, kv, corrected, parse, utf8, mode, pattern, segmenter)) ==
      Then(out + [p[0]], MergedLines(p[1..], kv, corrected, parse, utf8, mode, pattern, segmenter))
  {
    MergedAfterStep(p, kv, corrected, parse, utf8, mode, pattern, segmenter, out);
    RenderedOne(Kept([p[0]]), utf8, segmenter);
  }

  /** A round that reads the logical line `logical` from the first lines `source` of `p`. */
  lemma EntryRoundOf(p: seq<JString>, logical: JString, source: seq<JString>, kv: map<JString, JString>, corrected: bool, parse: LineParser,
                     mode: MessagePatternEscape, pattern: JString -> PatternInfo)
    requires p != [] && !IsComment(StripLeadingSpaces(p[0])) && source != []
    requires GroupOf(p, corrected) == (logical, |source|) && p[..|source|] == source
    ensures Step(p, kv, corrected, parse, mode, pattern) == EntryStep(parse(logical), source, kv, mode, pattern)
  {
  }

  /** The merge over `p`, whose first round reads `logical` from `source`, once that round is written. */
  lemma EntryRound(p: seq<JString>, logical: JString, source: seq<JString>, kv: map<JString, JString>, corrected: bool, parse: LineParser,
                   utf8: bool, mode: MessagePatternEscape, pattern: JString -> PatternInfo,
                   segmenter: JString -> seq<JString>, out: seq<JString>)
    requires p != [] && !IsComment(StripLeadingSpaces(p[0])) && source != [] && IsSegmenter(segmenter)
    requires GroupOf(p, corrected) == (logical, |source|) && p[..|source|] == source
    ensures var w := Written(EntryStep(parse(logical), source, kv, mode, pattern), utf8, segmenter);
      Then(out, MergedLines(p, kv, corrected, parse, utf8, mode, pattern, segmenter)) ==
        if w.Err? then w else Then(out + w.value, MergedLines(p[|source|..], kv, corrected, parse, utf8, mode, pattern, segmenter))
  {
    EntryRoundOf(p, logical, source, kv, corrected, parse, mode, pattern);
    MergedAfterStep(p, kv, corrected, parse, utf8, mode, pattern, segmenter, out);
  }

  /** A continued line that opens a logical line: the rest of it is gathered from the lines after it. */
  lemma StartRound(rest: seq<JString>, norm: JString, buf: JString, corrected: bool)
    requires rest != [] && norm == StripLeadingSpaces(rest[0]) && IsContinued(norm) && buf == norm[..|norm| - 1]
    ensures GroupOf(rest, corrected).0 == Gathered(buf, rest[1..], corrected).0
    ensures GroupOf(rest, corrected).1 == 1 + Gathered(buf, rest[1..], corrected).1
    ensures [rest[0]] + rest[1..] == rest
  {
    Uncons(rest);
  }

  /** A line that is not continued is a logical line by itself. */
  lemma SingleRound(rest: seq<JString>, norm: JString, corrected: bool)
    requires rest != [] && norm == StripLeadingSpaces(rest[0]) && !IsContinued(norm)
    ensures GroupOf(rest, corrected) == (rest[0], 1) && rest[..1] == [rest[0]]
  {
  }

  /** A line that continues goes into the buffer without its last backslash. */
  lemma GatheredMore(buf: JString, rest: seq<JString>, norm: JString, buf': JString, corrected: bool)
    requires rest != [] && norm == StripLeadingSpaces(rest[0]) && norm != [] && ContinuesAfter(norm, corrected)
    requires buf' == buf + norm[..|norm| - 1]
    ensures Gathered(buf, rest, corrected).0 == Gathered(buf', rest[1..], corrected).0
    ensures Gathered(buf, rest, corrected).1 == Gathered(buf', rest[1..], corrected).1 + 1
  {
  }

  /** A line that does not continue ends the logical line. */
  lemma GatheredEnd(buf: JString, rest: seq<JString>, norm: JString, corrected: bool)
    requires rest != [] && norm == StripLeadingSpaces(rest[0]) && !ContinuesAfter(norm, corrected)
    ensures Gathered(buf, rest, corrected) == (buf + norm, 1)
  {
  }

  /** The lines `a`, then the next line, are the first lines of `a + rest`. */
  lemma SplitAfter(a: seq<JString>, rest: seq<JString>)
    requires rest != []
    ensures (a + rest)[..|a| + 1] == a + [rest[0]] && (a + rest)[|a| + 1..] == rest[1..]
  {
    assert (a + rest)[..|a| + 1] == a + [rest[0]];
    assert (a + rest)[|a| + 1..] == rest[1..];
  }

  /** A logical line parsed to `pd` from the lines `source`: the lines the round writes, or what it throws. */
  method WriteEntry(pd: Result<Option<PropDef>>, source: seq<JString>, kv: map<JString, JString>, utf8: bool,
                    mode: MessagePatternEscape, pattern: JString -> PatternInfo, segmenter: JString -> seq<JString>)
    returns (r: Result<seq<JString>>)
    requires source != [] && IsSegmenter(segmenter)
    ensures r == Written(EntryStep(pd, source, kv, mode, pattern), utf8, segmenter)
  {
    if pd.Err? {
      return Err(pd.thrown);
    }
    if pd.value.Some? && pd.value.value.key in kv {
      var firstLine := source[0];
      var len := GetLeadingSpacesLength(firstLine);
      var key := pd.value.value.key;
      var value := ConvertSingleQuote(kv[key], mode, pattern(kv[key]));
      var modPd := PropDef(key, value, pd.value.value.separator, None);
      var printed := Print(modPd, segmenter(value), utf8);
      RenderedOne(Replaced(firstLine[..len], modPd, source), utf8, segmenter);
      r := Ok(Indented(firstLine[..len], printed));
    } else {
      RenderedOne(Kept(source), utf8, segmenter);
      r := Ok(source);
    }
  }

  /**
    A logical line read from the lines `source` that open `p` is written
    after `out`: the merge over `p` is then what it writes, followed by the
    merge over the lines after `source`.
   */
  method EmitRound(ghost p: seq<JString>, logical: JString, source: seq<JString>, out: seq<JString>, kv: map<JString, JString>, corrected: bool,
                   parse: LineParser, utf8: bool, mode: MessagePatternEscape, pattern: JString -> PatternInfo,
                   segmenter: JString -> seq<JString>)
    returns (r: Result<seq<JString>>)
    requires p != [] && !IsComment(StripLeadingSpaces(p[0])) && source != [] && IsSegmenter(segmenter)
    requires GroupOf(p, corrected) == (logical, |source|) && p[..|source|] == source
    ensures r.Err? ==> Then(out, MergedLines(p, kv, corrected, parse, utf8, mode, pattern, segmenter)) == r
    ensures r.Ok? ==>
      Then(out, MergedLines(p, kv, corrected, parse, utf8, mode, pattern, segmenter)) == Then(r.value, MergedLines(p[|source|..], kv, corrected, parse, utf8, mode, pattern, segmenter))
  {
    var written := WriteEntry(parse(logical), source, kv, utf8, mode, pattern, segmenter);
    EntryRound(p, logical, source, kv, corrected, parse, utf8, mode, pattern, segmenter, out);
    if written.Err? {
      return Err(written.thrown);
    }
    r := Ok(out + written.value);
  }

  /**
    The lines `orgLines` of a logical line that opened with a continued
    line at the start of `p` have been read, leaving `rest` and the text
    `buf`: the logical line of `p` is what `buf` gathers from `rest`.
   */
  predicate Open(p: seq<JString>, orgLines: seq<JString>, rest: seq<JString>, buf: JString, corrected: bool) {
    orgLines != [] && p == orgLines + rest && !IsComment(StripLeadingSpaces(p[0])) &&
    GroupOf(p, corrected).0 == Gathered(buf, rest, corrected).0 && GroupOf(p, corrected).1 == |orgLines| + Gathered(buf, rest, corrected).1
  }

  /** A line that continues goes into the open logical line. */
  lemma ExtendOpen(p: seq<JString>, orgLines: seq<JString>, rest: seq<JString>, buf: JString, norm: JString, buf': JString, corrected: bool)
    requires rest != [] && Open(p, orgLines, rest, buf, corrected)
    requires norm == StripLeadingSpaces(rest[0]) && norm != [] && ContinuesAfter(norm, corrected) && buf' == buf + norm[..|norm| - 1]
    ensures Open(p, orgLines + [rest[0]], rest[1..], buf', corrected)
  {
    GatheredMore(buf, rest, norm, buf', corrected);
    AppendAssoc(orgLines, [rest[0]], rest[1..]);
    Uncons(rest);
  }

  /** A line that does not continue closes the open logical line, which then takes `orgLines` and that line. */
  lemma EndOpen(p: seq<JString>, orgLines: seq<JString>, rest: seq<JString>, buf: JString, norm: JString, corrected: bool)
    requires rest != [] && Open(p, orgLines, rest, buf, corrected)
    requires norm == StripLeadingSpaces(rest[0]) && !ContinuesAfter(norm, corrected)
    ensures p != [] && !IsComment(StripLeadingSpaces(p[0]))
    ensures GroupOf(p, corrected) == (buf + norm, |orgLines + [rest[0]]|)
    ensures p[..|orgLines + [rest[0]]|] == orgLines + [rest[0]] && p[|orgLines + [rest[0]]|..] == rest[1..]
  {
    GatheredEnd(buf, rest, norm, corrected);
    SplitAfter(orgLines, rest);
  }

  /**
    A line read while no logical line is open: a comment is written, a
    continued line opens a logical line, and any other line is a logical
    line by itself. The merge left is over `p`.
   */
  method OpenLine(rest: seq<JString>, out: seq<JString>, kv: map<JString, JString>, corrected: bool, parse: LineParser, utf8: bool,
                  mode: MessagePatternEscape, pattern: JString -> PatternInfo, segmenter: JString -> seq<JString>)
    returns (r: Result<seq<JString>>, orgLines: seq<JString>, buf: JString, ghost p: seq<JString>)
    requires rest != [] && IsSegmenter(segmenter)
    ensures r.Err? ==> Then(out, MergedLines(rest, kv, corrected, parse, utf8, mode, pattern, segmenter)) == r
    ensures r.Ok? ==>
      Then(out, MergedLines(rest, kv, corrected, parse, utf8, mode, pattern, segmenter)) == Then(r.value, MergedLines(p, kv, corrected, parse, utf8, mode, pattern, segmenter))
    ensures r.Ok? && orgLines == [] ==> p == rest[1..]
    ensures r.Ok? && orgLines != [] ==> p == rest && Open(p, orgLines, rest[1..], buf, corrected)
  {
    var line := rest[0];
    var lead := GetLeadingSpacesLength(line);
    var normLine := line[lead..];
    assert normLine == StripLeadingSpaces(line);
    orgLines, buf, p := [], [], rest[1..];
    if IsComment(normLine) {
      CommentRound(rest, kv, corrected, parse, utf8, mode, pattern, segmenter, out);
      return Ok(out + [line]), orgLines, buf, p;
    }
    var continued := IsContinuationLine(normLine);
    if continued {
      buf := normLine[..|normLine| - 1];
      orgLines := [line];
      p := rest;
      StartRound(rest, normLine, buf, corrected);
      r := Ok(out);
      ThenNothing(MergedLines(rest, kv, corrected, parse, utf8, mode, pattern, segmenter));
      return;
    }
    SingleRound(rest, normLine, corrected);
    r := EmitRound(rest, line, [line], out, kv, corrected, parse, utf8, mode, pattern, segmenter);
  }

  /**
    A line read while a logical line is open: one that continues goes into
    the buffer, and one that does not ends the logical line, which is then
    written.
   */
  method ContinueLine(ghost p: seq<JString>, orgLines: seq<JString>, rest: seq<JString>, buf: JString, out: seq<JString>,
                      kv: map<JString, JString>, corrected: bool, parse: LineParser, utf8: bool, mode: MessagePatternEscape,
                      pattern: JString -> PatternInfo, segmenter: JString -> seq<JString>)
    returns (r: Result<seq<JString>>, orgLines': seq<JString>, buf': JString, ghost p': seq<JString>)
    requires rest != [] && Open(p, orgLines, rest, buf, corrected) && IsSegmenter(segmenter)
    ensures r.Err? ==> Then(out, MergedLines(p, kv, corrected, parse, utf8, mode, pattern, segmenter)) == r
    ensures r.Ok? ==>
      Then(out, MergedLines(p, kv, corrected, parse, utf8, mode, pattern, segmenter)) == Then(r.value, MergedLines(p', kv, corrected, parse, utf8, mode, pattern, segmenter))
    ensures r.Ok? && orgLines' == [] ==> p' == rest[1..]
    ensures r.Ok? && orgLines' != [] ==> Open(p', orgLines', rest[1..], buf', corrected)
  {
    var line := rest[0];
    var lead := GetLeadingSpacesLength(line);
    var normLine := line[lead..];
    assert normLine == StripLeadingSpaces(line);
    var continued: bool;
    if corrected {
      continued := IsContinuationLine(normLine);
    } else {
      continued := normLine != [] && normLine[|normLine| - 1] == BACKSLASH;
    }
    if continued {
      buf' := buf + normLine[..|normLine| - 1];
      orgLines' := orgLines + [line];
      p' := p;
      ExtendOpen(p, orgLines, rest, buf, normLine, buf', corrected);
      r := Ok(out);
      ThenNothing(MergedLines(p, kv, corrected, parse, utf8, mode, pattern, segmenter));
      return;
    }
    EndOpen(p, orgLines, rest, buf, normLine, corrected);
    orgLines', buf', p' := [], [], rest[1..];
    r := EmitRound(p, buf + normLine, orgLines + [line], out, kv, corrected, parse, utf8, mode, pattern, segmenter);
  }

  /**
    The loop of `merge`, under either continuation rule: a comment
    line is written at once, a line that is not continued is a logical
    line by itself, and a continued line starts collecting lines, their
    text in `buf` and the lines themselves in `orgLines`, until one that
    does not continue (by `ContinuesAfter`) or the end of the file. Each logical line is read
    by `parse`, which `merge` passes as `PropDef.parseLine`.
   */
  method MergeLines(base: seq<JString>, kv: map<JString, JString>, corrected: bool, parse: LineParser, utf8: bool,
                    mode: MessagePatternEscape, pattern: JString -> PatternInfo, segmenter: JString -> seq<JString>)
    returns (r: Result<seq<JString>>)
    requires IsSegmenter(segmenter)
    ensures r == MergedLines(base, kv, corrected, parse, utf8, mode, pattern, segmenter)
  {
    var out: seq<JString> := [];
    var orgLines: seq<JString> := [];
    var buf: JString := [];
    var rest := base;
    ghost var p := base;
    ThenNothing(MergedLines(base, kv, corrected, parse, utf8, mode, pattern, segmenter));
    while rest != []
      invariant MergedLines(base, kv, corrected, parse, utf8, mode, pattern, segmenter) ==
        Then(out, MergedLines(p, kv, corrected, parse, utf8, mode, pattern, segmenter))
      invariant orgLines == [] ==> p == rest
      invariant orgLines != [] ==> Open(p, orgLines, rest, buf, corrected)
      decreases |rest|
    {
      var next: Result<seq<JString>>;
      if orgLines == [] {
        next, orgLines, buf, p := OpenLine(rest, out, kv, corrected, parse, utf8, mode, pattern, segmenter);
      } else {
        next, orgLines, buf, p := ContinueLine(p, orgLines, rest, buf, out, kv, corrected, parse, utf8, mode, pattern, segmenter);
      }
      if next.Err? {
        return next;
      }
      out := next.value;
      rest := rest[1..];
    }
    if orgLines != [] {
      AppendEmpty(orgLines);
      var next := EmitRound(p, buf, orgLines, out, kv, corrected, parse, utf8, mode, pattern, segmenter);
      if next.Err? {
        return next;
      }
      out := next.value;
      p := [];
    }
    AppendEmpty(out);
    r := Ok(out);
  }

  /**
    `merge`: the bundle's strings are indexed by key first, so a bundle
    whose strings were never set fails before anything is read. As written
    (`corrected` false) the logical lines go through `PropDef.parseLine`
    as written and a line continues whenever it ends in a backslash; with
    `corrected` both are the corrected readings.
   */
  method Merge(base: seq<JString>, bundle: LanguageBundle, corrected: bool, utf8: bool, mode: MessagePatternEscape,
               pattern: JString -> PatternInfo, segmenter: JString -> seq<JString>)
    returns (r: Result<seq<JString>>)
    requires IsSegmenter(segmenter)
    ensures bundle.resourceStrings.None? ==> r == Err(NullPointerException)
    ensures bundle.resourceStrings.Some? ==>
      r == MergedLines(base, MapByKey(bundle.resourceStrings.value, ValueOf), corrected,
                       if corrected then ParsedProperty else ParsedLine, utf8, mode, pattern, segmenter)
  {
    var strings := bundle.GetResourceStrings();
    if strings.Err? {
      return Err(strings.thrown);
    }
    var kv := CreateKeyValueMap(strings.value);
    var parse: LineParser := if corrected then ParsedProperty else ParsedLine;
    r := MergeLines(base, kv, corrected, parse, utf8, mode, pattern, segmenter);
  }

  // ---------------------------------------------------------------------
  // The code as written

  /** `a=x\`, `y\\`, `b=2`: the second line ends in an escaped backslash and does not continue. */
  const SWALLOWING_LINES: seq<JString> := [
    [0x61, 0x3D, 0x78, BACKSLASH],
    [0x79, BACKSLASH, BACKSLASH],
    [0x62, 0x3D, 0x32]]

  /** The lines of the example need no stripping; the first ends in one backslash, the second in two. */
  lemma SwallowingLinesShape()
    ensures forall i | 0 <= i < 3 :: StripLeadingSpaces(SWALLOWING_LINES[i]) == SWALLOWING_LINES[i]
    ensures TrailingBackslashes(SWALLOWING_LINES[0]) == 1 && TrailingBackslashes(SWALLOWING_LINES[1]) == 2
    ensures SWALLOWING_LINES[1..][1..][1..] == []
  {
    var l: seq<JString> := SWALLOWING_LINES;
    assert LeadingSpaces(l[0]) == 0 && LeadingSpaces(l[1]) == 0 && LeadingSpaces(l[2]) == 0;
    SameTrailingBackslashes(l[0], 1);
    SameTrailingBackslashes(l[1], 2);
  }

  /**
    As written, the logical line of `a` takes in the entry `b=2` that
    follows it, so the merge never reads that entry.
   */
  lemma AsWrittenSwallowsNextEntry()
    ensures GroupOf(SWALLOWING_LINES, false).1 == 3
  {
    var l: seq<JString> := SWALLOWING_LINES;
    SwallowingLinesShape();
    assert l[1..][0] == l[1] && l[1..][1..][0] == l[2];
    assert ContinuesAfter(l[1], false) && !ContinuesAfter(l[2], false);
    assert Gathered(l[0][..3] + l[1][..2], l[1..][1..], false).1 == 1;
  }

  /** With the parity rule, as in `parse`, the logical line of `a` ends at `y\\` and `b=2` is read on its own. */
  lemma CorrectedKeepsNextEntry()
    ensures GroupOf(SWALLOWING_LINES, true).1 == 2
  {
    var l: seq<JString> := SWALLOWING_LINES;
    SwallowingLinesShape();
    assert l[1..][0] == l[1];
    assert !ContinuesAfter(l[1], true);
  }
}
