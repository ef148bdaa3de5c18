/**
  The GetText template filter, `POTResource`: reading the `msgid` messages
  of a template, formatting an entry (`formatMessage`) and merging
  translations into the `msgstr` lines of a base template.

  A message is the text between the quotes of a line, continued on the
  following lines that start with a quote. The reader's lines are a
  sequence of lines; the word boundaries of `BreakIterator` are a
  parameter.
 */
module PotResource {
  import opened Wrappers
  import opened JavaText
  import opened ResourceStrings
  import opened UtilsMaps

  /** `UNTRANSLATED_STRING_PREFIX`. */
  const MSGID: JString := Lit("msgid ")
  /** `UNTRANSLATED_PLURAL_STRING_PREFIX`. */
  const MSGID_PLURAL: JString := Lit("msgid_plural ")
  /** `TRANSLATED_STRING_PREFIX`. */
  const MSGSTR: JString := Lit("msgstr ")
  /** The longest line `formatMessage` aims for. */
  const MAX_LINE_LEN: nat := 80
  /** The room for text on a continuation line, between its two quotes. */
  const AVAILABLE: nat := MAX_LINE_LEN - 2

  // ---------------------------------------------------------------------
  // extractMsgBetweenQuotes

  /** The number of backslashes right before position `e`. */
  function BackslashesBefore(s: JString, e: nat): (n: nat)
    requires e <= |s|
    ensures n <= e
  {
    if e > 0 && s[e - 1] == BACKSLASH then 1 + BackslashesBefore(s, e - 1) else 0
  }

  /**
    Is the quote at `e` escaped? As written, when a backslash precedes it;
    corrected, when an odd number of backslashes do, so that the backslash
    before it is not itself escaped.
   */
  predicate Escaped(line: JString, e: nat, corrected: bool)
    requires 0 < e <= |line|
  {
    if corrected then BackslashesBefore(line, e) % 2 == 1 else line[e - 1] == BACKSLASH
  }

  /** A quote, not the first unit of the line, that is not escaped: a quote that can close a message. */
  predicate IsClosing(line: JString, e: int, corrected: bool) {
    0 < e < |line| && line[e] == DOUBLE_QUOTE && !Escaped(line, e, corrected)
  }

  /**
    The loop of `extractMsgBetweenQuotes`: from the quote at `end`, step
    back to the previous quote while the quote is escaped; -1 once that
    reaches the opening quote at `start`.
   */
  function ClosingFrom(line: JString, start: nat, end: nat, corrected: bool): (r: int)
    requires start < end < |line| && line[start] == DOUBLE_QUOTE
    ensures r == -1 || start < r <= end
    decreases end
  {
    if !Escaped(line, end, corrected) then end
    else
      var e := LastIndexOfAt(line, DOUBLE_QUOTE, end - 1);
      if e == -1 || e == start then -1
      else ClosingFrom(line, start, e, corrected)
  }

  /**
    `extractMsgBetweenQuotes`: the text between the first quote and the
    last quote that closes, or nothing when there are fewer than two
    quotes or no later quote closes.
   */
  function BetweenQuotes(line: JString, corrected: bool): (r: Option<JString>) {
    var start := IndexOf(line, DOUBLE_QUOTE);
    var end := LastIndexOf(line, DOUBLE_QUOTE);
    if start == -1 || end == -1 || start == end then None
    else
      var e := ClosingFrom(line, start, end, corrected);
      if e == -1 then None else Some(line[start + 1..e])
  }

  /** The loop finds the last closing quote after the opening one, if there is one. */
  lemma {:induction false} ClosingFromIsLast(line: JString, start: nat, end: nat, corrected: bool)
    requires start < end < |line| && line[start] == DOUBLE_QUOTE && line[end] == DOUBLE_QUOTE
    requires forall j | end < j < |line| :: !IsClosing(line, j, corrected)
    ensures ClosingFrom(line, start, end, corrected) == -1 <==> forall j | start < j < |line| :: !IsClosing(line, j, corrected)
    ensures ClosingFrom(line, start, end, corrected) != -1 ==>
      IsClosing(line, ClosingFrom(line, start, end, corrected), corrected) &&
      forall j | ClosingFrom(line, start, end, corrected) < j < |line| :: !IsClosing(line, j, corrected)
    decreases end
  {
    if !Escaped(line, end, corrected) {
      assert IsClosing(line, end, corrected);
    } else {
      var e := LastIndexOfAt(line, DOUBLE_QUOTE, end - 1);
      assert !IsClosing(line, end, corrected);
      if e == -1 || e == start {
        assert e == start;
        forall j | start < j < |line| ensures !IsClosing(line, j, corrected) {
          if j < end {
            assert line[j] != DOUBLE_QUOTE;
          }
        }
      } else {
        forall j | e < j < |line| ensures !IsClosing(line, j, corrected) {
          if j < end {
            assert line[j] != DOUBLE_QUOTE;
          }
        }
        ClosingFromIsLast(line, start, e, corrected);
      }
    }
  }

  /**
    What `extractMsgBetweenQuotes` returns: nothing exactly when no quote
    after the first one closes; otherwise the text from after the first
    quote up to the last closing quote.
   */
  lemma {:induction false} BetweenQuotesIs(line: JString, corrected: bool)
    ensures BetweenQuotes(line, corrected).None? <==>
      forall j | IndexOf(line, DOUBLE_QUOTE) < j < |line| :: !IsClosing(line, j, corrected)
    ensures BetweenQuotes(line, corrected).Some? ==>
      exists e | IndexOf(line, DOUBLE_QUOTE) < e < |line| ::
        IsClosing(line, e, corrected) && BetweenQuotes(line, corrected).value == line[IndexOf(line, DOUBLE_QUOTE) + 1..e] &&
        forall j | e < j < |line| :: !IsClosing(line, j, corrected)
  {
    var start := IndexOf(line, DOUBLE_QUOTE);
    var end := LastIndexOf(line, DOUBLE_QUOTE);
    if start == -1 || end == -1 || start == end {
      forall j | start < j < |line| ensures !IsClosing(line, j, corrected) {
        assert line[j] != DOUBLE_QUOTE;
      }
    } else {
      ClosingFromIsLast(line, start, end, corrected);
      var e := ClosingFrom(line, start, end, corrected);
      if e != -1 {
        assert IsClosing(line, e, corrected) && BetweenQuotes(line, corrected).value == line[start + 1..e];
      }
    }
  }

  /** A message needs two quotes around it. */
  lemma {:induction false} MessageNeedsTwoQuotes(line: JString, corrected: bool)
    ensures BetweenQuotes(line, corrected).Some? ==>
      exists i, j | 0 <= i < j < |line| :: line[i] == DOUBLE_QUOTE && line[j] == DOUBLE_QUOTE
  {
    var start := IndexOf(line, DOUBLE_QUOTE);
    var end := LastIndexOf(line, DOUBLE_QUOTE);
    if BetweenQuotes(line, corrected).Some? {
      assert line[start] == DOUBLE_QUOTE && line[end] == DOUBLE_QUOTE && start < end;
    }
  }

  /**
    `extractMsgBetweenQuotes`, with the loop moving `end` back over
    escaped quotes; `corrected` chooses the escape rule.
   */
  method ExtractMsgBetweenQuotes(line: JString, corrected: bool) returns (r: Option<JString>)
    ensures r == BetweenQuotes(line, corrected)
  {
    var start := IndexOf(line, DOUBLE_QUOTE);
    var end := LastIndexOf(line, DOUBLE_QUOTE);
    if start == -1 || end == -1 || start == end {
      return None;
    }
    while Escaped(line, end, corrected)
      invariant start < end < |line|
      invariant ClosingFrom(line, start, end, corrected) == ClosingFrom(line, start, LastIndexOf(line, DOUBLE_QUOTE), corrected)
      decreases end
    {
      end := LastIndexOfAt(line, DOUBLE_QUOTE, end - 1);
      if end == -1 || start == end {
        return None;
      }
    }
    r := Some(line[start + 1..end]);
  }

  /** Two units of text split between two sequences: the backslashes before a position read only what lies before it. */
  lemma {:induction false} BackslashesPrefix(s: JString, t: JString, e: nat)
    requires e <= |s| && e <= |t| && s[..e] == t[..e]
    ensures BackslashesBefore(s, e) == BackslashesBefore(t, e)
    decreases e
  {
    if e > 0 {
      assert s[e - 1] == s[..e][e - 1] && t[e - 1] == t[..e][e - 1];
      assert s[..e - 1] == s[..e][..e - 1] && t[..e - 1] == t[..e][..e - 1];
      BackslashesPrefix(s, t, e - 1);
    }
  }

  /** After a unit that is not a backslash, the run of backslashes is counted as in the text that follows it. */
  lemma {:induction false} BackslashesAfter(a: JString, b: JString, k: nat)
    requires a != [] && a[|a| - 1] != BACKSLASH && k <= |b|
    ensures BackslashesBefore(a + b, |a| + k) == BackslashesBefore(b, k)
    decreases k
  {
    if k > 0 {
      assert (a + b)[|a| + k - 1] == b[k - 1];
      BackslashesAfter(a, b, k - 1);
    }
  }

  /** In `p`, a quote, `m` and a quote, with no quote in `p`, the first quote follows `p` and the last ends the line. */
  lemma {:induction false} QuotePositions(p: JString, m: JString)
    requires DOUBLE_QUOTE !in p
    ensures IndexOf(p + [DOUBLE_QUOTE] + m + [DOUBLE_QUOTE], DOUBLE_QUOTE) == |p|
    ensures LastIndexOf(p + [DOUBLE_QUOTE] + m + [DOUBLE_QUOTE], DOUBLE_QUOTE) == |p| + 1 + |m|
  {
    var line := p + [DOUBLE_QUOTE] + m + [DOUBLE_QUOTE];
    assert line[|p|] == DOUBLE_QUOTE && line[|p| + 1 + |m|] == DOUBLE_QUOTE;
    forall k | 0 <= k < |p| ensures line[k] != DOUBLE_QUOTE {
      assert line[k] == p[k];
    }
  }

  /** The closing quote of such a line is escaped exactly as a quote right after `m` would be. */
  lemma {:induction false} ClosingEscape(p: JString, m: JString, corrected: bool)
    ensures Escaped(p + [DOUBLE_QUOTE] + m + [DOUBLE_QUOTE], |p| + 1 + |m|, corrected) <==>
      if corrected then BackslashesBefore(m, |m|) % 2 == 1 else m != [] && m[|m| - 1] == BACKSLASH
  {
    var line := p + [DOUBLE_QUOTE] + m + [DOUBLE_QUOTE];
    var end := |p| + 1 + |m|;
    if corrected {
      var a := p + [DOUBLE_QUOTE];
      assert line == a + (m + [DOUBLE_QUOTE]);
      BackslashesAfter(a, m + [DOUBLE_QUOTE], |m|);
      assert (m + [DOUBLE_QUOTE])[..|m|] == m[..|m|];
      BackslashesPrefix(m + [DOUBLE_QUOTE], m, |m|);
    } else if m != [] {
      assert line[end - 1] == m[|m| - 1];
    } else {
      assert line[end - 1] == DOUBLE_QUOTE;
    }
  }

  /**
    A line that is `p`, a quote, `m` and a quote, with no quote in `p`,
    holds the message `m` when its closing quote is not escaped.
   */
  lemma {:induction false} QuotedLine(p: JString, m: JString, corrected: bool)
    requires DOUBLE_QUOTE !in p
    requires if corrected then BackslashesBefore(m, |m|) % 2 == 0 else m == [] || m[|m| - 1] != BACKSLASH
    ensures BetweenQuotes(p + [DOUBLE_QUOTE] + m + [DOUBLE_QUOTE], corrected) == Some(m)
  {
    var line := p + [DOUBLE_QUOTE] + m + [DOUBLE_QUOTE];
    var end := |p| + 1 + |m|;
    QuotePositions(p, m);
    ClosingEscape(p, m, corrected);
    MessageUpTo(line, |p|, end, corrected);
    QuotedSlice(p, m);
  }

  /** When the last quote is not escaped, the message runs from the first quote to it. */
  lemma {:induction false} MessageUpTo(line: JString, start: nat, end: nat, corrected: bool)
    requires start < end < |line|
    requires IndexOf(line, DOUBLE_QUOTE) == start && LastIndexOf(line, DOUBLE_QUOTE) == end
    requires !Escaped(line, end, corrected)
    ensures BetweenQuotes(line, corrected) == Some(line[start + 1..end])
  {
  }

  lemma {:induction false} QuotedSlice(p: JString, m: JString)
    ensures (p + [DOUBLE_QUOTE] + m + [DOUBLE_QUOTE])[|p| + 1..|p| + 1 + |m|] == m
  {
    var line := p + [DOUBLE_QUOTE] + m + [DOUBLE_QUOTE];
    assert forall k | 0 <= k < |m| :: line[|p| + 1 + k] == m[k];
  }

  /**
    Findings: as written, a message that ends in an escaped backslash,
    such as `C:\\` written `"C:\\"`, is lost: the closing quote counts
    as escaped and no other quote closes.
   */
  lemma {:induction false} AsWrittenEscapedBackslash(p: JString, t: JString)
    requires DOUBLE_QUOTE !in p && DOUBLE_QUOTE !in t
    ensures BetweenQuotes(p + [DOUBLE_QUOTE] + t + [BACKSLASH, BACKSLASH] + [DOUBLE_QUOTE], false).None?
  {
    var m := t + [BACKSLASH, BACKSLASH];
    var line := p + [DOUBLE_QUOTE] + m + [DOUBLE_QUOTE];
    assert line == p + [DOUBLE_QUOTE] + t + [BACKSLASH, BACKSLASH] + [DOUBLE_QUOTE];
    var end := |p| + 1 + |m|;
    QuotePositions(p, m);
    ClosingEscape(p, m, false);
    assert LastIndexOfAt(line, DOUBLE_QUOTE, end - 1) == |p| by {
      forall k | |p| < k <= end - 1 ensures line[k] != DOUBLE_QUOTE {
        assert line[k] == m[k - |p| - 1];
        if k - |p| - 1 < |t| {
          assert m[k - |p| - 1] == t[k - |p| - 1];
        }
      }
    }
  }

  /** Corrected, the same message is read back whole: the backslash before the quote is itself escaped. */
  lemma {:induction false} CorrectedEscapedBackslash(p: JString, t: JString)
    requires DOUBLE_QUOTE !in p && (t == [] || t[|t| - 1] != BACKSLASH)
    ensures BetweenQuotes(p + [DOUBLE_QUOTE] + t + [BACKSLASH, BACKSLASH] + [DOUBLE_QUOTE], true) ==
      Some(t + [BACKSLASH, BACKSLASH])
  {
    var m := t + [BACKSLASH, BACKSLASH];
    assert p + [DOUBLE_QUOTE] + m + [DOUBLE_QUOTE] == p + [DOUBLE_QUOTE] + t + [BACKSLASH, BACKSLASH] + [DOUBLE_QUOTE];
    assert BackslashesBefore(m, |m|) == 2 + BackslashesBefore(m, |t|);
    assert m[..|t|] == t[..|t|];
    BackslashesPrefix(m, t, |t|);
    QuotedLine(p, m, true);
  }

  // ---------------------------------------------------------------------
  // extractMessage

  /**
    `scanner.hasNext("\\s*\".*")`: the scanner's next token, read from the
    text `input`, starts with a quote, and `.` matches the rest of it, so
    it holds no line terminator.
   */
  predicate QuoteTokenNext(input: JString) {
    var t := NextToken(input);
    t.Some? && StartsWith(t.value, [DOUBLE_QUOTE]) && NoTerminator(t.value)
  }

  /**
    The rest of a message on the scanner's pieces `rest` (what each
    `nextLine` consumes): while the next token of the text they hold
    starts with a quote, the message of each next line that holds one.
   */
  function Continuation(rest: seq<JString>, corrected: bool): (r: JString)
    decreases |rest|
  {
    if rest != [] && QuoteTokenNext(Flatten(rest)) && BetweenQuotes(LineOf(rest[0]), corrected).Some? then
      BetweenQuotes(LineOf(rest[0]), corrected).value + Continuation(rest[1..], corrected)
    else []
  }

  /**
    `extractMessage`: the message of `first`, continued on the lines the
    scanner reads from the text of the following `readLine` lines `rest`,
    or nothing when `first` holds no message.
   */
  function ExtractMessage(first: JString, rest: seq<JString>, corrected: bool): (r: Option<JString>) {
    var m := BetweenQuotes(first, corrected);
    if m.None? then None else Some(m.value + Continuation(ScannerPieces(Text(rest)), corrected))
  }

  /**
    A quote line cut by U+2028 ends the message: the scanner's line `"a`
    holds no message, so `msgid ""` followed by the line `"a` U+2028 `b"`
    reads as the empty message, and `parse` keeps no string for it.
   */
  lemma LineSeparatorEndsMessage(corrected: bool)
    ensures var lines := [MSGID + [DOUBLE_QUOTE, DOUBLE_QUOTE], [DOUBLE_QUOTE, 0x61, 0x2028, 0x62, DOUBLE_QUOTE]];
      ExtractMessage(lines[0], lines[1..], corrected) == Some([]) && PotStrings(lines, 0, corrected) == []
  {
    var first := MSGID + [DOUBLE_QUOTE, DOUBLE_QUOTE];
    var line: JString := [DOUBLE_QUOTE, 0x61, 0x2028, 0x62, DOUBLE_QUOTE];
    SeparatedLineEnds(first, line, corrected);
    assert [first, line][1..] == [line] && [line][1..] == [];
    assert !StartsWith(line, MSGID) && !StartsWith(line, MSGID_PLURAL) by {
      assert MSGID[0] == 0x6D && MSGID_PLURAL[0] == 0x6D;
    }
  }

  lemma SeparatedLineEnds(first: JString, line: JString, corrected: bool)
    requires first == MSGID + [DOUBLE_QUOTE, DOUBLE_QUOTE] && line == [DOUBLE_QUOTE, 0x61, 0x2028, 0x62, DOUBLE_QUOTE]
    ensures ExtractMessage(first, [line], corrected) == Some([])
  {
    var none: JString := [];
    assert first == MSGID + [DOUBLE_QUOTE] + none + [DOUBLE_QUOTE];
    QuotedLine(MSGID, none, corrected);
    SeparatedLineContinuesNothing(line, corrected);
    assert none + Continuation(ScannerPieces(Text([line])), corrected) == [];
  }

  /** The scanner's first line of `"a` U+2028 `b"` is `"a`, its token starts with a quote, but it holds no message. */
  lemma SeparatedLineContinuesNothing(line: JString, corrected: bool)
    requires line == [DOUBLE_QUOTE, 0x61, 0x2028, 0x62, DOUBLE_QUOTE]
    ensures Continuation(ScannerPieces(Text([line])), corrected) == []
  {
    var cut: JString := [DOUBLE_QUOTE, 0x61];
    var pieces := ScannerPieces(Text([line]));
    FirstScannerLine(line, cut);
    assert BetweenQuotes(cut, corrected) == None;
  }

  lemma FirstScannerLine(line: JString, cut: JString)
    requires line == [DOUBLE_QUOTE, 0x61, 0x2028, 0x62, DOUBLE_QUOTE] && cut == [DOUBLE_QUOTE, 0x61]
    ensures ScannerPieces(Text([line])) != [] && LineOf(ScannerPieces(Text([line]))[0]) == cut
  {
    var text := Text([line]);
    TextOne(line);
    assert text[..2] == cut;
    LineLengthIs(text, 2);
    var piece := text[..3];
    assert piece[..2] == cut;
    LineLengthIs(piece, 2);
    assert ScannerPieces(text)[0] == piece;
  }

  /**
    A token glued to the next line by U+0085 stops the message: U+0085
    ends a line but is not white space, so the token `"a"` U+0085 `"b"`
    holds it, `.` does not match it, and `msgid "x"` followed by that line
    reads as `x`.
   */
  lemma NextLineGlueEndsMessage(corrected: bool)
    ensures var line: JString := [DOUBLE_QUOTE, 0x61, DOUBLE_QUOTE, 0x85, DOUBLE_QUOTE, 0x62, DOUBLE_QUOTE];
      ExtractMessage(MSGID + [DOUBLE_QUOTE, 0x78, DOUBLE_QUOTE], [line], corrected) == Some([0x78])
  {
    var line: JString := [DOUBLE_QUOTE, 0x61, DOUBLE_QUOTE, 0x85, DOUBLE_QUOTE, 0x62, DOUBLE_QUOTE];
    var x: JString := [0x78];
    assert MSGID + [DOUBLE_QUOTE, 0x78, DOUBLE_QUOTE] == MSGID + [DOUBLE_QUOTE] + x + [DOUBLE_QUOTE];
    QuotedLine(MSGID, x, corrected);
    GluedTokenStops(line, corrected);
    assert x + Continuation(ScannerPieces(Text([line])), corrected) == x;
  }

  lemma GluedTokenStops(line: JString, corrected: bool)
    requires line == [DOUBLE_QUOTE, 0x61, DOUBLE_QUOTE, 0x85, DOUBLE_QUOTE, 0x62, DOUBLE_QUOTE]
    ensures Continuation(ScannerPieces(Text([line])), corrected) == []
  {
    var text := Text([line]);
    TextOne(line);
    ScannerPiecesKeep(text);
    GluedToken(text);
  }

  lemma GluedToken(text: JString)
    requires text == [DOUBLE_QUOTE, 0x61, DOUBLE_QUOTE, 0x85, DOUBLE_QUOTE, 0x62, DOUBLE_QUOTE, NEWLINE]
    ensures !QuoteTokenNext(text)
  {
    assert LeadingWhitespace(text) == 0;
    assert text[0..] == text;
    TokenLengthIs(text);
    assert TokenLength(text) == 7 by {
      assert forall k | 0 <= k < 7 :: !IsJavaWhitespace(text[k]);
      assert IsJavaWhitespace(text[7]);
    }
    assert NextToken(text) == Some(text[..7]);
    assert text[..7][3] == 0x85;
  }

  /** A first line with a message continues on the scanner's lines after it. */
  lemma ExtractMessageFrom(first: JString, rest: seq<JString>, corrected: bool, m: JString, message: JString)
    requires BetweenQuotes(first, corrected) == Some(m) && message == m + Continuation(ScannerPieces(Text(rest)), corrected)
    ensures ExtractMessage(first, rest, corrected) == Some(message)
  {
  }

  /** `extractMessage`: the scanner loop appending the message of each continuation line. */
  method ReadMessage(first: JString, rest: seq<JString>, corrected: bool) returns (r: Option<JString>)
    ensures r == ExtractMessage(first, rest, corrected)
  {
    var extracted := ExtractMsgBetweenQuotes(first, corrected);
    if extracted.None? {
      return None;
    }
    var message := extracted.value;
    ghost var head := extracted.value;
    var pieces := ScannerPieces(Text(rest));
    var i := 0;
    while i < |pieces| && QuoteTokenNext(Flatten(pieces[i..]))
      invariant 0 <= i <= |pieces|
      invariant message + Continuation(pieces[i..], corrected) == head + Continuation(pieces, corrected)
    {
      ContinuationAt(pieces, i, corrected);
      extracted := ExtractMsgBetweenQuotes(LineOf(pieces[i]), corrected);
      if extracted.None? {
        break;
      }
      AppendAssoc(message, extracted.value, Continuation(pieces[i + 1..], corrected));
      message := message + extracted.value;
      i := i + 1;
    }
    ContinuationAt(pieces, i, corrected);
    AppendEmpty(message);
    r := Some(message);
  }

  /** The continuation from piece `i` on: the message of its line, if it goes on with one, then the rest. */
  lemma {:induction false} ContinuationAt(rest: seq<JString>, i: nat, corrected: bool)
    requires i <= |rest|
    ensures !(i < |rest| && QuoteTokenNext(Flatten(rest[i..])) && BetweenQuotes(LineOf(rest[i]), corrected).Some?) ==>
      Continuation(rest[i..], corrected) == []
    ensures i < |rest| && QuoteTokenNext(Flatten(rest[i..])) && BetweenQuotes(LineOf(rest[i]), corrected).Some? ==>
      Continuation(rest[i..], corrected) == BetweenQuotes(LineOf(rest[i]), corrected).value + Continuation(rest[i + 1..], corrected)
  {
    if i < |rest| {
      assert rest[i..][0] == rest[i] && rest[i..][1..] == rest[i + 1..];
    }
  }

  // ---------------------------------------------------------------------
  // parse

  /** A line `parse` reads a key from: it starts with `msgid ` or `msgid_plural `. */
  predicate IsMsgidLine(line: JString) {
    StartsWith(line, MSGID) || StartsWith(line, MSGID_PLURAL)
  }

  /** The message `extractMessage` reads at each line, from that line and those that follow it. */
  function Messages(lines: seq<JString>, corrected: bool): (r: seq<Option<JString>>)
    ensures |r| == |lines|
    decreases |lines|
  {
    if lines == [] then [] else [ExtractMessage(lines[0], lines[1..], corrected)] + Messages(lines[1..], corrected)
  }

  lemma {:induction false} MessageAt(lines: seq<JString>, corrected: bool, i: nat)
    requires i < |lines|
    ensures Messages(lines, corrected)[i] == ExtractMessage(lines[i], lines[i + 1..], corrected)
    decreases i
  {
    if i > 0 {
      MessageAt(lines[1..], corrected, i - 1);
      assert lines[1..][i - 1] == lines[i] && lines[1..][i..] == lines[i + 1..];
    }
  }

  /** The string a line gives, numbered `n + 1`: the non-empty message of a `msgid` line, as both key and value. */
  function Kept(line: JString, message: Option<JString>, n: int): (r: seq<ResourceString>)
    ensures |r| <= 1
  {
    if message.Some? && message.value != [] && IsMsgidLine(line) then [ResourceString(message.value, message.value, n + 1, None, None)]
    else []
  }

  /** The strings of `lines`, whose messages are `messages`, numbered on from `n`. */
  function Keep(lines: seq<JString>, messages: seq<Option<JString>>, n: int): (r: seq<ResourceString>)
    requires |messages| == |lines|
    ensures |r| <= |lines|
    decreases |lines|
  {
    if lines == [] then []
    else
      var h := Kept(lines[0], messages[0], n);
      h + Keep(lines[1..], messages[1..], n + |h|)
  }

  /** The strings `parse` reads from `lines`, numbered on from `n`. */
  function PotStrings(lines: seq<JString>, n: int, corrected: bool): (r: seq<ResourceString>)
    ensures |r| <= |lines|
    decreases |lines|
  {
    if lines == [] then []
    else
      var v := ExtractMessage(lines[0], lines[1..], corrected);
      if v.Some? && v.value != [] && IsMsgidLine(lines[0]) then
        [ResourceString(v.value, v.value, n + 1, None, None)] + PotStrings(lines[1..], n + 1, corrected)
      else PotStrings(lines[1..], n, corrected)
  }


  /** They are the strings kept from the messages of the lines. */
  lemma {:induction false} PotStringsKeep(lines: seq<JString>, n: int, corrected: bool)
    ensures PotStrings(lines, n, corrected) == Keep(lines, Messages(lines, corrected), n)
    decreases |lines|
  {
    if lines != [] {
      var v := ExtractMessage(lines[0], lines[1..], corrected);
      var h := Kept(lines[0], v, n);
      var m := Messages(lines, corrected);
      assert m == [v] + Messages(lines[1..], corrected);
      assert m[0] == v && m[1..] == Messages(lines[1..], corrected);
      PotStringsCons(lines, n, corrected);
      PotStringsKeep(lines[1..], n + |h|, corrected);
    }
  }

  lemma {:induction false} PotStringsCons(lines: seq<JString>, n: int, corrected: bool)
    requires lines != []
    ensures PotStrings(lines, n, corrected) ==
      Kept(lines[0], ExtractMessage(lines[0], lines[1..], corrected), n) +
      PotStrings(lines[1..], n + |Kept(lines[0], ExtractMessage(lines[0], lines[1..], corrected), n)|, corrected)
  {
    var v := ExtractMessage(lines[0], lines[1..], corrected);
    if v.Some? && v.value != [] && IsMsgidLine(lines[0]) {
      PotStringsKeeps(lines, n, corrected, v.value);
    } else {
      PotStringsSkips(lines, n, corrected);
      AppendEmpty(PotStrings(lines[1..], n, corrected));
    }
  }

  /** A first line that gives the message `m` puts its string first. */
  lemma PotStringsKeeps(lines: seq<JString>, n: int, corrected: bool, m: JString)
    requires lines != [] && ExtractMessage(lines[0], lines[1..], corrected) == Some(m)
    requires m != [] && IsMsgidLine(lines[0])
    ensures PotStrings(lines, n, corrected) == [ResourceString(m, m, n + 1, None, None)] + PotStrings(lines[1..], n + 1, corrected)
  {
  }

  /** A first line that gives no string is passed over. */
  lemma PotStringsSkips(lines: seq<JString>, n: int, corrected: bool)
    requires lines != []
    requires var v := ExtractMessage(lines[0], lines[1..], corrected); !(v.Some? && v.value != [] && IsMsgidLine(lines[0]))
    ensures PotStrings(lines, n, corrected) == PotStrings(lines[1..], n, corrected)
  {
  }

  /** Each string has its non-empty key as its value, and they are numbered consecutively from `n + 1`. */
  predicate KeysNumberedFrom(r: seq<ResourceString>, n: int) {
    forall k | 0 <= k < |r| :: r[k] == ResourceString(r[k].key, r[k].key, n + 1 + k, None, None) && r[k].key != []
  }

  lemma {:induction false} KeysNumberedCons(h: seq<ResourceString>, t: seq<ResourceString>, n: int)
    requires |h| <= 1 && KeysNumberedFrom(h, n) && KeysNumberedFrom(t, n + |h|)
    ensures KeysNumberedFrom(h + t, n)
  {
    forall k | 0 <= k < |h + t|
      ensures (h + t)[k] == ResourceString((h + t)[k].key, (h + t)[k].key, n + 1 + k, None, None) && (h + t)[k].key != []
    {
      if k >= |h| {
        assert (h + t)[k] == t[k - |h|];
      }
    }
  }

  lemma {:induction false} KeepNumbered(lines: seq<JString>, messages: seq<Option<JString>>, n: int)
    requires |messages| == |lines|
    ensures KeysNumberedFrom(Keep(lines, messages, n), n)
    decreases |lines|
  {
    if lines != [] {
      var h := Kept(lines[0], messages[0], n);
      KeepNumbered(lines[1..], messages[1..], n + |h|);
      KeysNumberedCons(h, Keep(lines[1..], messages[1..], n + |h|), n);
    }
  }

  /** The strings `parse` reads have their message as key and as value, and are numbered consecutively from `n + 1`. */
  lemma {:induction false} PotStringsNumbered(lines: seq<JString>, n: int, corrected: bool)
    ensures KeysNumberedFrom(PotStrings(lines, n, corrected), n)
  {
    KeepNumbered(lines, Messages(lines, corrected), n);
    PotStringsKeep(lines, n, corrected);
  }

  /** The line the `k`-th string is kept from: a `msgid` line whose message is its key. */
  lemma {:induction false} KeptFrom(lines: seq<JString>, messages: seq<Option<JString>>, n: int, k: nat) returns (i: nat)
    requires |messages| == |lines| && k < |Keep(lines, messages, n)|
    ensures i < |lines| && IsMsgidLine(lines[i]) && messages[i] == Some(Keep(lines, messages, n)[k].key)
    decreases |lines|
  {
    var h := Kept(lines[0], messages[0], n);
    var t := Keep(lines[1..], messages[1..], n + |h|);
    if h != [] && k == 0 {
      i := 0;
    } else {
      assert Keep(lines, messages, n)[k] == t[k - |h|];
      var i' := KeptFrom(lines[1..], messages[1..], n + |h|, k - |h|);
      i := i' + 1;
    }
  }

  /** Line `i` of `lines` is a `msgid` line whose message is `key`. */
  predicate MsgidAt(lines: seq<JString>, i: int, key: JString, corrected: bool) {
    0 <= i < |lines| && IsMsgidLine(lines[i]) && ExtractMessage(lines[i], lines[i + 1..], corrected) == Some(key)
  }

  /** Some `msgid` line of `lines` has the message `key`. */
  ghost predicate FromMsgid(lines: seq<JString>, key: JString, corrected: bool) {
    exists i :: MsgidAt(lines, i, key, corrected)
  }

  /** Every string `parse` reads is the message of a `msgid` line of the input. */
  lemma {:induction false} PotStringsFromMsgids(lines: seq<JString>, n: int, corrected: bool)
    ensures forall k | 0 <= k < |PotStrings(lines, n, corrected)| :: FromMsgid(lines, PotStrings(lines, n, corrected)[k].key, corrected)
  {
    var r := PotStrings(lines, n, corrected);
    PotStringsKeep(lines, n, corrected);
    forall k | 0 <= k < |r|
      ensures FromMsgid(lines, r[k].key, corrected)
    {
      var i := KeptFrom(lines, Messages(lines, corrected), n, k);
      MessageAt(lines, corrected, i);
      assert MsgidAt(lines, i, r[k].key, corrected);
    }
  }

  /** Line `i` of `lines` gives a string: it is a `msgid` line and its message is not empty. */
  predicate Yields(lines: seq<JString>, i: int, corrected: bool) {
    0 <= i < |lines| && IsMsgidLine(lines[i]) &&
    var v := ExtractMessage(lines[i], lines[i + 1..], corrected); v.Some? && v.value != []
  }

  /** Line `i` of `lines`, whose messages are `messages`, gives a string. */
  predicate GivesAt(lines: seq<JString>, messages: seq<Option<JString>>, i: int)
    requires |messages| == |lines|
  {
    0 <= i < |lines| && IsMsgidLine(lines[i]) && messages[i].Some? && messages[i].value != []
  }

  /** The lines, counted from `off`, that give a string, in order. */
  function Givers(lines: seq<JString>, messages: seq<Option<JString>>, off: nat): (r: seq<nat>)
    requires |messages| == |lines|
    ensures forall k | 0 <= k < |r| :: off <= r[k] < off + |lines|
    ensures forall k, l | 0 <= k < l < |r| :: r[k] < r[l]
    decreases |lines|
  {
    if lines == [] then []
    else (if GivesAt(lines, messages, 0) then [off] else []) + Givers(lines[1..], messages[1..], off + 1)
  }

  /** Line `i` is a `msgid` line whose message is `key`. */
  predicate MessageLine(lines: seq<JString>, messages: seq<Option<JString>>, i: int, key: JString)
    requires |messages| == |lines|
  {
    0 <= i < |lines| && IsMsgidLine(lines[i]) && messages[i] == Some(key)
  }

  lemma MessageLineShift(lines: seq<JString>, messages: seq<Option<JString>>, j: int, key: JString)
    requires |messages| == |lines| && lines != []
    requires MessageLine(lines[1..], messages[1..], j, key)
    ensures MessageLine(lines, messages, j + 1, key)
  {
    assert lines[1..][j] == lines[j + 1] && messages[1..][j] == messages[j + 1];
  }

  /** Each kept string is the message of its giving line. */
  lemma {:induction false} GiversKeep(lines: seq<JString>, messages: seq<Option<JString>>, n: int, off: nat)
    requires |messages| == |lines|
    ensures |Givers(lines, messages, off)| == |Keep(lines, messages, n)|
    ensures forall k | 0 <= k < |Givers(lines, messages, off)| ::
      MessageLine(lines, messages, Givers(lines, messages, off)[k] - off, Keep(lines, messages, n)[k].key)
    decreases |lines|
  {
    if lines != [] {
      var h := Kept(lines[0], messages[0], n);
      var g := Givers(lines, messages, off);
      var gt := Givers(lines[1..], messages[1..], off + 1);
      var r := Keep(lines, messages, n);
      var tail := Keep(lines[1..], messages[1..], n + |h|);
      GiversKeep(lines[1..], messages[1..], n + |h|, off + 1);
      assert r == h + tail;
      var pre := if h != [] then [off] else [];
      assert g == pre + gt;
      GiversKeepCons(lines, messages, off, pre, gt, h, tail);
    }
  }

  /**
    The first line's giver and string, put before those of the lines after
    it, still pair each string with the line that gives it.
   */
  lemma GiversKeepCons(lines: seq<JString>, messages: seq<Option<JString>>, off: int,
                       pre: seq<nat>, gt: seq<nat>, h: seq<ResourceString>, tail: seq<ResourceString>)
    requires |messages| == |lines| && lines != []
    requires |pre| == |h| <= 1 && |gt| == |tail|
    requires |pre| == 1 ==> pre[0] == off && MessageLine(lines, messages, 0, h[0].key)
    requires forall k | 0 <= k < |gt| :: MessageLine(lines[1..], messages[1..], gt[k] - (off + 1), tail[k].key)
    ensures |pre + gt| == |h + tail|
    ensures forall k | 0 <= k < |pre + gt| :: MessageLine(lines, messages, (pre + gt)[k] - off, (h + tail)[k].key)
  {
    forall k | 0 <= k < |pre + gt|
      ensures MessageLine(lines, messages, (pre + gt)[k] - off, (h + tail)[k].key)
    {
      if k >= |pre| {
        var j := k - |pre|;
        assert (pre + gt)[k] == gt[j] && (h + tail)[k] == tail[j];
        MessageLineShift(lines, messages, gt[j] - (off + 1), tail[j].key);
      }
    }
  }

  /** No line that gives a string is left out. */
  lemma {:induction false} GiversComplete(lines: seq<JString>, messages: seq<Option<JString>>, off: nat, i: nat)
    requires |messages| == |lines| && GivesAt(lines, messages, i)
    ensures off + i in Givers(lines, messages, off)
    decreases |lines|
  {
    if i > 0 {
      assert GivesAt(lines[1..], messages[1..], i - 1);
      GiversComplete(lines[1..], messages[1..], off + 1, i - 1);
    }
  }

  /** The lines that give a string, in order. */
  function YieldingLines(lines: seq<JString>, corrected: bool): (r: seq<nat>)
    ensures forall k, l | 0 <= k < l < |r| :: r[k] < r[l]
  {
    Givers(lines, Messages(lines, corrected), 0)
  }

  /**
    The converse of `PotStringsFromMsgids`: the `k`-th string `parse` reads
    comes from the `k`-th line that gives one, so there are as many strings
    as such lines, in the order of the lines.
   */
  lemma PotStringsFromYieldingLines(lines: seq<JString>, n: int, corrected: bool)
    ensures |YieldingLines(lines, corrected)| == |PotStrings(lines, n, corrected)|
    ensures forall k | 0 <= k < |YieldingLines(lines, corrected)| ::
      MsgidAt(lines, YieldingLines(lines, corrected)[k], PotStrings(lines, n, corrected)[k].key, corrected)
  {
    var m := Messages(lines, corrected);
    var idx := YieldingLines(lines, corrected);
    PotStringsKeep(lines, n, corrected);
    GiversKeep(lines, m, n, 0);
    forall k | 0 <= k < |idx|
      ensures MsgidAt(lines, idx[k], PotStrings(lines, n, corrected)[k].key, corrected)
    {
      MessageAt(lines, corrected, idx[k]);
    }
  }

  /** Every `msgid` line with a non-empty message is among the lines that give a string. */
  lemma YieldingLinesComplete(lines: seq<JString>, corrected: bool)
    ensures forall i | Yields(lines, i, corrected) :: i in YieldingLines(lines, corrected)
  {
    var m := Messages(lines, corrected);
    forall i | Yields(lines, i, corrected)
      ensures i in YieldingLines(lines, corrected)
    {
      MessageAt(lines, corrected, i);
      GiversComplete(lines, m, 0, i);
    }
  }

  /** The strings from line `i` on: the one line `i` gives, if any, then those of the lines after it. */
  lemma {:induction false} PotStringsAt(lines: seq<JString>, i: nat, n: int, corrected: bool, value: Option<JString>)
    requires i < |lines| && value == ExtractMessage(lines[i], lines[i + 1..], corrected)
    ensures value.Some? && value.value != [] && IsMsgidLine(lines[i]) ==>
      PotStrings(lines[i..], n, corrected) ==
        [ResourceString(value.value, value.value, n + 1, None, None)] + PotStrings(lines[i + 1..], n + 1, corrected)
    ensures !(value.Some? && value.value != [] && IsMsgidLine(lines[i])) ==>
      PotStrings(lines[i..], n, corrected) == PotStrings(lines[i + 1..], n, corrected)
  {
    assert lines[i..][0] == lines[i] && lines[i..][1..] == lines[i + 1..];
  }

  /**
    `parse`: no stream gives no strings; otherwise the reader loop reads
    the message of every line and keeps those of the `msgid` lines.
    `corrected` false is the code as written.
   */
  method Parse(input: Option<seq<JString>>, corrected: bool) returns (r: seq<ResourceString>)
    ensures input.None? ==> r == []
    ensures input.Some? ==> r == PotStrings(input.value, 0, corrected)
  {
    if input.None? {
      return [];
    }
    var lines := input.value;
    r := [];
    var sequenceNum := 0;
    var i := 0;
    while i < |lines|
      invariant 0 <= i <= |lines|
      invariant r + PotStrings(lines[i..], sequenceNum, corrected) == PotStrings(lines, 0, corrected)
    {
      var value := ReadMessage(lines[i], lines[i + 1..], corrected);
      PotStringsAt(lines, i, sequenceNum, corrected, value);
      if value.Some? && value.value != [] && IsMsgidLine(lines[i]) {
        sequenceNum := sequenceNum + 1;
        var rs := ResourceString(value.value, value.value, sequenceNum, None, None);
        AppendAssoc(r, [rs], PotStrings(lines[i + 1..], sequenceNum, corrected));
        r := r + [rs];
      }
      i := i + 1;
    }
    assert lines[i..] == [];
    AppendEmpty(r);
  }

  // ---------------------------------------------------------------------
  // formatMessage

  predicate Increasing(s: seq<int>) {
    forall i, j | 0 <= i < j < |s| :: s[i] < s[j]
  }

  /**
    The boundaries a word `BreakIterator` returns from `next()` over a
    text of length `len`, after `first()` returned 0: increasing, past 0,
    the last one at the end of the text.
   */
  predicate WordBreaks(breaks: seq<int>, len: nat) {
    Increasing(breaks) && (forall i | 0 <= i < |breaks| :: 0 < breaks[i] <= len) &&
    (breaks == [] <==> len == 0) && (breaks != [] ==> breaks[|breaks| - 1] == len)
  }

  /** The boundary returned before the `k`-th call to `next()`: `first()` gave 0. */
  function Prev(breaks: seq<int>, k: nat): (r: int)
    requires k <= |breaks|
  {
    if k == 0 then 0 else breaks[k - 1]
  }

  /** The lines written so far and where the current line starts. */
  datatype Progress = Progress(lines: seq<JString>, start: nat)

  /**
    The loop of `formatMessage` after the first `k` boundaries of
    `breaks`: a boundary too far from `start` writes the line up to the
    previous boundary and starts the next line there; the last boundary
    writes the current line. As written, the two are exclusive, so that
    the text after the line the last boundary wraps is never written;
    corrected, it is written.
   */
  function Run(message: JString, breaks: seq<int>, k: nat, corrected: bool): (r: Progress)
    requires WordBreaks(breaks, |message|) && k <= |breaks|
    ensures r.start <= Prev(breaks, k)
    decreases k
  {
    if k == 0 then Progress([], 0)
    else
      var p := Run(message, breaks, k - 1, corrected);
      var prevEnd := Prev(breaks, k - 1);
      assert k - 1 > 0 ==> breaks[k - 2] < breaks[k - 1];
      Progress(p.lines + Emitted(message, breaks[k - 1], p.start, prevEnd, corrected),
               NextStart(breaks[k - 1], p.start, prevEnd))
  }

  /** The pieces one boundary `end` writes. */
  function Emitted(message: JString, end: int, start: nat, prevEnd: nat, corrected: bool): (r: seq<JString>)
    requires start <= prevEnd < end <= |message|
  {
    if end - start > AVAILABLE then
      [message[start..prevEnd]] + (if corrected && end == |message| then [message[prevEnd..end]] else [])
    else if end == |message| then [message[start..end]]
    else []
  }

  /** Where the current line starts after the boundary `end`. */
  function NextStart(end: int, start: nat, prevEnd: nat): (r: nat)
    ensures r == start || r == prevEnd
  {
    if end - start > AVAILABLE then prevEnd else start
  }

  lemma {:induction false} RunStep(message: JString, breaks: seq<int>, k: nat, corrected: bool)
    requires WordBreaks(breaks, |message|) && k < |breaks|
    ensures Prev(breaks, k) < breaks[k]
    ensures Run(message, breaks, k + 1, corrected) ==
      var p := Run(message, breaks, k, corrected);
      Progress(p.lines + Emitted(message, breaks[k], p.start, Prev(breaks, k), corrected),
               NextStart(breaks[k], p.start, Prev(breaks, k)))
  {
  }

  /** The pieces the message is written in, in the long form. */
  function Segments(message: JString, breaks: seq<int>, corrected: bool): (r: seq<JString>)
    requires WordBreaks(breaks, |message|)
  {
    Run(message, breaks, |breaks|, corrected).lines
  }

  /** Each piece in quotes, a line of its own. */
  function Quoted(segments: seq<JString>): (r: seq<JString>)
    ensures |r| == |segments|
  {
    if segments == [] then [] else [[DOUBLE_QUOTE] + segments[0] + [DOUBLE_QUOTE]] + Quoted(segments[1..])
  }

  /**
    The lines `formatMessage` writes: `prefix` and the message in quotes
    when they fit in fewer than 80 units with the quotes; otherwise
    `prefix` and an empty pair of quotes, then the message in quoted
    pieces broken at word boundaries.
   */
  function FormatLines(prefix: JString, message: JString, breaks: seq<int>, corrected: bool): (r: seq<JString>)
    requires WordBreaks(breaks, |message|)
  {
    if MAX_LINE_LEN > |message| + |prefix| + 2 then [prefix + [DOUBLE_QUOTE] + message + [DOUBLE_QUOTE]]
    else [prefix + [DOUBLE_QUOTE, DOUBLE_QUOTE]] + Quoted(Segments(message, breaks, corrected))
  }

  lemma {:induction false} QuotedAppend(a: seq<JString>, b: seq<JString>)
    ensures Quoted(a + b) == Quoted(a) + Quoted(b)
    decreases |a|
  {
    if a == [] {
      assert a + b == b;
    } else {
      assert (a + b)[0] == a[0] && (a + b)[1..] == a[1..] + b;
      QuotedAppend(a[1..], b);
    }
  }

  /**
    The body of the loop of `formatMessage` for the boundary `end`: it
    writes the lines of the pieces `Emitted` gives, and returns where the
    current line starts.
   */
  method WriteBoundary(output: seq<JString>, message: JString, end: int, start: nat, prevEnd: nat, corrected: bool)
    returns (written: seq<JString>, nextStart: nat)
    requires start <= prevEnd < end <= |message|
    ensures written == output + Quoted(Emitted(message, end, start, prevEnd, corrected))
    ensures nextStart == NextStart(end, start, prevEnd)
  {
    written := output;
    nextStart := start;
    if end - start > AVAILABLE {
      written := written + [[DOUBLE_QUOTE] + message[nextStart..prevEnd] + [DOUBLE_QUOTE]];
      nextStart := prevEnd;
      if corrected && end == |message| {
        written := written + [[DOUBLE_QUOTE] + message[nextStart..end] + [DOUBLE_QUOTE]];
      }
    } else if end == |message| {
      written := written + [[DOUBLE_QUOTE] + message[nextStart..end] + [DOUBLE_QUOTE]];
    }
  }

  /**
    `formatMessage`: the short form, or the long form built by the loop
    over the boundaries `breaks` of the word iterator; the text is
    modelled as its lines.
   */
  method FormatMessage(prefix: JString, message: JString, breaks: seq<int>, corrected: bool) returns (output: seq<JString>)
    requires WordBreaks(breaks, |message|)
    ensures output == FormatLines(prefix, message, breaks, corrected)
  {
    if MAX_LINE_LEN > |message| + |prefix| + 2 {
      output := [prefix + [DOUBLE_QUOTE] + message + [DOUBLE_QUOTE]];
      return;
    }
    output := [prefix + [DOUBLE_QUOTE, DOUBLE_QUOTE]];
    var start := 0;
    var end := 0;
    var i := 0;
    // The boundary DONE that ends the loop lies before every position and writes nothing.
    while i < |breaks|
      invariant 0 <= i <= |breaks| && end == Prev(breaks, i) && start == Run(message, breaks, i, corrected).start
      invariant output == [prefix + [DOUBLE_QUOTE, DOUBLE_QUOTE]] + Quoted(Run(message, breaks, i, corrected).lines)
    {
      var prevEnd := end;
      end := breaks[i];
      RunStep(message, breaks, i, corrected);
      ghost var lines := Run(message, breaks, i, corrected).lines;
      ghost var emitted := Emitted(message, end, start, prevEnd, corrected);
      QuotedAppend(lines, emitted);
      AppendAssoc([prefix + [DOUBLE_QUOTE, DOUBLE_QUOTE]], Quoted(lines), Quoted(emitted));
      output, start := WriteBoundary(output, message, end, start, prevEnd, corrected);
      i := i + 1;
    }
  }

  /**
    Findings: as written, when the last boundary is the first one too far
    from the start of the line, the line up to the previous boundary is
    written and the rest of the message is lost. For instance, with the
    prefix `msgstr `, a message of 70 letters, a space and 14 letters,
    with the boundaries 70, 71 and 85: the previous boundary is 71, so the
    lines are `msgstr ""` and, in quotes, the 70 letters followed by the
    space; the last 14 letters are lost.
   */
  lemma {:induction false} AsWrittenLosesTail(prefix: JString, message: JString, breaks: seq<int>)
    requires WordBreaks(breaks, |message|) && |message| > AVAILABLE
    requires forall j | 0 <= j < |breaks| - 1 :: breaks[j] <= AVAILABLE
    ensures Segments(message, breaks, false) == [message[..Prev(breaks, |breaks| - 1)]]
    ensures FormatLines(prefix, message, breaks, false) ==
      [prefix + [DOUBLE_QUOTE, DOUBLE_QUOTE], [DOUBLE_QUOTE] + message[..Prev(breaks, |breaks| - 1)] + [DOUBLE_QUOTE]]
    ensures Prev(breaks, |breaks| - 1) <= AVAILABLE < |message|
  {
    var k := |breaks| - 1;
    RunQuiet(message, breaks, k, false);
    RunStep(message, breaks, k, false);
    assert Quoted([message[..Prev(breaks, k)]]) == [[DOUBLE_QUOTE] + message[..Prev(breaks, k)] + [DOUBLE_QUOTE]] + Quoted([]);
  }

  /** Before the first boundary too far from the start, nothing is written and the line still starts at 0. */
  lemma {:induction false} RunQuiet(message: JString, breaks: seq<int>, k: nat, corrected: bool)
    requires WordBreaks(breaks, |message|) && k < |breaks|
    requires forall j | 0 <= j < |breaks| - 1 :: breaks[j] <= AVAILABLE
    ensures Run(message, breaks, k, corrected) == Progress([], 0)
    ensures Prev(breaks, k) <= AVAILABLE
    decreases k
  {
    if k > 0 {
      RunQuiet(message, breaks, k - 1, corrected);
      RunStep(message, breaks, k - 1, corrected);
      var end := breaks[k - 1];
      assert end < breaks[|breaks| - 1] && end <= AVAILABLE;
      var none: seq<JString> := [];
      assert Emitted(message, end, 0, Prev(breaks, k - 1), corrected) == none;
      assert none + none == none;
    }
  }

  /** Corrected, one boundary writes the message from the start of the line to the next start, or to the end at the last boundary. */
  lemma {:induction false} EmittedCovers(message: JString, end: int, start: nat, prevEnd: nat)
    requires start <= prevEnd < end <= |message|
    ensures Flatten(Emitted(message, end, start, prevEnd, true)) ==
      message[start..if end == |message| then end else NextStart(end, start, prevEnd)]
  {
    var none: seq<JString> := [];
    if end - start > AVAILABLE {
      if end == |message| {
        var x, y := message[start..prevEnd], message[prevEnd..end];
        var e := [x] + [y];
        assert e[0] == x && e[1..] == [y];
        assert [y][1..] == none;
        assert Flatten([y]) == y + Flatten(none);
        assert Flatten(e) == x + Flatten([y]);
        assert x + y == message[start..end];
      } else {
        var e := [message[start..prevEnd]] + none;
        assert e == [message[start..prevEnd]] && e[1..] == none;
      }
    } else if end == |message| {
      assert [message[start..end]][1..] == none;
    }
  }

  lemma {:induction false} SliceJoin(s: JString, a: nat, b: nat)
    requires a <= b <= |s|
    ensures s[..a] + s[a..b] == s[..b]
  {
  }

  /** After `k` boundaries, the lines written hold the message up to the start of the current line, and all of it after the last. */
  predicate Covers(message: JString, breaks: seq<int>, k: nat, p: Progress) {
    (k < |breaks| ==> p.start <= |message| && Flatten(p.lines) == message[..p.start]) &&
    (k == |breaks| ==> Flatten(p.lines) == message)
  }

  /** Corrected, the lines written so far cover the message as `Covers` says. */
  lemma {:induction false} RunCovers(message: JString, breaks: seq<int>, k: nat)
    requires WordBreaks(breaks, |message|) && k <= |breaks|
    ensures Covers(message, breaks, k, Run(message, breaks, k, true))
    decreases k
  {
    if k == 0 {
      CoversStart(message, breaks);
    } else {
      RunCovers(message, breaks, k - 1);
      CoversNext(message, breaks, k - 1);
    }
  }

  /** Corrected, one more boundary keeps the lines written by `Run` covering the message. */
  lemma {:induction false} CoversNext(message: JString, breaks: seq<int>, k: nat)
    requires WordBreaks(breaks, |message|) && k < |breaks|
    requires Covers(message, breaks, k, Run(message, breaks, k, true))
    ensures Covers(message, breaks, k + 1, Run(message, breaks, k + 1, true))
  {
    var p := Run(message, breaks, k, true);
    RunStep(message, breaks, k, true);
    CoversStep(message, breaks, k, p, Run(message, breaks, k + 1, true));
  }

  /** Before any boundary, nothing is written. */
  lemma {:induction false} CoversStart(message: JString, breaks: seq<int>)
    requires WordBreaks(breaks, |message|)
    ensures Covers(message, breaks, 0, Progress([], 0))
  {
    assert message[..0] == [];
    if breaks == [] {
      assert message == [];
    }
  }

  /** One boundary keeps the lines written covering the message. */
  lemma {:induction false} CoversStep(message: JString, breaks: seq<int>, k: nat, p: Progress, r: Progress)
    requires WordBreaks(breaks, |message|) && k < |breaks| && p.start <= Prev(breaks, k) && Covers(message, breaks, k, p)
    requires Prev(breaks, k) < breaks[k]
    requires r == Progress(p.lines + Emitted(message, breaks[k], p.start, Prev(breaks, k), true),
                           NextStart(breaks[k], p.start, Prev(breaks, k)))
    ensures Covers(message, breaks, k + 1, r)
  {
    var end := breaks[k];
    assert k > 0 ==> breaks[k - 1] < end;
    assert k + 1 < |breaks| ==> end < breaks[|breaks| - 1];
    CoverStep(message, p.lines, p.start, end, Prev(breaks, k));
    if end == |message| {
      assert message[..end] == message;
    }
  }

  lemma {:induction false} CoverStep(message: JString, lines: seq<JString>, start: nat, end: int, prevEnd: nat)
    requires start <= prevEnd < end <= |message| && Flatten(lines) == message[..start]
    ensures Flatten(lines + Emitted(message, end, start, prevEnd, true)) ==
      message[..if end == |message| then end else NextStart(end, start, prevEnd)]
  {
    FlattenAppend(lines, Emitted(message, end, start, prevEnd, true));
    EmittedCovers(message, end, start, prevEnd);
    SliceJoin(message, start, if end == |message| then end else NextStart(end, start, prevEnd));
  }


  /** Corrected, the pieces of the long form are the whole message, in order. */
  lemma {:induction false} CorrectedSegmentsCover(message: JString, breaks: seq<int>)
    requires WordBreaks(breaks, |message|)
    ensures Flatten(Segments(message, breaks, true)) == message
  {
    RunCovers(message, breaks, |breaks|);
  }

  // ---------------------------------------------------------------------
  // Reading back what formatMessage writes

  /** No backslash and no line terminator: text written between quotes that the reader takes back unchanged. */
  predicate Plain(s: JString) {
    forall k | 0 <= k < |s| :: s[k] != BACKSLASH && !IsLineTerminator(s[k])
  }

  lemma {:induction false} PlainSplit(a: JString, b: JString)
    requires Plain(a + b)
    ensures Plain(a) && Plain(b)
  {
    forall k | 0 <= k < |a| ensures a[k] != BACKSLASH && !IsLineTerminator(a[k]) {
      assert a[k] == (a + b)[k];
    }
    forall k | 0 <= k < |b| ensures b[k] != BACKSLASH && !IsLineTerminator(b[k]) {
      assert b[k] == (a + b)[|a| + k];
    }
  }

  /** A piece in quotes holds the piece. */
  lemma {:induction false} QuotedPiece(seg: JString)
    requires Plain(seg)
    ensures BetweenQuotes([DOUBLE_QUOTE] + seg + [DOUBLE_QUOTE], true) == Some(seg)
  {
    var none: JString := [];
    assert none + [DOUBLE_QUOTE] + seg + [DOUBLE_QUOTE] == [DOUBLE_QUOTE] + seg + [DOUBLE_QUOTE];
    assert BackslashesBefore(seg, |seg|) == 0;
    QuotedLine(none, seg, true);
  }

  /** On a line that is a piece in quotes, the scanner's next token starts with the quote and ends within the line. */
  lemma {:induction false} QuotedPieceToken(seg: JString, more: JString)
    requires Plain(seg)
    ensures QuoteTokenNext([DOUBLE_QUOTE] + seg + [DOUBLE_QUOTE] + [NEWLINE] + more)
  {
    var line := [DOUBLE_QUOTE] + seg + [DOUBLE_QUOTE];
    var input := line + [NEWLINE] + more;
    assert input[0] == DOUBLE_QUOTE && input[|line|] == NEWLINE;
    TokenBefore(input, |line|);
    var t := NextToken(input).value;
    assert t[..1] == [DOUBLE_QUOTE];
    forall k | 0 <= k < |t| ensures !IsLineTerminator(t[k]) {
      assert t[k] == line[k];
      if 0 < k < |line| - 1 {
        assert line[k] == seg[k - 1];
      }
    }
  }

  /** A piece in quotes, then a line feed, is one piece of the scanner's, whose line is the piece in quotes. */
  lemma {:induction false} QuotedPieceLine(seg: JString, more: JString)
    requires Plain(seg)
    ensures var line := [DOUBLE_QUOTE] + seg + [DOUBLE_QUOTE];
      ScannerPieces(line + [NEWLINE] + more) == [line + [NEWLINE]] + ScannerPieces(more) && LineOf(line + [NEWLINE]) == line
  {
    var line := [DOUBLE_QUOTE] + seg + [DOUBLE_QUOTE];
    forall k | 0 <= k < |line| ensures !IsLineTerminator(line[k]) {
      if 0 < k < |line| - 1 {
        assert line[k] == seg[k - 1];
      }
    }
    LinePiece(line);
    ScannerPiecesAppend(line + [NEWLINE], more);
  }

  /** The lines `formatMessage` writes for pieces without terminators are read back as they are. */
  lemma {:induction false} QuotedUnbroken(segs: seq<JString>)
    requires Plain(Flatten(segs))
    ensures Lines(ScannerPieces(Text(Quoted(segs)))) == Quoted(segs)
    decreases |segs|
  {
    if segs != [] {
      var line := [DOUBLE_QUOTE] + segs[0] + [DOUBLE_QUOTE];
      PlainSplit(segs[0], Flatten(segs[1..]));
      QuotedUnbroken(segs[1..]);
      QuotedPieceLine(segs[0], Text(Quoted(segs[1..])));
      assert Quoted(segs)[0] == line && Quoted(segs)[1..] == Quoted(segs[1..]);
      LinesAppend([line + [NEWLINE]], ScannerPieces(Text(Quoted(segs[1..]))));
      Uncons(Quoted(segs));
    }
  }

  /** Read by the scanner, the lines of pieces in quotes continue a message with the pieces, joined. */
  lemma {:induction false} ContinuationQuotedLines(segs: seq<JString>, after: seq<JString>)
    requires Plain(Flatten(segs))
    ensures Continuation(ScannerPieces(Text(Quoted(segs) + after)), true) ==
      Flatten(segs) + Continuation(ScannerPieces(Text(after)), true)
  {
    TextAppend(Quoted(segs), after);
    ContinuationQuoted(segs, Text(after));
  }

  /** The text of lines of pieces in quotes continues a message with the pieces, joined. */
  lemma {:induction false} ContinuationQuoted(segs: seq<JString>, after: JString)
    requires Plain(Flatten(segs))
    ensures Continuation(ScannerPieces(Text(Quoted(segs)) + after), true) == Flatten(segs) + Continuation(ScannerPieces(after), true)
    decreases |segs|
  {
    if segs == [] {
      assert Text(Quoted(segs)) + after == after;
    } else {
      var line := [DOUBLE_QUOTE] + segs[0] + [DOUBLE_QUOTE];
      var tail := Text(Quoted(segs[1..])) + after;
      assert Quoted(segs)[0] == line && Quoted(segs)[1..] == Quoted(segs[1..]);
      assert Text(Quoted(segs)) + after == line + [NEWLINE] + tail;
      PlainSplit(segs[0], Flatten(segs[1..]));
      ContinuationQuoted(segs[1..], after);
      ContinuationPiece(segs[0], tail);
      AppendAssoc(segs[0], Flatten(segs[1..]), Continuation(ScannerPieces(after), true));
    }
  }

  /** One line of a piece in quotes continues the message with the piece. */
  lemma {:induction false} ContinuationPiece(seg: JString, tail: JString)
    requires Plain(seg)
    ensures Continuation(ScannerPieces([DOUBLE_QUOTE] + seg + [DOUBLE_QUOTE] + [NEWLINE] + tail), true) ==
      seg + Continuation(ScannerPieces(tail), true)
  {
    var line := [DOUBLE_QUOTE] + seg + [DOUBLE_QUOTE];
    var pieces := ScannerPieces(line + [NEWLINE] + tail);
    QuotedPieceLine(seg, tail);
    QuotedPiece(seg);
    QuotedPieceToken(seg, tail);
    ScannerPiecesKeep(tail);
    assert pieces[0] == line + [NEWLINE] && pieces[1..] == ScannerPieces(tail);
    assert Flatten(pieces) == line + [NEWLINE] + tail;
  }

  /**
    Corrected, the lines `formatMessage` writes hold the message: read
    from their first line on, with lines after them that do not continue
    a message, they give the message back, when the prefix holds no quote
    and the message no backslash and no line terminator.
   */
  lemma {:induction false} FormatReadBack(prefix: JString, message: JString, breaks: seq<int>, after: seq<JString>)
    requires WordBreaks(breaks, |message|) && DOUBLE_QUOTE !in prefix && Plain(message)
    requires Continuation(ScannerPieces(Text(after)), true) == []
    ensures var lines := FormatLines(prefix, message, breaks, true);
      lines != [] && ExtractMessage(lines[0], lines[1..] + after, true) == Some(message)
  {
    var lines := FormatLines(prefix, message, breaks, true);
    if MAX_LINE_LEN > |message| + |prefix| + 2 {
      ShortReadBack(prefix, message, after);
      assert lines[1..] + after == after;
    } else {
      LongReadBack(prefix, message, breaks, after);
      assert lines[1..] == Quoted(Segments(message, breaks, true));
    }
  }

  lemma {:induction false} ShortReadBack(prefix: JString, message: JString, after: seq<JString>)
    requires DOUBLE_QUOTE !in prefix && Plain(message) && Continuation(ScannerPieces(Text(after)), true) == []
    ensures ExtractMessage(prefix + [DOUBLE_QUOTE] + message + [DOUBLE_QUOTE], after, true) == Some(message)
  {
    AppendEmpty(message);
    assert BackslashesBefore(message, |message|) == 0;
    QuotedLine(prefix, message, true);
  }

  lemma {:induction false} LongReadBack(prefix: JString, message: JString, breaks: seq<int>, after: seq<JString>)
    requires WordBreaks(breaks, |message|) && DOUBLE_QUOTE !in prefix && Plain(message)
    requires Continuation(ScannerPieces(Text(after)), true) == []
    ensures ExtractMessage(prefix + [DOUBLE_QUOTE, DOUBLE_QUOTE], Quoted(Segments(message, breaks, true)) + after, true) == Some(message)
  {
    CorrectedSegmentsCover(message, breaks);
    QuotedPiecesRead(prefix, Segments(message, breaks, true), after);
  }

  /** An empty message in quotes, then pieces in quotes on lines of their own, reads as the pieces joined. */
  lemma {:induction false} QuotedPiecesRead(prefix: JString, segs: seq<JString>, after: seq<JString>)
    requires DOUBLE_QUOTE !in prefix && Plain(Flatten(segs))
    requires Continuation(ScannerPieces(Text(after)), true) == []
    ensures ExtractMessage(prefix + [DOUBLE_QUOTE, DOUBLE_QUOTE], Quoted(segs) + after, true) == Some(Flatten(segs))
  {
    EmptyQuotedLine(prefix);
    ContinuationQuotedOnly(segs, after);
    ExtractMessageFrom(prefix + [DOUBLE_QUOTE, DOUBLE_QUOTE], Quoted(segs) + after, true, [], Flatten(segs));
  }

  lemma {:induction false} EmptyQuotedLine(prefix: JString)
    requires DOUBLE_QUOTE !in prefix
    ensures BetweenQuotes(prefix + [DOUBLE_QUOTE, DOUBLE_QUOTE], true) == Some([])
  {
    var none: JString := [];
    assert prefix + [DOUBLE_QUOTE] + none + [DOUBLE_QUOTE] == prefix + [DOUBLE_QUOTE, DOUBLE_QUOTE];
    QuotedLine(prefix, none, true);
  }

  lemma {:induction false} ContinuationQuotedOnly(segs: seq<JString>, after: seq<JString>)
    requires Plain(Flatten(segs)) && Continuation(ScannerPieces(Text(after)), true) == []
    ensures Flatten(segs) == [] + Continuation(ScannerPieces(Text(Quoted(segs) + after)), true)
  {
    ContinuationQuotedLines(segs, after);
    AppendEmpty(Flatten(segs));
  }

  // ---------------------------------------------------------------------
  // merge

  /** A line that goes on with the `msgid` lines: its first unit that `trim` keeps is a quote. */
  predicate IsQuoteLine(line: JString)
    decreases |line|
  {
    line != [] && if IsTrimmed(line[0]) then IsQuoteLine(line[1..]) else line[0] == DOUBLE_QUOTE
  }

  lemma {:induction false} IsQuoteLineAt(line: JString)
    ensures IsQuoteLine(line) <==> TrimStartCount(line) < |line| && line[TrimStartCount(line)] == DOUBLE_QUOTE
    decreases |line|
  {
    if line != [] && IsTrimmed(line[0]) {
      IsQuoteLineAt(line[1..]);
      assert TrimStartCount(line) == 1 + TrimStartCount(line[1..]);
    }
  }

  /** It is `line.trim().startsWith("\"")`. */
  lemma {:induction false} IsQuoteLineTrim(line: JString)
    ensures IsQuoteLine(line) <==> StartsWith(Trim(line), [DOUBLE_QUOTE])
  {
    IsQuoteLineAt(line);
    var n := TrimStartCount(line);
    if n < |line| {
      assert !IsTrimmed(line[n]);
      assert Trim(line)[0] == line[n];
    }
  }

  /** The first line from `i` on that does not go on with the `msgid` lines, or the end. */
  function QuoteLinesEnd(lines: seq<JString>, i: nat): (r: nat)
    requires i <= |lines|
    ensures i <= r <= |lines|
    decreases |lines| - i
  {
    if i < |lines| && IsQuoteLine(lines[i]) then QuoteLinesEnd(lines, i + 1) else i
  }

  /** The lines from `i` up to it go on with the `msgid` lines, and it does not. */
  lemma {:induction false} QuoteLinesEndIs(lines: seq<JString>, i: nat)
    requires i <= |lines|
    ensures forall j | i <= j < QuoteLinesEnd(lines, i) :: IsQuoteLine(lines[j])
    ensures QuoteLinesEnd(lines, i) < |lines| ==> !IsQuoteLine(lines[QuoteLinesEnd(lines, i)])
    decreases |lines| - i
  {
    if i < |lines| && IsQuoteLine(lines[i]) {
      QuoteLinesEndIs(lines, i + 1);
    }
  }

  /** The first empty line from `i` on, or the end. */
  function BlankFrom(lines: seq<JString>, i: nat): (r: nat)
    requires i <= |lines|
    ensures i <= r <= |lines|
    decreases |lines| - i
  {
    if i < |lines| && lines[i] != [] then BlankFrom(lines, i + 1) else i
  }

  /** The lines from `i` up to it are not empty, and it is. */
  lemma {:induction false} BlankFromIs(lines: seq<JString>, i: nat)
    requires i <= |lines|
    ensures forall j | i <= j < BlankFrom(lines, i) :: lines[j] != []
    ensures BlankFrom(lines, i) < |lines| ==> lines[BlankFrom(lines, i)] == []
    decreases |lines| - i
  {
    if i < |lines| && lines[i] != [] {
      BlankFromIs(lines, i + 1);
    }
  }

  /** `breaksFor(v)` gives the word boundaries of every text `v`, as `BreakIterator` for the language does. */
  ghost predicate WordBreaker(breaksFor: JString -> seq<int>) {
    forall v :: WordBreaks(breaksFor(v), |v|)
  }

  /** The key of an entry has a translation: it is there, not empty and in the map. */
  predicate HasTranslation(key: Option<JString>, resMap: map<JString, JString>) {
    key.Some? && key.value != [] && key.value in resMap
  }

  /**
    The lines `merge` writes for the entry of the `msgid ` line `i`, whose
    key is `key`, when the lines from `i + 1` up to `q` go on with it and
    `b` is the next empty line after `q`: with a translation after a
    `msgstr ` line, the `msgid` lines, the translation written by
    `formatMessage` and an empty line; otherwise the lines up to and with
    the empty line.
   */
  function EntryLines(lines: seq<JString>, i: nat, q: nat, b: nat, key: Option<JString>, resMap: map<JString, JString>,
                      breaksFor: JString -> seq<int>, corrected: bool): seq<JString>
    requires i < q < b <= |lines| && WordBreaker(breaksFor)
  {
    if StartsWith(lines[q], MSGSTR) && HasTranslation(key, resMap) then
      var v := resMap[key.value];
      lines[i..q] + FormatLines(MSGSTR, v, breaksFor(v), corrected) + [[]]
    else lines[i..if b < |lines| then b + 1 else b]
  }

  /** What one round of the loop of `merge` writes, and the line the next round starts from. */
  datatype Written = Written(lines: seq<JString>, next: nat)

  /**
    One round of the loop of `merge` from line `i` of the base template.
    A line that does not start with `msgid ` is copied. A `msgid ` line
    and the lines that go on with it are copied, and the input ending
    there throws, as `line` is then null; otherwise the entry is written
    as `EntryLines` says, and the next round starts after the empty line.
   */
  function MergeStep(lines: seq<JString>, i: nat, resMap: map<JString, JString>, breaksFor: JString -> seq<int>,
                     corrected: bool): (r: Result<Written>)
    requires i < |lines| && WordBreaker(breaksFor)
    ensures r.Ok? ==> i < r.value.next <= |lines|
  {
    if !StartsWith(lines[i], MSGID) then Ok(Written([lines[i]], i + 1))
    else EntryStep(lines, i, ExtractMessage(lines[i], lines[i + 1..], corrected), resMap, breaksFor, corrected)
  }

  /** The round of a `msgid ` line `i` whose key is `key`. */
  function EntryStep(lines: seq<JString>, i: nat, key: Option<JString>, resMap: map<JString, JString>,
                     breaksFor: JString -> seq<int>, corrected: bool): (r: Result<Written>)
    requires i < |lines| && WordBreaker(breaksFor)
    ensures r.Ok? ==> i < r.value.next <= |lines|
  {
    EntryAt(lines, i, QuoteLinesEnd(lines, i + 1), key, resMap, breaksFor, corrected)
  }

  /** The round of a `msgid ` line `i` whose `msgid` lines end before line `q`. */
  function EntryAt(lines: seq<JString>, i: nat, q: nat, key: Option<JString>, resMap: map<JString, JString>,
                   breaksFor: JString -> seq<int>, corrected: bool): (r: Result<Written>)
    requires i < q <= |lines| && WordBreaker(breaksFor)
    ensures r.Ok? ==> i < r.value.next <= |lines|
  {
    if q == |lines| then Err(NullPointerException)
    else
      var b := BlankFrom(lines, q + 1);
      Ok(Written(EntryLines(lines, i, q, b, key, resMap, breaksFor, corrected), if b == |lines| then b else b + 1))
  }

  /** What `merge` writes from line `i` of the base template on, as lines, or what it throws. */
  function MergedFrom(lines: seq<JString>, i: nat, resMap: map<JString, JString>, breaksFor: JString -> seq<int>,
                      corrected: bool): Result<seq<JString>>
    requires i <= |lines| && WordBreaker(breaksFor)
    decreases |lines| - i
  {
    if i == |lines| then Ok([])
    else
      var r := MergeStep(lines, i, resMap, breaksFor, corrected);
      if r.Err? then Err(r.thrown) else Then(r.value.lines, MergedFrom(lines, r.value.next, resMap, breaksFor, corrected))
  }

  /** Without a translation, an entry writes exactly the lines its round reads. */
  lemma {:induction false} EntryCopies(lines: seq<JString>, i: nat, key: Option<JString>, resMap: map<JString, JString>,
                                       breaksFor: JString -> seq<int>, corrected: bool)
    requires i < |lines| && WordBreaker(breaksFor) && !HasTranslation(key, resMap)
    ensures var r := EntryStep(lines, i, key, resMap, breaksFor, corrected);
      r.Ok? ==> r.value.lines == lines[i..r.value.next]
  {
  }

  /** Without translations, a round writes exactly the lines it reads. */
  lemma {:induction false} StepCopies(lines: seq<JString>, i: nat, breaksFor: JString -> seq<int>, corrected: bool)
    requires i < |lines| && WordBreaker(breaksFor)
    ensures var r := MergeStep(lines, i, map[], breaksFor, corrected);
      r.Ok? ==> r.value.lines == lines[i..r.value.next]
  {
    if StartsWith(lines[i], MSGID) {
      EntryCopies(lines, i, ExtractMessage(lines[i], lines[i + 1..], corrected), map[], breaksFor, corrected);
    }
  }

  /** With no translations, `merge` copies the base template, unless it throws. */
  lemma {:induction false} MergeUntranslated(lines: seq<JString>, i: nat, breaksFor: JString -> seq<int>, corrected: bool)
    requires i <= |lines| && WordBreaker(breaksFor)
    ensures MergedFrom(lines, i, map[], breaksFor, corrected).Ok? ==> MergedFrom(lines, i, map[], breaksFor, corrected).value == lines[i..]
    decreases |lines| - i
  {
    if i < |lines| {
      var r := MergeStep(lines, i, map[], breaksFor, corrected);
      StepCopies(lines, i, breaksFor, corrected);
      if r.Ok? {
        var n := r.value.next;
        MergeUntranslated(lines, n, breaksFor, corrected);
        JoinRest(lines, i, n, MergedFrom(lines, n, map[], breaksFor, corrected));
      }
    } else {
      assert lines[i..] == [];
    }
  }

  /** Writing the lines from `i` to `n` before what copies the lines from `n` on copies the lines from `i` on. */
  lemma {:induction false} JoinRest(lines: seq<JString>, i: nat, n: nat, rest: Result<seq<JString>>)
    requires i <= n <= |lines| && (rest.Ok? ==> rest.value == lines[n..])
    ensures Then(lines[i..n], rest).Ok? ==> Then(lines[i..n], rest).value == lines[i..]
  {
    assert lines[i..n] + lines[n..] == lines[i..];
  }

  /** A template without `msgid ` lines is copied as it is. */
  lemma {:induction false} MergeWithoutMsgid(lines: seq<JString>, i: nat, resMap: map<JString, JString>,
                                             breaksFor: JString -> seq<int>, corrected: bool)
    requires i <= |lines| && WordBreaker(breaksFor)
    requires forall j | i <= j < |lines| :: !StartsWith(lines[j], MSGID)
    ensures MergedFrom(lines, i, resMap, breaksFor, corrected) == Ok(lines[i..])
    decreases |lines| - i
  {
    if i < |lines| {
      MergeWithoutMsgid(lines, i + 1, resMap, breaksFor, corrected);
      assert !StartsWith(lines[i], MSGID) && [lines[i]] == lines[i..i + 1];
      JoinRest(lines, i, i + 1, MergedFrom(lines, i + 1, resMap, breaksFor, corrected));
    } else {
      assert lines[i..] == [];
    }
  }

  /** `merge` throws only at a `msgid ` line whose following quoted lines run to the end of the input. */
  lemma {:induction false} MergeThrowsAtEnd(lines: seq<JString>, i: nat, resMap: map<JString, JString>,
                                            breaksFor: JString -> seq<int>, corrected: bool)
    requires i <= |lines| && WordBreaker(breaksFor)
    ensures MergedFrom(lines, i, resMap, breaksFor, corrected).Err? ==>
      MergedFrom(lines, i, resMap, breaksFor, corrected) == Err(NullPointerException) &&
      exists j | i <= j < |lines| :: StartsWith(lines[j], MSGID) && QuoteLinesEnd(lines, j + 1) == |lines|
    decreases |lines| - i
  {
    if i < |lines| {
      var r := MergeStep(lines, i, resMap, breaksFor, corrected);
      if StartsWith(lines[i], MSGID) {
        StepThrows(lines, i, ExtractMessage(lines[i], lines[i + 1..], corrected), resMap, breaksFor, corrected);
      }
      if r.Ok? {
        MergeThrowsAtEnd(lines, r.value.next, resMap, breaksFor, corrected);
      }
    }
  }

  lemma {:induction false} StepThrows(lines: seq<JString>, i: nat, key: Option<JString>, resMap: map<JString, JString>,
                                      breaksFor: JString -> seq<int>, corrected: bool)
    requires i < |lines| && WordBreaker(breaksFor)
    ensures EntryStep(lines, i, key, resMap, breaksFor, corrected).Err? <==> QuoteLinesEnd(lines, i + 1) == |lines|
    ensures EntryStep(lines, i, key, resMap, breaksFor, corrected).Err? ==>
      EntryStep(lines, i, key, resMap, breaksFor, corrected) == Err(NullPointerException)
  {
  }

  /** Corrected, the message read from line `n` of `out` on is `v`. */
  predicate ReadsBack(out: seq<JString>, n: nat, v: JString) {
    n < |out| && ExtractMessage(out[n], out[n + 1..], true) == Some(v)
  }

  /**
    Corrected, the lines `merge` writes for an entry with a translation
    hold the translation: `EntryLines` writes the `msgid` lines `a`, the
    lines `formatMessage` gives for the translation after `msgstr ` and
    an empty line, and read from the `msgstr` line on they give the
    translation back, when it holds no backslash and no line terminator.
   */
  lemma {:induction false} TranslatedLinesRead(out: seq<JString>, a: seq<JString>, prefix: JString, v: JString, breaks: seq<int>, n: nat)
    requires WordBreaks(breaks, |v|) && DOUBLE_QUOTE !in prefix && Plain(v)
    requires out == a + FormatLines(prefix, v, breaks, true) + [[]] && n == |a|
    ensures ReadsBack(out, n, v)
  {
    var empty: JString := [];
    EmptyLineEnds();
    FormatReadBack(prefix, v, breaks, [empty]);
    ReadBackAround(out, a, FormatLines(prefix, v, breaks, true), [empty], v, n);
  }

  /** An empty line continues no message. */
  lemma {:induction false} EmptyLineEnds()
    ensures Continuation(ScannerPieces(Text([[]])), true) == []
  {
    var empty: JString := [];
    var text := Text([empty]);
    assert text == [NEWLINE];
    ScannerPiecesKeep(text);
    assert LeadingWhitespace(text) == 1 by {
      assert text[1..] == [];
    }
  }

  lemma {:induction false} ReadBackAround(out: seq<JString>, a: seq<JString>, f: seq<JString>, c: seq<JString>, v: JString, n: nat)
    requires out == a + f + c && n == |a| && f != [] && ExtractMessage(f[0], f[1..] + c, true) == Some(v)
    ensures n < |out| && ExtractMessage(out[n], out[n + 1..], true) == Some(v)
  {
    assert out[|a|] == f[0];
    assert out[|a| + 1..] == f[1..] + c;
  }

  /** The `do`-`while` loop copying the `msgid` line and those that go on with it: where it stops. */
  method SkipQuoteLines(lines: seq<JString>, from: nat) returns (q: nat)
    requires from <= |lines|
    ensures q == QuoteLinesEnd(lines, from)
  {
    q := from;
    while q < |lines| && IsQuoteLine(lines[q])
      invariant from <= q <= |lines|
      invariant QuoteLinesEnd(lines, q) == QuoteLinesEnd(lines, from)
    {
      q := q + 1;
    }
  }

  /** The loops copying or skipping the old `msgstr` lines: where they stop. */
  method SkipToBlank(lines: seq<JString>, from: nat) returns (b: nat)
    requires from <= |lines|
    ensures b == BlankFrom(lines, from)
  {
    b := from;
    while b < |lines| && lines[b] != []
      invariant from <= b <= |lines|
      invariant BlankFrom(lines, b) == BlankFrom(lines, from)
    {
      b := b + 1;
    }
  }

  /** The lines the entry writes: the translation, by `formatMessage`, or the old lines. */
  method WriteEntry(lines: seq<JString>, i: nat, q: nat, b: nat, key: Option<JString>, resMap: map<JString, JString>,
                    breaksFor: JString -> seq<int>, corrected: bool) returns (out: seq<JString>)
    requires i < q < b <= |lines| && WordBreaker(breaksFor)
    ensures out == EntryLines(lines, i, q, b, key, resMap, breaksFor, corrected)
  {
    if StartsWith(lines[q], MSGSTR) && key.Some? && key.value != [] && key.value in resMap {
      var msgstr := FormatMessage(MSGSTR, resMap[key.value], breaksFor(resMap[key.value]), corrected);
      out := lines[i..q] + msgstr + [[]];
    } else {
      out := lines[i..if b < |lines| then b + 1 else b];
    }
  }

  /** The body of the loop of `merge`: one round from line `i`. */
  method MergeRound(lines: seq<JString>, i: nat, resMap: map<JString, JString>, breaksFor: JString -> seq<int>, corrected: bool)
    returns (r: Result<Written>)
    requires i < |lines| && WordBreaker(breaksFor)
    ensures r == MergeStep(lines, i, resMap, breaksFor, corrected)
  {
    if !StartsWith(lines[i], MSGID) {
      return Ok(Written([lines[i]], i + 1));
    }
    var key := ReadMessage(lines[i], lines[i + 1..], corrected);
    r := EntryRound(lines, i, key, resMap, breaksFor, corrected);
  }

  /** The round of a `msgid ` line: the `msgid` lines, then the translation or the old lines. */
  method EntryRound(lines: seq<JString>, i: nat, key: Option<JString>, resMap: map<JString, JString>,
                    breaksFor: JString -> seq<int>, corrected: bool) returns (r: Result<Written>)
    requires i < |lines| && WordBreaker(breaksFor)
    ensures r == EntryStep(lines, i, key, resMap, breaksFor, corrected)
  {
    var q := SkipQuoteLines(lines, i + 1);
    r := EntryRoundAt(lines, i, q, key, resMap, breaksFor, corrected);
  }

  /** The rest of the round, once the `msgid` lines end before line `q`. */
  method EntryRoundAt(lines: seq<JString>, i: nat, q: nat, key: Option<JString>, resMap: map<JString, JString>,
                      breaksFor: JString -> seq<int>, corrected: bool) returns (r: Result<Written>)
    requires i < q <= |lines| && WordBreaker(breaksFor)
    ensures r == EntryAt(lines, i, q, key, resMap, breaksFor, corrected)
  {
    if q == |lines| {
      return Err(NullPointerException);
    }
    var b := SkipToBlank(lines, q + 1);
    var out := WriteEntry(lines, i, q, b, key, resMap, breaksFor, corrected);
    r := Ok(Written(out, if b == |lines| then b else b + 1));
    EntryAtIs(lines, i, q, b, key, resMap, breaksFor, corrected, r);
  }

  lemma {:induction false} EntryAtIs(lines: seq<JString>, i: nat, q: nat, b: nat, key: Option<JString>,
                                     resMap: map<JString, JString>, breaksFor: JString -> seq<int>, corrected: bool, r: Result<Written>)
    requires i < q < |lines| && WordBreaker(breaksFor) && b == BlankFrom(lines, q + 1)
    requires r == Ok(Written(EntryLines(lines, i, q, b, key, resMap, breaksFor, corrected), if b == |lines| then b else b + 1))
    ensures r == EntryAt(lines, i, q, key, resMap, breaksFor, corrected)
  {
  }

  /**
    `merge`: the map of the translations by key, then the loop over the
    lines of the base template.
   */
  method Merge(lines: seq<JString>, data: seq<ResourceString>, breaksFor: JString -> seq<int>, corrected: bool)
    returns (r: Result<seq<JString>>)
    requires WordBreaker(breaksFor)
    ensures r == MergedFrom(lines, 0, MapByKey(data, ValueOf), breaksFor, corrected)
  {
    var resMap := CreateKeyValueMap(data);
    var output: seq<JString> := [];
    var i := 0;
    ThenNothing(MergedFrom(lines, 0, resMap, breaksFor, corrected));
    while i < |lines|
      invariant 0 <= i <= |lines|
      invariant Then(output, MergedFrom(lines, i, resMap, breaksFor, corrected)) == MergedFrom(lines, 0, resMap, breaksFor, corrected)
      decreases |lines| - i
    {
      var written := MergeRound(lines, i, resMap, breaksFor, corrected);
      if written.Err? {
        return Err(written.thrown);
      }
      ThenThen(output, written.value.lines, MergedFrom(lines, written.value.next, resMap, breaksFor, corrected));
      output := output + written.value.lines;
      i := written.value.next;
    }
    AppendEmpty(output);
    r := Ok(output);
  }
}
