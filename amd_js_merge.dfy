/**
  `AmdJsResource.merge`: the lines of a base AMD i18n file are copied, and
  the entry on each key line whose key the bundle holds is replaced by the
  bundle's value, laid out by `formatEntry`. The rules are line- and
  pattern-based: a key line is one `^\s*".+" *:.*` matches and that does not
  open an object; an entry ends on a line `.*[\},]\s*` matches; a replaced
  entry also ends before a line whose first token holds `}`, and then gets
  no trailing comma.

  The line breaking inside `formatEntry`, which follows a word-break
  iterator, is the parameter `layout`; its guard on the number of columns
  is modelled.
 */
module AmdJsMerge {
  import opened Wrappers
  import opened JavaText
  import opened ResourceStrings
  import opened LanguageBundles
  import opened UtilsMaps

  /** `MAX_COLUMNS`: the width `merge` lays entries out in. */
  const MAX_COLUMNS: int := 80

  /** `TAB_WIDTH`: the columns a tab counts for. */
  const TAB_WIDTH: nat := 4

  // ---------------------------------------------------------------------
  // Indentation helpers

  /** A code unit of an indentation prefix: a space or a tab. */
  predicate IsIndent(c: CodeUnit) {
    c == SPACE || c == TAB
  }

  /** The length of the longest prefix of spaces and tabs. */
  function TabPrefixLength(s: JString): (n: nat)
    ensures n <= |s|
  {
    if s != [] && IsIndent(s[0]) then 1 + TabPrefixLength(s[1..]) else 0
  }

  /** The prefix is all spaces and tabs, and what follows it is neither. */
  lemma {:induction false} TabPrefixIsLongest(s: JString)
    ensures forall k | 0 <= k < TabPrefixLength(s) :: IsIndent(s[k])
    ensures TabPrefixLength(s) == |s| || !IsIndent(s[TabPrefixLength(s)])
  {
    if s != [] && IsIndent(s[0]) {
      TabPrefixIsLongest(s[1..]);
    }
  }

  /** `extractTabPrefix`: advance over spaces and tabs, then cut. */
  method ExtractTabPrefix(s: JString) returns (r: JString)
    ensures r == s[..TabPrefixLength(s)]
  {
    TabPrefixIsLongest(s);
    var i := 0;
    while i < |s| && (s[i] == SPACE || s[i] == TAB)
      invariant 0 <= i <= TabPrefixLength(s)
    {
      i := i + 1;
    }
    r := s[..i];
  }

  /** `getTabStr`: continuation lines are indented by two tabs after a tab-indented line, else by eight spaces. */
  function TabStr(str: JString): (r: JString) {
    if str != [] && str[0] == TAB then [TAB, TAB] else [SPACE, SPACE, SPACE, SPACE, SPACE, SPACE, SPACE, SPACE]
  }

  /** The display width of white space: a tab counts four columns, a space one, anything else none. */
  function SpacesWidth(ws: JString): (r: nat) {
    if ws == [] then 0
    else SpacesWidth(ws[..|ws| - 1]) + (if ws[|ws| - 1] == TAB then TAB_WIDTH else if ws[|ws| - 1] == SPACE then 1 else 0)
  }

  /** The width is four columns per tab and one per space, wherever they stand. */
  lemma {:induction false} SpacesWidthCounts(ws: JString)
    ensures SpacesWidth(ws) == 4 * multiset(ws)[TAB] + multiset(ws)[SPACE]
  {
    if ws != [] {
      var init := ws[..|ws| - 1];
      SpacesWidthCounts(init);
      assert ws == init + [ws[|ws| - 1]];
      assert multiset(ws) == multiset(init) + multiset{ws[|ws| - 1]};
    }
  }

  /** Either continuation indent is eight columns wide. */
  lemma TabStrWidth(str: JString)
    ensures SpacesWidth(TabStr(str)) == 8
  {
    var t := TabStr(str);
    SpacesWidthCounts(t);
  }

  /** `getSpacesWidth`: add up the widths of the code units. */
  method GetSpacesWidth(whitespace: JString) returns (size: nat)
    ensures size == SpacesWidth(whitespace)
  {
    size := 0;
    var i := 0;
    while i < |whitespace|
      invariant 0 <= i <= |whitespace|
      invariant size == SpacesWidth(whitespace[..i])
    {
      assert whitespace[..i + 1][..i] == whitespace[..i];
      if whitespace[i] == TAB {
        size := size + TAB_WIDTH;
      } else if whitespace[i] == SPACE {
        size := size + 1;
      }
      i := i + 1;
    }
    assert whitespace[..i] == whitespace;
  }

  // ---------------------------------------------------------------------
  // formatEntry

  /** The line breaking of `formatEntry`: key, value, base indent and continuation indent to text. */
  type Layout = (JString, JString, JString, JString) -> JString

  /**
    `formatEntry`: with fewer columns than the base indent, the continuation
    indent, two quotes on each side and a separator need, it throws
    IllegalArgumentException. Otherwise `extractText` cuts the key and then
    the value at word breaks; on an empty text the break iterator's first
    boundary is `DONE` (-1), so `substring(0, -1)` throws
    StringIndexOutOfBoundsException. A non-empty key and value are laid out.
   */
  function FormatEntry(key: JString, value: JString, maxColumn: int, baseIndent: JString, indent: JString, layout: Layout)
    : (r: Result<JString>)
    ensures r.Err? <==> maxColumn < |baseIndent| + |indent| + 5 || key == [] || value == []
    ensures r == Err(IllegalArgumentException) <==> maxColumn < |baseIndent| + |indent| + 5
    ensures r == Err(StringIndexOutOfBoundsException) <==>
      maxColumn >= |baseIndent| + |indent| + 5 && (key == [] || value == [])
  {
    if maxColumn < |baseIndent| + |indent| + 5 then Err(IllegalArgumentException)
    else if key == [] || value == [] then Err(StringIndexOutOfBoundsException)
    else Ok(layout(key, value, baseIndent, indent))
  }

  /**
    In `merge` the guard rejects a key line indented by 74 code units or
    more when the indent starts with a tab, and by 68 or more otherwise.
   */
  lemma MergeGuard(key: JString, value: JString, baseIndent: JString, layout: Layout)
    ensures baseIndent != [] && baseIndent[0] == TAB ==>
      (FormatEntry(key, value, MAX_COLUMNS, baseIndent, TabStr(baseIndent), layout) == Err(IllegalArgumentException) <==>
        |baseIndent| >= 74)
    ensures !(baseIndent != [] && baseIndent[0] == TAB) ==>
      (FormatEntry(key, value, MAX_COLUMNS, baseIndent, TabStr(baseIndent), layout) == Err(IllegalArgumentException) <==>
        |baseIndent| >= 68)
  {
  }

  // ---------------------------------------------------------------------
  // The patterns

  /** `\s`: space, tab, line feed, vertical tab, form feed or carriage return. */
  predicate IsRegexSpace(c: CodeUnit) {
    c == SPACE || 0x09 <= c <= 0x0D
  }

  /** The number of leading `\s` code units. */
  function LeadingRegexSpaces(s: JString): (n: nat)
    ensures n <= |s|
  {
    if s != [] && IsRegexSpace(s[0]) then 1 + LeadingRegexSpaces(s[1..]) else 0
  }

  lemma {:induction false} LeadingRegexSpacesAre(s: JString)
    ensures forall k | 0 <= k < LeadingRegexSpaces(s) :: IsRegexSpace(s[k])
    ensures LeadingRegexSpaces(s) == |s| || !IsRegexSpace(s[LeadingRegexSpaces(s)])
  {
    if s != [] && IsRegexSpace(s[0]) {
      LeadingRegexSpacesAre(s[1..]);
    }
  }

  /** Spaces up to `n`, then a unit that is not one: `n` leading spaces. */
  lemma {:induction false} LeadingRegexSpacesAt(s: JString, n: nat)
    requires n < |s| && !IsRegexSpace(s[n]) && forall k | 0 <= k < n :: IsRegexSpace(s[k])
    ensures LeadingRegexSpaces(s) == n
    decreases n
  {
    if n > 0 {
      forall k | 0 <= k < n - 1 ensures IsRegexSpace(s[1..][k]) {
        assert s[1..][k] == s[k + 1];
      }
      LeadingRegexSpacesAt(s[1..], n - 1);
    }
  }

  /** The number of trailing `\s` code units. */
  function TrailingRegexSpaces(s: JString): (n: nat)
    ensures n <= |s|
  {
    if s != [] && IsRegexSpace(s[|s| - 1]) then 1 + TrailingRegexSpaces(s[..|s| - 1]) else 0
  }

  lemma {:induction false} TrailingRegexSpacesAre(s: JString)
    ensures forall k | |s| - TrailingRegexSpaces(s) <= k < |s| :: IsRegexSpace(s[k])
    ensures TrailingRegexSpaces(s) == |s| || !IsRegexSpace(s[|s| - TrailingRegexSpaces(s) - 1])
  {
    if s != [] && IsRegexSpace(s[|s| - 1]) {
      TrailingRegexSpacesAre(s[..|s| - 1]);
    }
  }

  /** ` *:` matches at position `p`. */
  predicate SpacesThenColon(line: JString, p: nat)
    decreases |line| - p
  {
    p < |line| && (line[p] == COLON || (line[p] == SPACE && SpacesThenColon(line, p + 1)))
  }

  /** The colon that ends the run of spaces at `p`. */
  function ColonAfter(line: JString, p: nat): (k: nat)
    requires SpacesThenColon(line, p)
    ensures p <= k < |line| && line[k] == COLON
    decreases |line| - p
  {
    if line[p] == COLON then p else ColonAfter(line, p + 1)
  }

  /** Only spaces stand between `p` and that colon. */
  lemma {:induction false} ColonAfterSpaces(line: JString, p: nat)
    requires SpacesThenColon(line, p)
    ensures forall a | p <= a < ColonAfter(line, p) :: line[a] == SPACE
    decreases |line| - p
  {
    if line[p] != COLON {
      ColonAfterSpaces(line, p + 1);
    }
  }

  /** Spaces from `p` up to a colon at `k` make ` *:` match at `p`. */
  lemma {:induction false} SpacesThenColonAt(line: JString, p: nat, k: nat)
    requires p <= k < |line| && line[k] == COLON
    requires forall a | p <= a < k :: line[a] == SPACE
    ensures SpacesThenColon(line, p)
    decreases k - p
  {
    if p < k {
      SpacesThenColonAt(line, p + 1, k);
    }
  }

  /** A quote followed by spaces and a colon: where the key of a key line can end. */
  predicate IsClosingQuote(line: JString, j: nat) {
    j < |line| && line[j] == DOUBLE_QUOTE && SpacesThenColon(line, j + 1)
  }

  /** The first quote at or after `from` that is followed by spaces and a colon. */
  function ClosingQuote(line: JString, from: nat): (r: Option<nat>)
    ensures r.Some? ==> from <= r.value && IsClosingQuote(line, r.value)
    decreases |line| - from
  {
    if from >= |line| then None
    else if IsClosingQuote(line, from) then Some(from)
    else ClosingQuote(line, from + 1)
  }

  /** The closing quote found is the first one; when none is found there is none. */
  lemma {:induction false} ClosingQuoteIsFirst(line: JString, from: nat)
    ensures ClosingQuote(line, from).Some? ==> forall j | from <= j < ClosingQuote(line, from).value :: !IsClosingQuote(line, j)
    ensures ClosingQuote(line, from).None? ==> forall j | from <= j :: !IsClosingQuote(line, j)
    decreases |line| - from
  {
    if from < |line| && !IsClosingQuote(line, from) {
      ClosingQuoteIsFirst(line, from + 1);
    }
  }

  /** `line.matches(KEY_LINE_PATTERN)`. */
  predicate IsKeyLine(line: JString) {
    var i := LeadingRegexSpaces(line);
    i < |line| && line[i] == DOUBLE_QUOTE && NoTerminator(line[i..]) && ClosingQuote(line, i + 2).Some?
  }

  /**
    A direct reading of `^\s*".+" *:.*` matched against the whole line:
    white space, a quote, at least one code unit, a quote, spaces, a colon,
    anything; none of it after the white space a line terminator.
   */
  ghost predicate KeyLinePattern(line: JString) {
    exists i, j, k :: KeyLineAt(line, i, j, k)
  }

  /** The pattern matches with the opening quote at `i`, the closing one at `j` and the colon at `k`. */
  ghost predicate KeyLineAt(line: JString, i: int, j: int, k: int) {
    0 <= i && i + 2 <= j < k < |line| &&
    (forall a | 0 <= a < i :: IsRegexSpace(line[a])) && line[i] == DOUBLE_QUOTE && line[j] == DOUBLE_QUOTE &&
    (forall a | j < a < k :: line[a] == SPACE) && line[k] == COLON && NoTerminator(line[i..])
  }

  /** A key line matches the pattern. */
  lemma KeyLineMatches(line: JString)
    requires IsKeyLine(line)
    ensures KeyLinePattern(line)
  {
    var i := LeadingRegexSpaces(line);
    LeadingRegexSpacesAre(line);
    var j := KeyEnd(line);
    var k := ColonAfter(line, j + 1);
    ColonAfterSpaces(line, j + 1);
    assert KeyLineAt(line, i, j, k);
  }

  /** A line the pattern matches is a key line. */
  lemma MatchIsKeyLine(line: JString)
    requires KeyLinePattern(line)
    ensures IsKeyLine(line)
  {
    var i', j, k :| KeyLineAt(line, i', j, k);
    LeadingRegexSpacesAt(line, i');
    var i := LeadingRegexSpaces(line);
    assert IsClosingQuote(line, j) by {
      SpacesThenColonAt(line, j + 1, k);
    }
    assert ClosingQuote(line, i + 2).Some? by {
      ClosingQuoteIsFirst(line, i + 2);
    }
    assert NoTerminator(line[i..]);
  }

  /** `line.matches(ENTRY_END_LINE_PATTERN)`: the last code unit before the trailing white space is `}` or `,`. */
  predicate IsEntryEnd(line: JString) {
    var t := |line| - TrailingRegexSpaces(line);
    t > 0 && (line[t - 1] == CLOSE_BRACE || line[t - 1] == COMMA) && NoTerminator(line[..t - 1])
  }

  /** A direct reading of `.*[\},]\s*` matched against the whole line. */
  ghost predicate EntryEndPattern(line: JString) {
    exists k :: EntryEndAt(line, k)
  }

  /** The pattern matches with the `}` or `,` at `k`. */
  ghost predicate EntryEndAt(line: JString, k: int) {
    0 <= k < |line| && (line[k] == CLOSE_BRACE || line[k] == COMMA) && NoTerminator(line[..k]) &&
    forall a | k < a < |line| :: IsRegexSpace(line[a])
  }

  /** The entry end test is the pattern, both ways. */
  lemma EntryEndIsPattern(line: JString)
    ensures IsEntryEnd(line) <==> EntryEndPattern(line)
  {
    var t := |line| - TrailingRegexSpaces(line);
    if EntryEndPattern(line) {
      var k :| EntryEndAt(line, k);
      TrailingRegexSpacesAre(line);
      assert k == t - 1;
    }
    if IsEntryEnd(line) {
      TrailingRegexSpacesAre(line);
      assert EntryEndAt(line, t - 1);
    }
  }

  /** `line.trim().endsWith("{")`: the line opens an object. */
  predicate OpensObject(line: JString) {
    var t := Trim(line);
    t != [] && t[|t| - 1] == OPEN_BRACE
  }

  // ---------------------------------------------------------------------
  // The scanner's next token

  /**
    `in.hasNext(CLOSE_BRACE_PATTERN)`: the next token of the text the
    scanner's pieces `rest` hold has a `}` (and, for `.`, no line terminator).
   */
  predicate ClosesNext(rest: seq<JString>) {
    var t := NextToken(Flatten(rest));
    t.Some? && CLOSE_BRACE in t.value && NoTerminator(t.value)
  }

  // ---------------------------------------------------------------------
  // The key of a key line

  /** `line.split(":")[0]`: the text before the first colon. */
  function BeforeColon(line: JString): (r: JString)
    ensures COLON !in r
  {
    var c := IndexOf(line, COLON);
    if c < 0 then line else line[..c]
  }

  /**
    The key as written: between the first and the last quote before the
    first colon, trimmed. With only one quote there the bounds cross and
    `substring` throws.
   */
  function KeyAsWritten(line: JString): (r: Result<JString>) {
    var left := BeforeColon(line);
    var begin := IndexOf(left, DOUBLE_QUOTE) + 1;
    var end := LastIndexOf(left, DOUBLE_QUOTE);
    if end < begin then Err(StringIndexOutOfBoundsException) else Ok(Trim(left[begin..end]))
  }

  /** The key of a key line: between its opening quote and the first quote followed by spaces and a colon, trimmed. */
  function KeyOfLine(line: JString): (r: JString)
    requires IsKeyLine(line)
  {
    var i := LeadingRegexSpaces(line);
    var j := ClosingQuote(line, i + 2).value;
    Trim(line[i + 1..j])
  }

  /** The key `merge` looks up: the code's as written, or the corrected one. */
  function KeyFor(line: JString, corrected: bool): (r: Result<JString>)
    requires IsKeyLine(line)
  {
    if corrected then Ok(KeyOfLine(line)) else KeyAsWritten(line)
  }

  /** Where the key of a key line ends. */
  function KeyEnd(line: JString): (j: nat)
    requires IsKeyLine(line)
    ensures LeadingRegexSpaces(line) + 2 <= j < |line| && IsClosingQuote(line, j)
  {
    ClosingQuote(line, LeadingRegexSpaces(line) + 2).value
  }

  /** With no colon inside the key, the key as written is the key of the line. */
  lemma KeyAsWrittenAgrees(line: JString)
    requires IsKeyLine(line) && COLON !in line[..KeyEnd(line)]
    ensures KeyAsWritten(line) == Ok(KeyOfLine(line))
  {
    var i := LeadingRegexSpaces(line);
    var j := KeyEnd(line);
    assert KeyAsWritten(line) == Ok(Trim(line[i + 1..j])) by {
      assert IsClosingQuote(line, j);
      var k := ColonAfter(line, j + 1);
      assert BeforeColon(line) == line[..k] by {
        BeforeColonOfKeyLine(line);
      }
      assert (forall a | 0 <= a < i :: line[a] != DOUBLE_QUOTE) && (forall a | j < a < k :: line[a] != DOUBLE_QUOTE) by {
        QuotesOfKeyLine(line);
      }
      KeyAsWrittenAt(line, i, j, k);
    }
    KeyOfLineAtEnd(line);
  }

  /** The key of a key line lies between its opening quote and `KeyEnd`. */
  lemma KeyOfLineAtEnd(line: JString)
    requires IsKeyLine(line)
    ensures KeyOfLine(line) == Trim(line[LeadingRegexSpaces(line) + 1..KeyEnd(line)])
  {
  }

  /** With the text before the first colon ending at `k`, and quotes only at `i` and `j` before it, the key as written lies between them. */
  lemma KeyAsWrittenAt(line: JString, i: nat, j: nat, k: nat)
    requires i < j < k <= |line| && line[i] == DOUBLE_QUOTE && line[j] == DOUBLE_QUOTE && BeforeColon(line) == line[..k]
    requires forall a | 0 <= a < i :: line[a] != DOUBLE_QUOTE
    requires forall a | j < a < k :: line[a] != DOUBLE_QUOTE
    ensures KeyAsWritten(line) == Ok(Trim(line[i + 1..j]))
  {
    QuotesAround(line, i, j, k);
    PrefixSlice(line, k, i + 1, j);
  }

  /** A slice of a prefix is the slice of the whole. */
  lemma PrefixSlice(s: JString, k: nat, a: nat, b: nat)
    requires a <= b <= k <= |s|
    ensures s[..k][a..b] == s[a..b]
  {
  }

  /**
    A quote at `i` with none before it, and one at `j` with none after it
    up to `k`: before `k`, the first and the last quote.
   */
  lemma QuotesAround(s: JString, i: nat, j: nat, k: nat)
    requires i <= j < k <= |s| && s[i] == DOUBLE_QUOTE && s[j] == DOUBLE_QUOTE
    requires forall a | 0 <= a < i :: s[a] != DOUBLE_QUOTE
    requires forall a | j < a < k :: s[a] != DOUBLE_QUOTE
    ensures IndexOf(s[..k], DOUBLE_QUOTE) == i && LastIndexOf(s[..k], DOUBLE_QUOTE) == j
  {
    var left := s[..k];
    forall a | 0 <= a < i ensures left[a] != DOUBLE_QUOTE {
      assert left[a] == s[a];
    }
    IndexOfIs(left, DOUBLE_QUOTE, i);
    forall a | j < a < |left| ensures left[a] != DOUBLE_QUOTE {
      assert left[a] == s[a];
    }
    LastIndexOfIs(left, DOUBLE_QUOTE, j);
  }

  /** With no colon inside the key, the text before the first colon ends at the colon after the key. */
  lemma BeforeColonOfKeyLine(line: JString)
    requires IsKeyLine(line) && COLON !in line[..KeyEnd(line)]
    ensures BeforeColon(line) == line[..ColonAfter(line, KeyEnd(line) + 1)]
  {
    var j := KeyEnd(line);
    assert IsClosingQuote(line, j);
    var k := ColonAfter(line, j + 1);
    ColonAfterSpaces(line, j + 1);
    assert forall a | 0 <= a < k :: line[a] != COLON by {
      forall a | 0 <= a < k ensures line[a] != COLON {
        if a < j {
          assert line[..j][a] == line[a];
        }
      }
    }
    IndexOfIs(line, COLON, k);
  }

  /** In a key line, no quote stands before the opening one, nor between the closing one and the colon. */
  lemma QuotesOfKeyLine(line: JString)
    requires IsKeyLine(line)
    ensures forall a | 0 <= a < LeadingRegexSpaces(line) :: line[a] != DOUBLE_QUOTE
    ensures forall a | KeyEnd(line) < a < ColonAfter(line, KeyEnd(line) + 1) :: line[a] != DOUBLE_QUOTE
  {
    LeadingRegexSpacesAre(line);
    ColonAfterSpaces(line, KeyEnd(line) + 1);
  }

  /** The first occurrence of `c` is at `k` when it stands there and nowhere before. */
  lemma IndexOfIs(s: JString, c: CodeUnit, k: nat)
    requires k < |s| && s[k] == c && forall a | 0 <= a < k :: s[a] != c
    ensures IndexOf(s, c) == k
  {
    assert c in s;
  }

  /** The last occurrence of `c` is at `k` when it stands there and nowhere after. */
  lemma LastIndexOfIs(s: JString, c: CodeUnit, k: nat)
    requires k < |s| && s[k] == c && forall a | k < a < |s| :: s[a] != c
    ensures LastIndexOf(s, c) == k
  {
  }

  // ---------------------------------------------------------------------
  // The rounds of merge

  /**
    The number of the scanner's pieces after `line` whose lines still
    belong to its entry: up to
    the line that ends it, or, when `stopAtClose`, until the next token
    holds `}`. Running out of lines before that throws.
   */
  function EntryRest(line: JString, next: seq<JString>, stopAtClose: bool): (r: Result<nat>)
    ensures r.Ok? ==> r.value <= |next|
    decreases |next|
  {
    if IsEntryEnd(line) || (stopAtClose && ClosesNext(next)) then Ok(0)
    else if next == [] then Err(NoSuchElementException)
    else
      var n := EntryRest(LineOf(next[0]), next[1..], stopAtClose);
      if n.Err? then n else Ok(n.value + 1)
  }

  /** A line `merge` replaces: a key line, not opening an object, whose key the bundle holds. */
  predicate Replaces(line: JString, kv: map<JString, JString>, corrected: bool) {
    IsKeyLine(line) && !OpensObject(line) && KeyFor(line, corrected).Ok? && KeyFor(line, corrected).value in kv
  }

  /** One round of `merge`: the number of the scanner's pieces it consumes and the lines it prints. */
  datatype Round = Round(count: nat, out: seq<JString>)

  /**
    A round of `merge` at the first of the scanner's pieces `rest`. A line that is not a key
    line, or opens an object, is copied. A key line whose key the bundle
    holds is replaced by the laid-out entry, with a comma unless a `}`
    token follows what it skips. Any other key line is copied with the
    following lines of its entry; as written the copy stops only at a line
    that ends the entry, corrected also before a `}` token, as the skip
    does.
   */
  function AmdRound(rest: seq<JString>, kv: map<JString, JString>, layout: Layout, corrected: bool): (r: Result<Round>)
    requires rest != []
    ensures r.Ok? ==> 1 <= r.value.count <= |rest|
  {
    var line := LineOf(rest[0]);
    if !IsKeyLine(line) || OpensObject(line) then Ok(Round(1, [line]))
    else
      var key := KeyFor(line, corrected);
      if key.Err? then Err(key.thrown)
      else if key.value in kv then ReplacedRound(rest, key.value, kv[key.value], layout)
      else CopiedRound(rest, corrected)
  }

  /**
    The round on a key line whose key the bundle holds: the laid-out entry,
    indented like the key line, then the lines of the old entry skipped.
   */
  function ReplacedRound(rest: seq<JString>, key: JString, value: JString, layout: Layout): (r: Result<Round>)
    requires rest != []
    ensures r.Ok? ==> 1 <= r.value.count <= |rest| && |r.value.out| == 1
    ensures r.Ok? ==> EntryRest(LineOf(rest[0]), rest[1..], true) == Ok(r.value.count - 1)
  {
    var left := BeforeColon(LineOf(rest[0]));
    var baseIndent := left[..TabPrefixLength(left)];
    var text := FormatEntry(key, value, MAX_COLUMNS, baseIndent, TabStr(baseIndent), layout);
    if text.Err? then Err(text.thrown)
    else
      var n := EntryRest(LineOf(rest[0]), rest[1..], true);
      if n.Err? then Err(n.thrown)
      else
        var comma := if ClosesNext(rest[1 + n.value..]) then [] else [COMMA];
        Ok(Round(1 + n.value, [text.value + comma]))
  }

  /** A bundle value that is empty never replaces an entry: formatting it throws. */
  lemma EmptyValueThrows(rest: seq<JString>, key: JString, layout: Layout)
    requires rest != []
    ensures ReplacedRound(rest, key, [], layout).Err?
  {
  }

  /** The round on a key line whose key the bundle does not hold: the lines of the entry, copied. */
  function CopiedRound(rest: seq<JString>, stopAtClose: bool): (r: Result<Round>)
    requires rest != []
    ensures r.Ok? ==> 1 <= r.value.count <= |rest| && r.value.out == Lines(rest[..r.value.count])
    ensures r.Ok? ==> EntryRest(LineOf(rest[0]), rest[1..], stopAtClose) == Ok(r.value.count - 1)
  {
    var n := EntryRest(LineOf(rest[0]), rest[1..], stopAtClose);
    if n.Err? then Err(n.thrown) else Ok(Round(1 + n.value, Lines(rest[..1 + n.value])))
  }

  /**
    A round prints the lines it consumes unchanged unless it replaces a
    key line, and then prints the one laid-out entry.
   */
  lemma RoundOutput(rest: seq<JString>, kv: map<JString, JString>, layout: Layout, corrected: bool)
    requires rest != [] && AmdRound(rest, kv, layout, corrected).Ok?
    ensures !Replaces(LineOf(rest[0]), kv, corrected) ==>
      AmdRound(rest, kv, layout, corrected).value.out == Lines(rest[..AmdRound(rest, kv, layout, corrected).value.count])
    ensures Replaces(LineOf(rest[0]), kv, corrected) ==> |AmdRound(rest, kv, layout, corrected).value.out| == 1
  {
  }

  /** What `merge` prints for the scanner's pieces `rest`, or what it throws. */
  function MergedAmd(rest: seq<JString>, kv: map<JString, JString>, layout: Layout, corrected: bool): (r: Result<seq<JString>>)
    decreases |rest|
  {
    if rest == [] then Ok([])
    else
      var round := AmdRound(rest, kv, layout, corrected);
      if round.Err? then Err(round.thrown)
      else Then(round.value.out, MergedAmd(rest[round.value.count..], kv, layout, corrected))
  }

  /** With nothing to merge in, `merge` prints the base lines unchanged, unless it throws. */
  lemma {:induction false} NothingToMergeCopies(rest: seq<JString>, layout: Layout, corrected: bool)
    ensures MergedAmd(rest, map[], layout, corrected).Ok? ==> MergedAmd(rest, map[], layout, corrected).value == Lines(rest)
    decreases |rest|
  {
    if rest != [] {
      var round := AmdRound(rest, map[], layout, corrected);
      if round.Ok? {
        var c := round.value.count;
        var tail := MergedAmd(rest[c..], map[], layout, corrected);
        NothingToMergeCopies(rest[c..], layout, corrected);
        RoundWithoutKeys(rest, layout, corrected);
        MergedAmdStep(rest, map[], layout, corrected);
        ThenJoins(Lines(rest[..c]), Lines(rest[c..]), tail);
        TakeDrop(rest, c);
        LinesAppend(rest[..c], rest[c..]);
      }
    }
  }

  /** With nothing to merge in, a round copies the lines it consumes. */
  lemma RoundWithoutKeys(rest: seq<JString>, layout: Layout, corrected: bool)
    requires rest != []
    ensures AmdRound(rest, map[], layout, corrected).Ok? ==>
      AmdRound(rest, map[], layout, corrected).value.out == Lines(rest[..AmdRound(rest, map[], layout, corrected).value.count])
  {
    var line := LineOf(rest[0]);
    if IsKeyLine(line) && !OpensObject(line) && KeyFor(line, corrected).Ok? {
      assert AmdRound(rest, map[], layout, corrected) == CopiedRound(rest, corrected);
    } else {
      assert Lines(rest[..1]) == [line];
    }
  }

  /** A round that does not throw is followed by the rounds on the lines after it. */
  lemma MergedAmdStep(rest: seq<JString>, kv: map<JString, JString>, layout: Layout, corrected: bool)
    requires rest != [] && AmdRound(rest, kv, layout, corrected).Ok?
    ensures MergedAmd(rest, kv, layout, corrected) ==
      Then(AmdRound(rest, kv, layout, corrected).value.out, MergedAmd(rest[AmdRound(rest, kv, layout, corrected).value.count..], kv, layout, corrected))
  {
  }

  /** A line that is not a key line, or opens an object, is a round of its own, copied. */
  lemma PlainRound(rest: seq<JString>, kv: map<JString, JString>, layout: Layout, corrected: bool)
    requires rest != [] && (!IsKeyLine(LineOf(rest[0])) || OpensObject(LineOf(rest[0])))
    ensures AmdRound(rest, kv, layout, corrected) == Ok(Round(1, [LineOf(rest[0])]))
  {
  }

  /** Lines that are not key lines, or that open an object, go to the output unchanged, in order. */
  lemma {:induction false} LeadingCopies(rest: seq<JString>, n: nat, kv: map<JString, JString>, layout: Layout, corrected: bool)
    requires n <= |rest|
    requires forall k | 0 <= k < n :: !IsKeyLine(LineOf(rest[k])) || OpensObject(LineOf(rest[k]))
    ensures MergedAmd(rest, kv, layout, corrected) == Then(Lines(rest[..n]), MergedAmd(rest[n..], kv, layout, corrected))
    decreases n
  {
    if n == 0 {
      ThenNothing(MergedAmd(rest, kv, layout, corrected));
      SuffixEnds(rest, 0);
      assert Lines(rest[..0]) == [];
    } else {
      LeadingCopies(rest[1..], n - 1, kv, layout, corrected);
      PlainRound(rest, kv, layout, corrected);
      MergedAmdStep(rest, kv, layout, corrected);
      TailSlices(rest, n);
      assert Lines(rest[..n]) == [LineOf(rest[0])] + Lines(rest[1..][..n - 1]);
      ThenThen([LineOf(rest[0])], Lines(rest[1..][..n - 1]), MergedAmd(rest[n..], kv, layout, corrected));
    }
  }

  // ---------------------------------------------------------------------
  // The loops of merge

  /** A count of lines `n` further on: the same exception, or `n` more lines. */
  function Later(m: Result<nat>, n: nat): (r: Result<nat>)
    ensures r.Err? <==> m.Err?
    ensures r.Ok? ==> r.value == m.value + n
  {
    if m.Err? then m else Ok(m.value + n)
  }

  /** An entry not ended at `line` goes on with the next of the scanner's lines. */
  lemma EntryRestStep(line: JString, next: seq<JString>, n: nat, stopAtClose: bool)
    requires n < |next| && !IsEntryEnd(line) && !(stopAtClose && ClosesNext(next[n..]))
    ensures Later(EntryRest(line, next[n..], stopAtClose), n) == Later(EntryRest(LineOf(next[n]), next[n + 1..], stopAtClose), n + 1)
  {
    assert next[n..][0] == next[n] && next[n..][1..] == next[n + 1..];
  }

  /** The loop that skips the rest of a replaced entry. */
  method SkipEntry(line: JString, next: seq<JString>) returns (r: Result<nat>)
    ensures r == EntryRest(line, next, true)
  {
    var cur := line;
    var n := 0;
    while !IsEntryEnd(cur) && !ClosesNext(next[n..])
      invariant 0 <= n <= |next|
      invariant EntryRest(line, next, true) == Later(EntryRest(cur, next[n..], true), n)
      decreases |next| - n
    {
      if n == |next| {
        return Err(NoSuchElementException);
      }
      EntryRestStep(cur, next, n, true);
      cur := LineOf(next[n]);
      n := n + 1;
    }
    r := Ok(n);
  }

  /**
    The loop that copies the lines of an entry whose key the bundle does
    not hold: as written it stops only at a line that ends the entry;
    with `stopAtClose` it also stops before a `}` token, as the skip does.
   */
  method CopyEntry(line: JString, next: seq<JString>, stopAtClose: bool) returns (r: Result<seq<JString>>)
    ensures EntryRest(line, next, stopAtClose).Err? ==> r == Err(EntryRest(line, next, stopAtClose).thrown)
    ensures EntryRest(line, next, stopAtClose).Ok? ==> r == Ok(Lines(next[..EntryRest(line, next, stopAtClose).value]))
  {
    var cur := line;
    var copied: seq<JString> := [];
    var n := 0;
    while !IsEntryEnd(cur) && !(stopAtClose && ClosesNext(next[n..]))
      invariant n == |copied| <= |next| && copied == Lines(next)[..n]
      invariant EntryRest(line, next, stopAtClose) == Later(EntryRest(cur, next[n..], stopAtClose), n)
      decreases |next| - n
    {
      if n == |next| {
        return Err(NoSuchElementException);
      }
      EntryRestStep(cur, next, n, stopAtClose);
      cur := LineOf(next[n]);
      LinesNext(next, n);
      copied := copied + [cur];
      n := n + 1;
    }
    LinesTake(next, n);
    r := Ok(copied);
  }

  /** The lines of the first `n + 1` pieces: those of the first `n`, then the next one's. */
  lemma LinesNext(pieces: seq<JString>, n: nat)
    requires n < |pieces|
    ensures Lines(pieces)[..n + 1] == Lines(pieces)[..n] + [LineOf(pieces[n])]
  {
  }

  /** One pass of the loop of `merge`: as written the key is cut between the quotes before the first colon. */
  method MergeRound(rest: seq<JString>, kv: map<JString, JString>, layout: Layout, corrected: bool) returns (r: Result<Round>)
    requires rest != []
    ensures r == AmdRound(rest, kv, layout, corrected)
  {
    var line := LineOf(rest[0]);
    if !IsKeyLine(line) || OpensObject(line) {
      return Ok(Round(1, [line]));
    }
    var key: JString;
    if corrected {
      key := KeyOfLine(line);
    } else {
      var cut := KeyAsWritten(line);
      if cut.Err? {
        return Err(cut.thrown);
      }
      key := cut.value;
    }
    if key in kv {
      r := ReplaceRound(rest, key, kv[key], layout);
    } else {
      r := CopyRound(rest, corrected);
    }
  }

  /** `merge` on a key line whose key the bundle holds. */
  method ReplaceRound(rest: seq<JString>, key: JString, value: JString, layout: Layout) returns (r: Result<Round>)
    requires rest != []
    ensures r == ReplacedRound(rest, key, value, layout)
  {
    var line := LineOf(rest[0]);
    var left := BeforeColon(line);
    var baseIndent := ExtractTabPrefix(left);
    var indent := TabStr(baseIndent);
    var text := FormatEntry(key, value, MAX_COLUMNS, baseIndent, indent, layout);
    if text.Err? {
      return Err(text.thrown);
    }
    var n := SkipEntry(line, rest[1..]);
    if n.Err? {
      return Err(n.thrown);
    }
    var out := text.value;
    if !ClosesNext(rest[1 + n.value..]) {
      out := out + [COMMA];
    } else {
      AppendEmpty(out);
    }
    r := Ok(Round(1 + n.value, [out]));
  }

  /** `merge` on a key line whose key the bundle does not hold: the key line, then the lines `CopyEntry` copies. */
  method CopyRound(rest: seq<JString>, corrected: bool) returns (r: Result<Round>)
    requires rest != []
    ensures r == CopiedRound(rest, corrected)
  {
    var line := LineOf(rest[0]);
    var copied := CopyEntry(line, rest[1..], corrected);
    if copied.Err? {
      return Err(copied.thrown);
    }
    assert [line] + copied.value == Lines(rest[..1 + |copied.value|]);
    r := Ok(Round(1 + |copied.value|, [line] + copied.value));
  }

  /**
    The loop of `merge` over the lines the scanner reads from the base
    text, as written or corrected.
   */
  method MergeLines(base: JString, kv: map<JString, JString>, layout: Layout, corrected: bool) returns (r: Result<seq<JString>>)
    ensures r == MergedAmd(ScannerPieces(base), kv, layout, corrected)
  {
    var out: seq<JString> := [];
    var pieces := ScannerPieces(base);
    var rest := pieces;
    ThenNothing(MergedAmd(pieces, kv, layout, corrected));
    while rest != []
      invariant Then(out, MergedAmd(rest, kv, layout, corrected)) == MergedAmd(pieces, kv, layout, corrected)
      decreases |rest|
    {
      var round := MergeRound(rest, kv, layout, corrected);
      if round.Err? {
        return Err(round.thrown);
      }
      ThenThen(out, round.value.out, MergedAmd(rest[round.value.count..], kv, layout, corrected));
      out := out + round.value.out;
      rest := rest[round.value.count..];
    }
    r := Ok(out);
    assert out + [] == out;
  }

  /**
    `merge`: the bundle's strings, by key, merged into the lines of the base text; a
    bundle without strings throws. `corrected` false is the code as written.
   */
  method Merge(base: JString, bundle: LanguageBundle, layout: Layout, corrected: bool) returns (r: Result<seq<JString>>)
    ensures bundle.resourceStrings.None? ==> r == Err(NullPointerException)
    ensures bundle.resourceStrings.Some? ==> r == MergedAmd(ScannerPieces(base), MapByKey(bundle.resourceStrings.value, ValueOf), layout, corrected)
  {
    var strings := bundle.GetResourceStrings();
    if strings.Err? {
      return Err(strings.thrown);
    }
    var kv := CreateKeyValueMap(strings.value);
    r := MergeLines(base, kv, layout, corrected);
  }

  // ---------------------------------------------------------------------
  // Single lines

  /** A line that is its only token, then a line feed: the token is the line. */
  lemma {:induction false} TokenLine(line: JString, more: JString)
    requires line != [] && forall k | 0 <= k < |line| :: !IsJavaWhitespace(line[k])
    ensures NextToken(line + [NEWLINE] + more) == Some(line)
  {
    var s := line + [NEWLINE] + more;
    assert s[..|line|] == line && s[|line|] == NEWLINE;
    assert LeadingWhitespace(s) == 0 && s[0..] == s;
    TokenLengthIs(s);
    assert TokenLength(s) == |line| by {
      assert forall k | 0 <= k < |line| :: !IsJavaWhitespace(s[k]) by {
        forall k | 0 <= k < |line| ensures s[k] == line[k] { }
      }
      assert IsJavaWhitespace(s[|line|]);
    }
    assert NextToken(s) == Some(s[..|line|]);
  }

  /** A line with no blank at either end is its own trimmed text. */
  lemma TrimKeeps(s: JString)
    requires s != [] && !IsTrimmed(s[0]) && !IsTrimmed(s[|s| - 1])
    ensures Trim(s) == s
  {
    assert TrimStartCount(s) == 0 && TrimEndCount(s) == 0;
    assert s[0..|s|] == s;
  }

  /** A round on a last piece whose line is copied. */
  lemma LastPlainLine(piece: JString, kv: map<JString, JString>, layout: Layout, corrected: bool)
    requires !IsKeyLine(LineOf(piece))
    ensures MergedAmd([piece], kv, layout, corrected) == Ok([LineOf(piece)])
  {
    var rest: seq<JString> := [piece];
    PlainRound(rest, kv, layout, corrected);
    MergedAmdStep(rest, kv, layout, corrected);
    assert |rest[1..]| == 0;
    assert MergedAmd(rest[1..], kv, layout, corrected) == Ok([]);
    AppendEmpty([LineOf(piece)]);
  }

  // ---------------------------------------------------------------------
  // The scanner's lines

  /**
    A base line cut by U+2028 is two lines to `merge`: `a` U+2028 `b`
    prints `a` and `b`, each a line of its own.
   */
  lemma LineSeparatorSplitsLine(kv: map<JString, JString>, layout: Layout, corrected: bool)
    ensures MergedAmd(ScannerPieces([0x61, 0x2028, 0x62]), kv, layout, corrected) == Ok([[0x61], [0x62]])
  {
    var base: JString := [0x61, 0x2028, 0x62];
    var first: JString := [0x61, 0x2028];
    var second: JString := [0x62];
    SeparatedPieces(base, first, second);
    var pieces := [first, second];
    assert !IsKeyLine([0x61]) && !IsKeyLine([0x62]) by {
      assert LeadingRegexSpaces([0x61]) == 0 && LeadingRegexSpaces([0x62]) == 0;
    }
    PlainRound(pieces, kv, layout, corrected);
    MergedAmdStep(pieces, kv, layout, corrected);
    assert pieces[1..] == [second];
    LastPlainLine(second, kv, layout, corrected);
    assert MergedAmd(pieces, kv, layout, corrected) == Then([[0x61]], Ok([[0x62]]));
    assert [[0x61]] + [[0x62]] == [[0x61], [0x62]];
  }

  lemma SeparatedPieces(base: JString, first: JString, second: JString)
    requires base == [0x61, 0x2028, 0x62] && first == [0x61, 0x2028] && second == [0x62]
    ensures ScannerPieces(base) == [first, second] && LineOf(first) == [0x61] && LineOf(second) == [0x62]
  {
    LineLengthIs(base, 1);
    assert first[..1] == [0x61];
    LineLengthIs(first, 1);
    assert base[..2] == first && base[2..] == second;
    LineLengthIs(second, 1);
    assert second[..1] == second && second[1..] == [];
    assert ScannerPieces(second) == [second];
  }

  // ---------------------------------------------------------------------
  // Two inputs where the code as written fails

  /** `"a:b":"x"`, then `}`: an entry whose key holds a colon. */
  const COLON_KEY_LINES: seq<JString> := [
    [DOUBLE_QUOTE, 0x61, COLON, 0x62, DOUBLE_QUOTE, COLON, DOUBLE_QUOTE, 0x78, DOUBLE_QUOTE],
    [CLOSE_BRACE]]

  /** The key `a:b`. */
  const COLON_KEY: JString := [0x61, COLON, 0x62]

  lemma ColonKeyIsKeyLine()
    ensures IsKeyLine(COLON_KEY_LINES[0]) && KeyEnd(COLON_KEY_LINES[0]) == 4
  {
    var l := COLON_KEY_LINES[0];
    assert LeadingRegexSpaces(l) == 0;
    assert IsClosingQuote(l, 4);
    assert ClosingQuote(l, 4) == Some(4);
    assert ClosingQuote(l, 3) == Some(4);
    assert ClosingQuote(l, 2) == Some(4);
  }

  lemma ColonKeyOfLine()
    ensures IsKeyLine(COLON_KEY_LINES[0]) && KeyOfLine(COLON_KEY_LINES[0]) == COLON_KEY
  {
    ColonKeyIsKeyLine();
    var l := COLON_KEY_LINES[0];
    assert l[1..4] == COLON_KEY;
    TrimKeeps(COLON_KEY);
  }

  lemma ColonKeyLineEnds()
    ensures !OpensObject(COLON_KEY_LINES[0]) && !IsEntryEnd(COLON_KEY_LINES[0])
    ensures BeforeColon(COLON_KEY_LINES[0]) == [DOUBLE_QUOTE, 0x61]
  {
    var l := COLON_KEY_LINES[0];
    TrimKeeps(l);
    assert TrailingRegexSpaces(l) == 0;
    IndexOfIs(l, COLON, 2);
  }

  /** The base text of `COLON_KEY_LINES` is read line by line. */
  lemma ColonKeyPieces()
    ensures ScannerPieces(Text(COLON_KEY_LINES)) == Terminated(COLON_KEY_LINES)
    ensures LineOf(Terminated(COLON_KEY_LINES)[0]) == COLON_KEY_LINES[0]
    ensures LineOf(Terminated(COLON_KEY_LINES)[1]) == COLON_KEY_LINES[1]
  {
    var lines := COLON_KEY_LINES;
    assert NoTerminator(lines[0]) && NoTerminator(lines[1]);
    TextPieces(lines);
    LinePiece(lines[0]);
    LinePiece(lines[1]);
  }

  lemma CloseBraceCloses()
    ensures !IsKeyLine(COLON_KEY_LINES[1]) && ClosesNext(Terminated(COLON_KEY_LINES)[1..])
  {
    var pieces: seq<JString> := Terminated(COLON_KEY_LINES);
    assert LeadingRegexSpaces(COLON_KEY_LINES[1]) == 0;
    assert pieces[1..] == [[CLOSE_BRACE] + [NEWLINE]];
    assert Flatten(pieces[1..]) == [CLOSE_BRACE] + [NEWLINE] + [];
    TokenLine([CLOSE_BRACE], []);
  }

  /**
    As written, the key is cut from the text before the first colon, which
    here holds one quote only, so `merge` throws on the line whether or not
    the bundle holds the key.
   */
  lemma AsWrittenColonKeyThrows(kv: map<JString, JString>, layout: Layout)
    ensures KeyAsWritten(COLON_KEY_LINES[0]) == Err(StringIndexOutOfBoundsException)
    ensures MergedAmd(ScannerPieces(Text(COLON_KEY_LINES)), kv, layout, false) == Err(StringIndexOutOfBoundsException)
  {
    ColonKeyIsKeyLine();
    ColonKeyLineEnds();
    ColonKeyPieces();
    var left := BeforeColon(COLON_KEY_LINES[0]);
    assert IndexOf(left, DOUBLE_QUOTE) == 0 && LastIndexOf(left, DOUBLE_QUOTE) == 0;
  }

  /**
    Corrected, the key `a:b` is found and its entry replaced by the bundle's
    value; an empty value throws in `formatEntry`, as for any other key.
   */
  lemma CorrectedColonKeyReplaced(value: JString, layout: Layout)
    ensures value != [] ==>
              MergedAmd(ScannerPieces(Text(COLON_KEY_LINES)), map[COLON_KEY := value], layout, true) ==
              Ok([layout(COLON_KEY, value, [], TabStr([])), [CLOSE_BRACE]])
    ensures value == [] ==>
              MergedAmd(ScannerPieces(Text(COLON_KEY_LINES)), map[COLON_KEY := value], layout, true) ==
              Err(StringIndexOutOfBoundsException)
  {
    ColonKeyPieces();
    if value != [] {
      ColonKeyReplacedWith(value, layout);
    } else {
      ColonKeyEmptyThrows(layout);
    }
  }

  /** Corrected, the round on `"a:b":"x"` replaces the entry by the bundle's value, or throws as `formatEntry` does. */
  lemma ColonKeyRound(value: JString, layout: Layout)
    ensures var r := AmdRound(Terminated(COLON_KEY_LINES), map[COLON_KEY := value], layout, true);
      (value != [] ==> r == Ok(Round(1, [layout(COLON_KEY, value, [], TabStr([]))]))) &&
      (value == [] ==> r == Err(StringIndexOutOfBoundsException))
  {
    var kv := map[COLON_KEY := value];
    var pieces: seq<JString> := Terminated(COLON_KEY_LINES);
    ColonKeyOfLine();
    ColonKeyLineEnds();
    ColonKeyPieces();
    assert AmdRound(pieces, kv, layout, true) == ReplacedRound(pieces, COLON_KEY, value, layout);
    assert TabPrefixLength([DOUBLE_QUOTE, 0x61]) == 0;
    if value != [] {
      CloseBraceCloses();
      assert EntryRest(LineOf(pieces[0]), pieces[1..], true) == Ok(0);
      AppendEmpty(layout(COLON_KEY, value, [], TabStr([])));
    }
  }

  lemma ColonKeyEmptyThrows(layout: Layout)
    ensures MergedAmd(Terminated(COLON_KEY_LINES), map[COLON_KEY := []], layout, true) == Err(StringIndexOutOfBoundsException)
  {
    ColonKeyRound([], layout);
  }

  lemma ColonKeyReplacedWith(value: JString, layout: Layout)
    requires value != []
    ensures MergedAmd(Terminated(COLON_KEY_LINES), map[COLON_KEY := value], layout, true) ==
      Ok([layout(COLON_KEY, value, [], TabStr([])), [CLOSE_BRACE]])
  {
    var kv := map[COLON_KEY := value];
    var pieces: seq<JString> := Terminated(COLON_KEY_LINES);
    var text := layout(COLON_KEY, value, [], TabStr([]));
    ColonKeyRound(value, layout);
    ColonKeyPieces();
    CloseBraceCloses();
    MergedAmdStep(pieces, kv, layout, true);
    LastPlainLine(pieces[1], kv, layout, true);
    assert pieces[1..] == [pieces[1]];
    assert MergedAmd(pieces, kv, layout, true) == Then([text], Ok([[CLOSE_BRACE]]));
    assert [text] + [[CLOSE_BRACE]] == [text, [CLOSE_BRACE]];
  }

  /** `{`, `"a":"x"`, `});`: an entry without a trailing comma, last before the closing line. */
  const LAST_ENTRY_LINES: seq<JString> := [
    [OPEN_BRACE],
    [DOUBLE_QUOTE, 0x61, DOUBLE_QUOTE, COLON, DOUBLE_QUOTE, 0x78, DOUBLE_QUOTE],
    [CLOSE_BRACE, 0x29, 0x3B]]

  lemma LastEntryKeyLine()
    ensures IsKeyLine(LAST_ENTRY_LINES[1]) && KeyEnd(LAST_ENTRY_LINES[1]) == 2
  {
    var l := LAST_ENTRY_LINES[1];
    assert LeadingRegexSpaces(l) == 0;
    assert IsClosingQuote(l, 2);
    assert ClosingQuote(l, 2) == Some(2);
  }

  lemma LastEntryKeys()
    ensures IsKeyLine(LAST_ENTRY_LINES[1])
    ensures KeyOfLine(LAST_ENTRY_LINES[1]) == [0x61] && KeyAsWritten(LAST_ENTRY_LINES[1]) == Ok([0x61])
  {
    LastEntryKeyLine();
    var l := LAST_ENTRY_LINES[1];
    assert l[1..2] == [0x61];
    TrimKeeps([0x61]);
    assert COLON !in l[..2];
    KeyAsWrittenAgrees(l);
  }

  lemma LastEntryLineEnds()
    ensures !OpensObject(LAST_ENTRY_LINES[1]) && !IsEntryEnd(LAST_ENTRY_LINES[1])
    ensures !IsKeyLine(LAST_ENTRY_LINES[0]) && !IsKeyLine(LAST_ENTRY_LINES[2])
  {
    TrimKeeps(LAST_ENTRY_LINES[1]);
    assert TrailingRegexSpaces(LAST_ENTRY_LINES[1]) == 0;
    assert LeadingRegexSpaces(LAST_ENTRY_LINES[0]) == 0;
    assert LeadingRegexSpaces(LAST_ENTRY_LINES[2]) == 0;
  }

  /** The base text of `LAST_ENTRY_LINES` is read line by line. */
  lemma LastEntryPieces()
    ensures ScannerPieces(Text(LAST_ENTRY_LINES)) == Terminated(LAST_ENTRY_LINES)
    ensures Lines(Terminated(LAST_ENTRY_LINES)) == LAST_ENTRY_LINES
    ensures forall k | 0 <= k < 3 :: LineOf(Terminated(LAST_ENTRY_LINES)[k]) == LAST_ENTRY_LINES[k]
  {
    var lines := LAST_ENTRY_LINES;
    assert NoTerminator(lines[0]) && NoTerminator(lines[1]) && NoTerminator(lines[2]);
    TextPieces(lines);
  }

  lemma ClosingLine()
    ensures !IsEntryEnd(LAST_ENTRY_LINES[2]) && ClosesNext(Terminated(LAST_ENTRY_LINES)[2..])
  {
    var c := LAST_ENTRY_LINES[2];
    var pieces: seq<JString> := Terminated(LAST_ENTRY_LINES);
    assert TrailingRegexSpaces(c) == 0;
    assert pieces[2..] == [c + [NEWLINE]];
    assert Flatten(pieces[2..]) == c + [NEWLINE] + [];
    TokenLine(c, []);
    assert c[0] == CLOSE_BRACE;
  }

  /**
    As written, an entry the bundle does not hold is copied up to a line
    that ends in `}` or `,`; the closing `});` does not, and `merge` reads
    past the end of the input.
   */
  lemma AsWrittenCopyRunsOff(layout: Layout)
    ensures MergedAmd(ScannerPieces(Text(LAST_ENTRY_LINES)), map[], layout, false) == Err(NoSuchElementException)
  {
    var pieces: seq<JString> := Terminated(LAST_ENTRY_LINES);
    LastEntryPieces();
    LastEntryLineEnds();
    LastEntryCopyThrows(layout);
    PlainRound(pieces, map[], layout, false);
    MergedAmdStep(pieces, map[], layout, false);
  }

  /** As written, the round on the entry `"a":"x"` throws: its copy runs past `});`. */
  lemma LastEntryCopyThrows(layout: Layout)
    ensures AmdRound(Terminated(LAST_ENTRY_LINES)[1..], map[], layout, false) == Err(NoSuchElementException)
  {
    var rest := Terminated(LAST_ENTRY_LINES)[1..];
    LastEntryPieces();
    LastEntryKeys();
    LastEntryLineEnds();
    assert rest[0] == Terminated(LAST_ENTRY_LINES)[1] && rest[1..] == Terminated(LAST_ENTRY_LINES)[2..];
    EntryRunsOff();
    assert AmdRound(rest, map[], layout, false) == CopiedRound(rest, false);
  }

  /** As written, the copy from `"a":"x"` finds no line ending the entry. */
  lemma EntryRunsOff()
    ensures EntryRest(LAST_ENTRY_LINES[1], Terminated(LAST_ENTRY_LINES)[2..], false) == Err(NoSuchElementException)
  {
    var tail := Terminated(LAST_ENTRY_LINES)[2..];
    LastEntryPieces();
    LastEntryLineEnds();
    ClosingLine();
    assert tail == [Terminated(LAST_ENTRY_LINES)[2]] && tail[1..] == [];
    assert EntryRest(LAST_ENTRY_LINES[2], [], false) == Err(NoSuchElementException);
  }

  /** Corrected, the copy stops before the `}` token, as the skip of a replaced entry does, and every line is kept. */
  lemma CorrectedCopyKeepsLines(layout: Layout)
    ensures MergedAmd(ScannerPieces(Text(LAST_ENTRY_LINES)), map[], layout, true) == Ok(LAST_ENTRY_LINES)
  {
    var pieces: seq<JString> := Terminated(LAST_ENTRY_LINES);
    LastEntryPieces();
    LastEntryLineEnds();
    CorrectedCopyLastEntry(layout);
    PlainRound(pieces, map[], layout, true);
    MergedAmdStep(pieces, map[], layout, true);
    ThenJoins([LAST_ENTRY_LINES[0]], LAST_ENTRY_LINES[1..], MergedAmd(pieces[1..], map[], layout, true));
    Uncons(LAST_ENTRY_LINES);
  }

  /** Corrected, the entry `"a":"x"` is one round, copied. */
  lemma LastEntryRound(layout: Layout)
    ensures AmdRound(Terminated(LAST_ENTRY_LINES)[1..], map[], layout, true) == Ok(Round(1, [LAST_ENTRY_LINES[1]]))
  {
    var rest := Terminated(LAST_ENTRY_LINES)[1..];
    LastEntryPieces();
    LastEntryKeys();
    LastEntryLineEnds();
    ClosingLine();
    assert rest[0] == Terminated(LAST_ENTRY_LINES)[1];
    assert rest[1..] == Terminated(LAST_ENTRY_LINES)[2..];
    assert EntryRest(LineOf(rest[0]), rest[1..], true) == Ok(0);
    assert AmdRound(rest, map[], layout, true) == CopiedRound(rest, true);
    assert Lines(rest[..1]) == [LineOf(rest[0])];
  }

  lemma CorrectedCopyLastEntry(layout: Layout)
    ensures MergedAmd(Terminated(LAST_ENTRY_LINES)[1..], map[], layout, true) == Ok(LAST_ENTRY_LINES[1..])
  {
    var rest := Terminated(LAST_ENTRY_LINES)[1..];
    LastEntryPieces();
    LastEntryLineEnds();
    LastEntryRound(layout);
    assert rest[1..] == [rest[1]] && rest[1] == Terminated(LAST_ENTRY_LINES)[2];
    MergedAmdStep(rest, map[], layout, true);
    LastPlainLine(rest[1], map[], layout, true);
    assert MergedAmd(rest, map[], layout, true) == Then([LAST_ENTRY_LINES[1]], Ok([LAST_ENTRY_LINES[2]]));
    assert LAST_ENTRY_LINES[1..] == [LAST_ENTRY_LINES[1]] + [LAST_ENTRY_LINES[2]];
  }
}
