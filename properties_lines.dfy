/**
  Logical lines of a `.properties` file: when a physical line continues on
  the next one, and how `PropDef.parseLine` splits a logical line into key,
  separator and value.

  `ParsedLine` models `parseLine` as written, `unescape` included.
  `ParsedProperty` is the corrected reading: the key ends at the first
  unescaped white space, `=` or `:`, the separator is the optional `=` or
  `:` after the white space that follows it, and a `\u` escape wants four
  hexadecimal digits. `ParseLineAs` picks one of the two.
 */
module PropertiesLines {
  import opened Wrappers
  import opened JavaText
  import opened PropertiesEscape

  // ---------------------------------------------------------------------
  // Continuation lines

  /** The number of backslashes that end `s`. */
  function TrailingBackslashes(s: JString): (n: nat)
    ensures n <= |s|
    decreases |s|
  {
    if s != [] && s[|s| - 1] == BACKSLASH then 1 + TrailingBackslashes(s[..|s| - 1]) else 0
  }

  /** A line continues on the next one when it ends in an odd number of backslashes. */
  predicate IsContinued(s: JString) {
    TrailingBackslashes(s) % 2 == 1
  }

  /** `isContinuationLine`: count the backslashes from the end, then test the parity. */
  method IsContinuationLine(s: JString) returns (b: bool)
    ensures b == IsContinued(s)
  {
    var backslashCount := 0;
    var index := |s| - 1;
    while index >= 0
      invariant -1 <= index < |s|
      invariant backslashCount == |s| - 1 - index
      invariant forall k | index < k < |s| :: s[k] == BACKSLASH
    {
      if s[index] != BACKSLASH {
        break;
      }
      backslashCount := backslashCount + 1;
      index := index - 1;
    }
    SameTrailingBackslashes(s, backslashCount);
    b := backslashCount % 2 == 1;
  }

  /** `TrailingBackslashes` is the only count with its defining properties. */
  lemma {:induction false} SameTrailingBackslashes(s: JString, n: nat)
    requires n <= |s|
    requires forall k | |s| - n <= k < |s| :: s[k] == BACKSLASH
    requires n == |s| || s[|s| - n - 1] != BACKSLASH
    ensures n == TrailingBackslashes(s)
    decreases |s|
  {
    if n > 0 {
      var t := s[..|s| - 1];
      assert forall k | |t| - (n - 1) <= k < |t| :: t[k] == s[k];
      SameTrailingBackslashes(t, n - 1);
    }
  }

  /** One more backslash flips whether a line continues. */
  lemma OneMoreBackslash(s: JString)
    ensures IsContinued(s + [BACKSLASH]) <==> !IsContinued(s)
  {
    assert (s + [BACKSLASH])[..|s|] == s;
  }

  /** The backslashes ending `a + b`: those of `b`, and those of `a` too when `b` is all backslashes. */
  lemma {:induction false} TrailingBackslashesAppend(a: JString, b: JString)
    ensures TrailingBackslashes(a + b) ==
      if TrailingBackslashes(b) == |b| then TrailingBackslashes(a) + |b| else TrailingBackslashes(b)
    decreases |b|
  {
    if b == [] {
      assert a + b == a;
    } else if b[|b| - 1] == BACKSLASH {
      var b' := b[..|b| - 1];
      assert (a + b)[..|a + b| - 1] == a + b';
      TrailingBackslashesAppend(a, b');
    }
  }

  /** The escaped form of one code unit ends in two backslashes (for a backslash) or in none. */
  lemma EscapedCharBackslashes(c: CodeUnit, esc: EscapeSpace, utf8: bool)
    ensures TrailingBackslashes(EscapedChar(c, esc, utf8)) == (if c == BACKSLASH then 2 else 0)
  {
    var e := EscapedChar(c, esc, utf8);
    if c == BACKSLASH {
      assert e == [BACKSLASH, BACKSLASH];
      assert e[..1][..0] == [] && e[..1] == [BACKSLASH];
    } else {
      assert e[|e| - 1] != BACKSLASH;
    }
  }

  /** Text made of two parts that each end in an even number of backslashes does too. */
  lemma EvenBackslashesAppend(a: JString, b: JString)
    requires TrailingBackslashes(a) % 2 == 0 && TrailingBackslashes(b) % 2 == 0
    ensures TrailingBackslashes(a + b) % 2 == 0
  {
    TrailingBackslashesAppend(a, b);
  }

  /**
    Escaped text always ends in an even number of backslashes, so it never
    reads as a continued line, and it does once a backslash is added:
    `PropDef.print` relies on both when it wraps a value.
   */
  lemma {:induction false} EscapedRunBackslashesEven(s: JString, esc: EscapeSpace, utf8: bool)
    ensures TrailingBackslashes(EscapedRun(s, esc, utf8)) % 2 == 0
    decreases |s|
  {
    if s != [] {
      var e := EscapedChar(s[0], esc, utf8);
      var r := EscapedRun(s[1..], esc, utf8);
      assert EscapedRun(s, esc, utf8) == e + r;
      EscapedRunBackslashesEven(s[1..], esc, utf8);
      EscapedCharBackslashes(s[0], esc, utf8);
      EvenBackslashesAppend(e, r);
    }
  }

  lemma EscapedNotContinued(s: JString, esc: EscapeSpace, utf8: bool)
    ensures !IsContinued(Escaped(s, esc, utf8))
    ensures IsContinued(Escaped(s, esc, utf8) + [BACKSLASH])
  {
    var n := if esc == NoSpaces then 0 else LeadingSpaces(s);
    var a := EscapedRun(s[..n], AllSpaces, utf8);
    var b := EscapedRun(s[n..], esc, utf8);
    assert Escaped(s, esc, utf8) == a + b;
    EscapedRunBackslashesEven(s[..n], AllSpaces, utf8);
    EscapedRunBackslashesEven(s[n..], esc, utf8);
    EvenBackslashesAppend(a, b);
    OneMoreBackslash(a + b);
  }

  /**
    The logical line that `parse` assembles from the line `sb` and the lines
    `next` after it, and how many of those it consumes: while the text ends
    in a continuation backslash, the backslash is removed and the next line
    is appended without its leading white space; past the end of the input
    nothing is appended.
   */
  function Joined(sb: JString, next: seq<JString>): (r: (JString, nat))
    ensures r.1 <= |next|
    decreases |next|, |sb|
  {
    if !IsContinued(sb) then (sb, 0)
    else if next == [] then Joined(sb[..|sb| - 1], [])
    else
      var r := Joined(sb[..|sb| - 1] + StripLeadingSpaces(next[0]), next[1..]);
      (r.0, r.1 + 1)
  }

  /** A continued line takes in the next one, which then counts as consumed. */
  lemma JoinedNext(sb: JString, next: seq<JString>, k: nat)
    requires IsContinued(sb) && k < |next|
    ensures Joined(sb, next[k..]).0 == Joined(sb[..|sb| - 1] + StripLeadingSpaces(next[k]), next[k + 1..]).0
    ensures Joined(sb, next[k..]).1 == Joined(sb[..|sb| - 1] + StripLeadingSpaces(next[k]), next[k + 1..]).1 + 1
  {
    assert next[k..][0] == next[k] && next[k..][1..] == next[k + 1..];
  }

  /** The last line a join reads ends in an even number of backslashes once its leading white space is stripped. */
  predicate EndsEven(sb: JString, next: seq<JString>) {
    if next == [] then TrailingBackslashes(sb) % 2 == 0
    else TrailingBackslashes(StripLeadingSpaces(next[|next| - 1])) % 2 == 0
  }

  /**
    A join that reads every line of `next` and stops at the last one
    because it is not continued reads nothing of what follows.
   */
  lemma {:induction false} JoinedExtends(sb: JString, next: seq<JString>, more: seq<JString>)
    requires Joined(sb, next).1 == |next| && EndsEven(sb, next)
    ensures Joined(sb, next + more) == Joined(sb, next)
    decreases |next|
  {
    if next != [] {
      assert IsContinued(sb);
      var sb' := sb[..|sb| - 1] + StripLeadingSpaces(next[0]);
      JoinedHead(sb, next, more);
      EndsEvenTail(sb, next);
      JoinedExtends(sb', next[1..], more);
    }
  }

  /** After joining the first line, the join still ends on a line with an even number of backslashes. */
  lemma EndsEvenTail(sb: JString, next: seq<JString>)
    requires IsContinued(sb) && next != [] && EndsEven(sb, next)
    ensures EndsEven(sb[..|sb| - 1] + StripLeadingSpaces(next[0]), next[1..])
  {
    var init := sb[..|sb| - 1];
    if |next| == 1 {
      assert sb == init + [BACKSLASH];
      OneMoreBackslash(init);
      EvenBackslashesAppend(init, StripLeadingSpaces(next[0]));
    } else {
      assert next[1..][|next[1..]| - 1] == next[|next| - 1];
    }
  }

  /** A continued line joins the first of the lines that follow, whatever comes after them. */
  lemma {:induction false} JoinedHead(sb: JString, next: seq<JString>, more: seq<JString>)
    requires IsContinued(sb) && next != []
    ensures var sb' := sb[..|sb| - 1] + StripLeadingSpaces(next[0]);
      Joined(sb, next + more) == (Joined(sb', next[1..] + more).0, Joined(sb', next[1..] + more).1 + 1) &&
      Joined(sb, next) == (Joined(sb', next[1..]).0, Joined(sb', next[1..]).1 + 1)
  {
    assert (next + more)[0] == next[0] && (next + more)[1..] == next[1..] + more;
  }

  /** One round of the continuation loop: drop the backslash and append the next line, if any. */
  method ContinueOnce(sb: JString, next: seq<JString>, consumed: nat) returns (sb': JString, consumed': nat)
    requires IsContinued(sb) && consumed <= |next|
    ensures consumed <= consumed' <= |next|
    ensures consumed' > consumed || (consumed' == consumed == |next| && |sb'| < |sb|)
    ensures Joined(sb', next[consumed'..]).0 == Joined(sb, next[consumed..]).0
    ensures Joined(sb', next[consumed'..]).1 + consumed' == Joined(sb, next[consumed..]).1 + consumed
  {
    if consumed < |next| {
      JoinedNext(sb, next, consumed);
      sb' := sb[..|sb| - 1] + StripLeadingSpaces(next[consumed]);
      consumed' := consumed + 1;
    } else {
      assert next[consumed..] == [];
      sb' := sb[..|sb| - 1];
      consumed' := consumed;
    }
  }

  /** The continuation loop of `parse`, reading the lines after `first` from `next`. */
  method JoinContinuationLines(first: JString, next: seq<JString>) returns (logical: JString, consumed: nat)
    ensures (logical, consumed) == Joined(first, next)
  {
    var sb := first;
    consumed := 0;
    var more := IsContinuationLine(sb);
    while more
      invariant consumed <= |next|
      invariant more == IsContinued(sb)
      invariant Joined(sb, next[consumed..]).0 == Joined(first, next).0
      invariant Joined(sb, next[consumed..]).1 + consumed == Joined(first, next).1
      decreases |next| - consumed, |sb|
    {
      sb, consumed := ContinueOnce(sb, next, consumed);
      more := IsContinuationLine(sb);
    }
    logical := sb;
  }

  // ---------------------------------------------------------------------
  // PropDef and its one-line form

  /** `PropDef.PropSeparator`. */
  datatype PropSeparator = Equal | Colon | Space

  function SepChar(sep: PropSeparator): (r: CodeUnit) {
    match sep
    case Equal => EQUALS
    case Colon => COLON
    case Space => SPACE
  }

  /** `PropDef`: a key, its value, the separator between them and the notes (comments) before it. */
  datatype PropDef = PropDef(key: JString, value: JString, separator: PropSeparator, notes: Option<seq<JString>>)

  /** `PropDef.equals`: key, value and separator; the notes are not compared. */
  predicate SameDef(a: PropDef, b: PropDef) {
    a.key == b.key && a.value == b.value && SepChar(a.separator) == SepChar(b.separator)
  }

  /** What `print` writes between key and value: the separator, padded with spaces unless it is one. */
  function SeparatorText(sep: PropSeparator): (r: JString)
    ensures r != [] && r[0] == SPACE
  {
    if sep == Space then [SPACE] else [SPACE, SepChar(sep), SPACE]
  }

  /** The line `PropDef.print` writes when key and value fit in one line. */
  function SingleLine(key: JString, value: JString, sep: PropSeparator, utf8: bool): (r: JString) {
    Escaped(key, AllSpaces, utf8) + SeparatorText(sep) + Escaped(value, LeadingOnly, utf8)
  }

  // ---------------------------------------------------------------------
  // parseLine as written

  /**
    The separator `parseLine` settles on, scanning from `i`: before an
    unescaped space only `=` or `:` not preceded by a backslash count (and
    never at position 0); right after one, the next code unit is the
    separator whatever it is, and is `Space` unless it is `=` or `:`.
   */
  function SeparatorFrom(line: JString, i: nat, sawSpace: bool): (r: Option<(PropSeparator, nat)>)
    ensures r.Some? ==> i <= r.value.1 < |line|
    ensures r.Some? && (i > 0 || !sawSpace) ==> r.value.1 > 0
    decreases |line| - i
  {
    if i >= |line| then None
    else
      var c := line[i];
      var unescaped := i > 0 && line[i - 1] != BACKSLASH;
      if sawSpace then Some((if c == EQUALS then Equal else if c == COLON then Colon else Space, i))
      else if unescaped && c == EQUALS then Some((Equal, i))
      else if unescaped && c == COLON then Some((Colon, i))
      else SeparatorFrom(line, i + 1, unescaped && c == SPACE)
  }

  /** The scanning loop of `parseLine`, proved to find what `SeparatorFrom` describes. */
  method FindSeparator(line: JString) returns (sep: Option<PropSeparator>, sepIdx: int)
    ensures SeparatorFrom(line, 0, false).None? ==> sep.None? && sepIdx == -1
    ensures SeparatorFrom(line, 0, false).Some? ==>
      sep == Some(SeparatorFrom(line, 0, false).value.0) && sepIdx == SeparatorFrom(line, 0, false).value.1
  {
    sep := None;
    sepIdx := -1;
    var sawSpace := false;
    var i := 0;
    while i < |line|
      invariant 0 <= i <= |line|
      invariant !sawSpace || i > 0
      invariant sep.None? && sepIdx == -1
      invariant SeparatorFrom(line, i, sawSpace) == SeparatorFrom(line, 0, false)
    {
      var iChar := line[i];
      if sawSpace {
        if iChar == EQUALS {
          sep := Some(Equal);
        } else if iChar == COLON {
          sep := Some(Colon);
        } else {
          sep := Some(Space);
        }
      } else {
        if i > 0 && line[i - 1] != BACKSLASH {
          if iChar == SPACE {
            sawSpace := true;
          } else if iChar == EQUALS {
            sep := Some(Equal);
          } else if iChar == COLON {
            sep := Some(Colon);
          }
        }
      }
      if sep.Some? {
        sepIdx := i;
        return;
      }
      i := i + 1;
    }
  }

  /**
    `PropDef.parseLine` as written: no separator gives null (`None`); the key
    is the trimmed text before the separator, the value the text after it
    without its leading white space, both unescaped. An exception from
    `unescape` propagates.
   */
  function ParsedLine(line0: JString): (r: Result<Option<PropDef>>)
    ensures r.Ok? && r.value.Some? ==> r.value.value.notes.None?
  {
    var line := StripLeadingSpaces(line0);
    match SeparatorFrom(line, 0, false)
    case None => Ok(None)
    case Some((sep, sepIdx)) => SplitAt(line, sep, sepIdx)
  }

  /** The entry `parseLine` builds once it has found the separator `sep` at `sepIdx`. */
  function SplitAt(line: JString, sep: PropSeparator, sepIdx: nat): (r: Result<Option<PropDef>>)
    requires sepIdx < |line|
  {
    var key :- Unescaped(Trim(line[..sepIdx]), false);
    var value :- Unescaped(StripLeadingSpaces(line[sepIdx + 1..]), false);
    Ok(Some(PropDef(key, value, sep, None)))
  }

  /** The end of `parseLine`: unescape key and value and build the entry. */
  method MakePropDef(line: JString, sep: PropSeparator, sepIdx: nat) returns (r: Result<Option<PropDef>>)
    requires sepIdx < |line|
    ensures r == SplitAt(line, sep, sepIdx)
  {
    var key := Unescape(Trim(line[..sepIdx]), false);
    if key.Err? {
      return Err(key.thrown);
    }
    var value := Unescape(StripLeadingSpaces(line[sepIdx + 1..]), false);
    if value.Err? {
      return Err(value.thrown);
    }
    r := Ok(Some(PropDef(key.value, value.value, sep, None)));
  }

  /** `PropDef.parseLine`, with its scanning loop and calls, proved to compute `ParsedLine`. */
  method ParseLine(line0: JString) returns (r: Result<Option<PropDef>>)
    ensures r == ParsedLine(line0)
  {
    var lead := GetLeadingSpacesLength(line0);
    var line := line0[lead..];
    assert line == StripLeadingSpaces(line0);
    var sep, sepIdx := FindSeparator(line);
    if sepIdx <= 0 || sep.None? {
      return Ok(None);
    }
    r := MakePropDef(line, sep.value, sepIdx);
  }

  /** `parseLine` returns null exactly when no separator is found after position 0. */
  lemma ParseLineNull(line: JString)
    ensures (ParsedLine(line) == Ok(None)) <==> SeparatorFrom(StripLeadingSpaces(line), 0, false).None?
  {
  }

  // ---------------------------------------------------------------------
  // The corrected reading

  /** The code units that end a key unless escaped: white space, `=` and `:`. */
  predicate IsKeyTerminator(c: CodeUnit) {
    IsPropsWhiteSpace(c) || c == EQUALS || c == COLON
  }

  /**
    The length of the key that starts `s`: it runs up to the first key
    terminator that is not escaped; `escaped` says whether the code unit
    before `s` was an unescaped backslash.
   */
  function KeyLength(s: JString, escaped: bool): (n: nat)
    ensures n <= |s|
    ensures !escaped && n < |s| ==> IsKeyTerminator(s[n])
  {
    if s == [] then 0
    else if escaped then 1 + KeyLength(s[1..], false)
    else if s[0] == BACKSLASH then 1 + KeyLength(s[1..], true)
    else if IsKeyTerminator(s[0]) then 0
    else 1 + KeyLength(s[1..], false)
  }

  /** The separator that the text after the key starts with. */
  function SeparatorOf(after: JString): (r: PropSeparator) {
    if after != [] && after[0] == EQUALS then Equal
    else if after != [] && after[0] == COLON then Colon
    else Space
  }

  /**
    The corrected `parseLine`: the key ends at the first unescaped key
    terminator; after the white space that follows it, an `=` or `:` is the
    separator and the white space after that is skipped too. A line whose
    key is empty or that has no terminator gives null, as in the source.
   */
  function ParsedProperty(line0: JString): (r: Result<Option<PropDef>>)
    ensures r.Ok? && r.value.Some? ==> r.value.value.notes.None?
  {
    ParsedStripped(StripLeadingSpaces(line0))
  }

  /** `ParsedProperty` once the leading white space is gone. */
  function ParsedStripped(line: JString): (r: Result<Option<PropDef>>)
    ensures r.Ok? && r.value.Some? ==> r.value.value.notes.None?
  {
    var n := KeyLength(line, false);
    if n == 0 || n == |line| then Ok(None)
    else
      var after := StripLeadingSpaces(line[n..]);
      var sep := SeparatorOf(after);
      var text := if sep == Space then after else StripLeadingSpaces(after[1..]);
      var key :- Unescaped(line[..n], true);
      var value :- Unescaped(text, true);
      Ok(Some(PropDef(key, value, sep, None)))
  }

  /** What `PropDef.parseLine` gives for a logical line: as written, or with the corrected reading. */
  function ParseLineAs(line: JString, corrected: bool): (r: Result<Option<PropDef>>)
    ensures r.Ok? && r.value.Some? ==> r.value.value.notes.None?
  {
    if corrected then ParsedProperty(line) else ParsedLine(line)
  }

  /** The escaped form of a code unit is the code unit itself or starts with a backslash. */
  lemma EscapedCharHead(c: CodeUnit, esc: EscapeSpace, utf8: bool)
    ensures var e := EscapedChar(c, esc, utf8); e[0] == BACKSLASH || e == [c]
  {
  }

  /** Escaping the two halves of a text separately with one rule is escaping the whole. */
  lemma EscapedRunSplit(s: JString, n: nat, esc: EscapeSpace, utf8: bool)
    requires n <= |s|
    ensures EscapedRun(s[..n], esc, utf8) + EscapedRun(s[n..], esc, utf8) == EscapedRun(s, esc, utf8)
  {
    EscapedRunAppend(s[..n], s[n..], esc, utf8);
    assert s[..n] + s[n..] == s;
  }

  /** Key escaping escapes every code unit with one rule: `escape` with all spaces is one run. */
  lemma EscapedKeyIsRun(k: JString, utf8: bool)
    ensures Escaped(k, AllSpaces, utf8) == EscapedRun(k, AllSpaces, utf8)
  {
    var n := LeadingSpaces(k);
    assert Escaped(k, AllSpaces, utf8) == EscapedRun(k[..n], AllSpaces, utf8) + EscapedRun(k[n..], AllSpaces, utf8);
    EscapedRunSplit(k, n, AllSpaces, utf8);
  }

  /** A code unit that is neither a backslash nor a terminator extends the key by one. */
  lemma KeyLengthPlain(c: CodeUnit, rest: JString)
    requires c != BACKSLASH && !IsKeyTerminator(c)
    ensures KeyLength([c] + rest, false) == 1 + KeyLength(rest, false)
  {
    assert ([c] + rest)[1..] == rest;
  }

  /** A backslash and the code unit after it extend the key by two. */
  lemma KeyLengthPair(x: CodeUnit, rest: JString)
    ensures KeyLength([BACKSLASH, x] + rest, false) == 2 + KeyLength(rest, false)
  {
    var t := [BACKSLASH, x] + rest;
    assert t[1..] == [x] + rest && ([x] + rest)[1..] == rest;
  }

  /** Four hexadecimal digits extend the key by four. */
  lemma KeyLengthOverHex(h: JString, rest: JString)
    requires |h| == 4 && AllHex(h)
    ensures KeyLength(h + rest, false) == 4 + KeyLength(rest, false)
  {
    assert h + rest == [h[0]] + ([h[1]] + ([h[2]] + ([h[3]] + rest)));
    KeyLengthPlain(h[3], rest);
    KeyLengthPlain(h[2], [h[3]] + rest);
    KeyLengthPlain(h[1], [h[2]] + ([h[3]] + rest));
    KeyLengthPlain(h[0], [h[1]] + ([h[2]] + ([h[3]] + rest)));
  }

  /** A `\uXXXX` escape extends the key by six. */
  lemma KeyLengthOverUnicode(c: CodeUnit, rest: JString)
    ensures KeyLength(UnicodeEscape(c) + rest, false) == 6 + KeyLength(rest, false)
  {
    var h := Hex4(c);
    assert UnicodeEscape(c) + rest == [BACKSLASH, LOWER_U] + (h + rest);
    KeyLengthPair(LOWER_U, h + rest);
    KeyLengthOverHex(h, rest);
  }

  /** The three shapes of an escaped key code unit. */
  lemma EscapedKeyCharShape(c: CodeUnit, utf8: bool)
    ensures var e := EscapedChar(c, AllSpaces, utf8);
      (e == [c] && c != BACKSLASH && !IsKeyTerminator(c)) ||
      (|e| == 2 && e[0] == BACKSLASH) ||
      e == UnicodeEscape(c)
  {
  }

  /** An escaped key code unit never ends the key. */
  lemma KeyLengthOverChar(c: CodeUnit, utf8: bool, rest: JString)
    ensures KeyLength(EscapedChar(c, AllSpaces, utf8) + rest, false) == |EscapedChar(c, AllSpaces, utf8)| + KeyLength(rest, false)
  {
    var e := EscapedChar(c, AllSpaces, utf8);
    EscapedKeyCharShape(c, utf8);
    if e == [c] && c != BACKSLASH && !IsKeyTerminator(c) {
      KeyLengthPlain(c, rest);
    } else if |e| == 2 && e[0] == BACKSLASH {
      assert e == [BACKSLASH, e[1]];
      KeyLengthPair(e[1], rest);
    } else {
      KeyLengthOverUnicode(c, rest);
    }
  }

  /** An escaped key is read as a key up to its end. */
  lemma {:induction false} KeyLengthOverRun(s: JString, utf8: bool, rest: JString)
    ensures KeyLength(EscapedRun(s, AllSpaces, utf8) + rest, false) == |EscapedRun(s, AllSpaces, utf8)| + KeyLength(rest, false)
    decreases |s|
  {
    if s == [] {
      assert EscapedRun(s, AllSpaces, utf8) + rest == rest;
    } else {
      var e := EscapedChar(s[0], AllSpaces, utf8);
      var r := EscapedRun(s[1..], AllSpaces, utf8);
      AppendAssoc(e, r, rest);
      KeyLengthOverChar(s[0], utf8, r + rest);
      KeyLengthOverRun(s[1..], utf8, rest);
    }
  }

  /** An escaped value neither starts with white space nor with `=` or `:`. */
  lemma EscapedValueHead(v: JString, utf8: bool)
    ensures var e := Escaped(v, LeadingOnly, utf8);
      e == [] <==> v == []
    ensures var e := Escaped(v, LeadingOnly, utf8);
      e != [] ==> !IsPropsWhiteSpace(e[0]) && e[0] != EQUALS && e[0] != COLON
  {
    if v != [] {
      var n := LeadingSpaces(v);
      var esc := if n > 0 then AllSpaces else LeadingOnly;
      var s := if n > 0 then v[..n] else v[n..];
      assert s[0] == v[0];
      EscapedCharHead(v[0], esc, utf8);
      assert EscapedRun(s, esc, utf8)[0] == EscapedChar(v[0], esc, utf8)[0];
    }
  }

  /** An escaped non-empty key starts with neither white space nor a comment marker. */
  lemma EscapedKeyHead(k: JString, utf8: bool)
    requires k != []
    ensures var e := Escaped(k, AllSpaces, utf8);
      e != [] && !IsPropsWhiteSpace(e[0]) && e[0] != HASH && e[0] != BANG
  {
    EscapedKeyIsRun(k, utf8);
    EscapedCharHead(k[0], AllSpaces, utf8);
  }

  /** Stripping white space from text that does not start with any leaves it as it is. */
  lemma StripNothing(s: JString)
    requires s == [] || !IsPropsWhiteSpace(s[0])
    ensures StripLeadingSpaces(s) == s
  {
    SameLeadingSpaces(s, 0);
  }

  /** Stripping white space from one white space code unit followed by text that does not start with one. */
  lemma StripOne(c: CodeUnit, s: JString)
    requires IsPropsWhiteSpace(c)
    requires s == [] || !IsPropsWhiteSpace(s[0])
    ensures StripLeadingSpaces([c] + s) == s
  {
    SameLeadingSpaces([c] + s, 1);
    assert ([c] + s)[1..] == s;
  }

  /** Text that may follow a separator: it starts with neither white space nor `=` or `:`. */
  predicate ValueStart(v: JString) {
    v == [] || (!IsPropsWhiteSpace(v[0]) && v[0] != EQUALS && v[0] != COLON)
  }

  /** After the key, the corrected reading finds the separator that `print` wrote and the value text. */
  lemma AfterKey(v: JString, sep: PropSeparator)
    requires ValueStart(v)
    ensures var after := StripLeadingSpaces(SeparatorText(sep) + v);
      SeparatorOf(after) == sep &&
      (if sep == Space then after else StripLeadingSpaces(after[1..])) == v
  {
    if sep == Space {
      StripOne(SPACE, v);
    } else {
      var m := [SepChar(sep), SPACE] + v;
      assert SeparatorText(sep) + v == [SPACE] + m;
      StripOne(SPACE, m);
      assert m[1..] == [SPACE] + v;
      StripOne(SPACE, v);
    }
  }

  /** The corrected reading of a key text `k`, a separator text and a value text `v`. */
  lemma ParsedParts(k: JString, v: JString, sep: PropSeparator, key: JString, value: JString)
    requires k != [] && !IsPropsWhiteSpace(k[0])
    requires KeyLength(k + (SeparatorText(sep) + v), false) == |k|
    requires ValueStart(v)
    requires Unescaped(k, true) == Ok(key) && Unescaped(v, true) == Ok(value)
    ensures ParsedProperty(k + SeparatorText(sep) + v) == Ok(Some(PropDef(key, value, sep, None)))
  {
    var line := k + SeparatorText(sep) + v;
    AppendAssoc(k, SeparatorText(sep), v);
    StripNothing(line);
    assert line[..|k|] == k && line[|k|..] == SeparatorText(sep) + v;
    AfterKey(v, sep);
  }

  /**
    An escaped key, the separator `print` writes and any value text that
    does not start with white space, `=` or `:` read back as that key,
    separator and the unescaped value text.
   */
  lemma EntryRoundTrip(key: JString, v: JString, value: JString, sep: PropSeparator, utf8: bool)
    requires key != []
    requires ValueStart(v) && Unescaped(v, true) == Ok(value)
    ensures ParsedProperty(Escaped(key, AllSpaces, utf8) + SeparatorText(sep) + v) == Ok(Some(PropDef(key, value, sep, None)))
  {
    var k := Escaped(key, AllSpaces, utf8);
    var tail := SeparatorText(sep) + v;
    EscapedKeyHead(key, utf8);
    EscapedKeyIsRun(key, utf8);
    KeyLengthOverRun(key, utf8, tail);
    assert KeyLength(tail, false) == 0;
    UnescapeWholeRun(key, AllSpaces, utf8, true);
    ParsedParts(k, v, sep, key, value);
  }

  /**
    Reading back the line that `print` writes for an entry gives the entry:
    key, value and separator, in either encoding.
   */
  lemma SingleLineRoundTrip(key: JString, value: JString, sep: PropSeparator, utf8: bool)
    requires key != []
    ensures ParsedProperty(SingleLine(key, value, sep, utf8)) == Ok(Some(PropDef(key, value, sep, None)))
  {
    EscapedValueHead(value, utf8);
    EscapeRoundTrip(value, LeadingOnly, utf8, true);
    EntryRoundTrip(key, Escaped(value, LeadingOnly, utf8), value, sep, utf8);
  }

  // ---------------------------------------------------------------------
  // Where the code as written reads its own output differently

  /** A printable code unit other than a space that `escape` writes as it is. */
  predicate IsPlain(c: CodeUnit) {
    0x20 < c < 0x7E && c !in SPECIALS
  }

  /** A plain code unit is written as it is. */
  lemma EscapedPlainChar(c: CodeUnit, esc: EscapeSpace, utf8: bool)
    requires IsPlain(c)
    ensures Escaped([c], esc, utf8) == [c]
  {
    var n := if esc == NoSpaces then 0 else LeadingSpaces([c]);
    if esc != NoSpaces {
      SameLeadingSpaces([c], 0);
    }
    assert [c][..n] == [] && [c][n..] == [c];
    EscapedRunOne(c, esc, utf8);
    assert Escaped([c], esc, utf8) == EscapedRun([], AllSpaces, utf8) + EscapedRun([c], esc, utf8);
  }

  /** Text without a backslash unescapes to itself. */
  lemma {:induction false} UnescapeNoBackslash(s: JString, corrected: bool)
    requires BACKSLASH !in s
    ensures Unescaped(s, corrected) == Ok(s)
  {
    if s != [] {
      UnescapeNoBackslash(s[1..], corrected);
      UnescapePlain(s[0], s[1..], corrected);
      assert [s[0]] + s[1..] == s;
    }
  }

  lemma SeparatorOfSpaced(line: JString)
    requires |line| == 3 && IsPlain(line[0]) && line[1] == SPACE && IsPlain(line[2])
    ensures SeparatorFrom(line, 0, false) == Some((Space, 2))
  {
    assert SeparatorFrom(line, 2, true) == Some((Space, 2));
    assert SeparatorFrom(line, 1, false) == SeparatorFrom(line, 2, true);
  }

  lemma SplitSpaced(line: JString)
    requires |line| == 3 && IsPlain(line[0]) && line[1] == SPACE
    ensures SplitAt(line, Space, 2) == Ok(Some(PropDef([line[0]], [], Space, None)))
  {
    var k := line[0];
    assert line[..2] == [k, SPACE];
    TrimSpaced(k);
    UnescapeNoBackslash([k], false);
    assert line[3..] == [];
    StripNothing([]);
    UnescapeNoBackslash([], false);
  }

  /** Trimming a plain unit followed by a space leaves the unit. */
  lemma TrimSpaced(k: CodeUnit)
    requires IsPlain(k)
    ensures Trim([k, SPACE]) == [k]
  {
    assert [k, SPACE][..1] == [k];
    assert TrimEndCount([k]) == 0;
    assert TrimEndCount([k, SPACE]) == 1;
  }

  lemma SpacedLinePrinted(k: CodeUnit, v: CodeUnit, utf8: bool)
    requires IsPlain(k) && IsPlain(v)
    ensures SingleLine([k], [v], Space, utf8) == [k, SPACE, v]
  {
    EscapedPlainChar(k, AllSpaces, utf8);
    EscapedPlainChar(v, LeadingOnly, utf8);
  }

  lemma SpacedLineAsWritten(line: JString)
    requires |line| == 3 && IsPlain(line[0]) && line[1] == SPACE && IsPlain(line[2])
    ensures ParsedLine(line) == Ok(Some(PropDef([line[0]], [], Space, None)))
  {
    StripNothing(line);
    SeparatorOfSpaced(line);
    SplitSpaced(line);
  }

  /**
    With a space separator, `print` writes `k v` for a one-letter key and
    value; `parseLine` takes the `v` for the separator and loses it from the
    value, where the corrected reading keeps it.
   */
  lemma SpaceSeparatorLosesValueStart(k: CodeUnit, v: CodeUnit, utf8: bool)
    requires IsPlain(k) && IsPlain(v)
    ensures SingleLine([k], [v], Space, utf8) == [k, SPACE, v]
    ensures ParsedLine([k, SPACE, v]) == Ok(Some(PropDef([k], [], Space, None)))
    ensures ParsedProperty([k, SPACE, v]) == Ok(Some(PropDef([k], [v], Space, None)))
  {
    SpacedLinePrinted(k, v, utf8);
    SingleLineRoundTrip([k], [v], Space, utf8);
    SpacedLineAsWritten([k, SPACE, v]);
  }

  lemma SeparatorOfEscapedSpace(line: JString)
    requires |line| == 7 && IsPlain(line[0])
    requires line[1..6] == [BACKSLASH, SPACE, SPACE, EQUALS, SPACE]
    ensures SeparatorFrom(line, 0, false) == Some((Equal, 4))
  {
    assert line[1] == BACKSLASH && line[2] == SPACE && line[3] == SPACE && line[4] == EQUALS;
    assert SeparatorFrom(line, 4, true) == Some((Equal, 4));
    assert SeparatorFrom(line, 3, false) == SeparatorFrom(line, 4, true);
    assert SeparatorFrom(line, 2, false) == SeparatorFrom(line, 3, false);
    assert SeparatorFrom(line, 1, false) == SeparatorFrom(line, 2, false);
  }

  /** `trim` removes the escaped space along with the unescaped one. */
  lemma TrimEscapedSpace(a: CodeUnit)
    requires IsPlain(a)
    ensures Trim([a, BACKSLASH, SPACE, SPACE]) == [a, BACKSLASH]
  {
    var t: JString := [a, BACKSLASH, SPACE, SPACE];
    assert t[..3] == [a, BACKSLASH, SPACE];
    assert t[..3][..2] == [a, BACKSLASH];
    assert TrimEndCount([a, BACKSLASH]) == 0;
    assert TrimEndCount(t[..3]) == 1;
    assert TrimEndCount(t) == 2;
    assert TrimStartCount(t) == 0;
  }

  lemma SplitEscapedSpace(line: JString)
    requires |line| == 7 && IsPlain(line[0]) && IsPlain(line[6])
    requires line[1..6] == [BACKSLASH, SPACE, SPACE, EQUALS, SPACE]
    ensures SplitAt(line, Equal, 4) == Ok(Some(PropDef([line[0]], [line[6]], Equal, None)))
  {
    var a, v := line[0], line[6];
    assert line[1] == BACKSLASH && line[2] == SPACE && line[3] == SPACE && line[5] == SPACE;
    assert line[..4] == [a, BACKSLASH, SPACE, SPACE];
    TrimEscapedSpace(a);
    assert Unescaped([BACKSLASH], false) == Ok([]);
    UnescapePlain(a, [BACKSLASH], false);
    assert [a] + [BACKSLASH] == [a, BACKSLASH] && [a] + [] == [a];
    assert Unescaped([a, BACKSLASH], false) == Ok([a]);
    assert line[5..] == [SPACE] + [v];
    StripOne(SPACE, [v]);
    UnescapeNoBackslash([v], false);
    assert Unescaped(Trim(line[..4]), false) == Ok([a]);
    assert Unescaped(StripLeadingSpaces(line[5..]), false) == Ok([v]);
  }

  lemma EscapedSpaceLinePrinted(a: CodeUnit, v: CodeUnit, utf8: bool)
    requires IsPlain(a) && IsPlain(v)
    ensures SingleLine([a, SPACE], [v], Equal, utf8) == [a, BACKSLASH, SPACE, SPACE, EQUALS, SPACE, v]
  {
    var key: JString := [a, SPACE];
    EscapedKeyIsRun(key, utf8);
    assert key[1..] == [SPACE] && key[1..][1..] == [];
    assert Escaped(key, AllSpaces, utf8) == [a, BACKSLASH, SPACE];
    EscapedPlainChar(v, LeadingOnly, utf8);
  }

  lemma EscapedSpaceLineAsWritten(a: CodeUnit, v: CodeUnit)
    requires IsPlain(a) && IsPlain(v)
    ensures ParsedLine([a, BACKSLASH, SPACE, SPACE, EQUALS, SPACE, v]) == Ok(Some(PropDef([a], [v], Equal, None)))
  {
    var line: JString := [a, BACKSLASH, SPACE, SPACE, EQUALS, SPACE, v];
    assert line[1..6] == [BACKSLASH, SPACE, SPACE, EQUALS, SPACE];
    StripNothing(line);
    SeparatorOfEscapedSpace(line);
    SplitEscapedSpace(line);
  }

  lemma EscapedSpaceLineCorrected(a: CodeUnit, v: CodeUnit, utf8: bool)
    requires IsPlain(a) && IsPlain(v)
    ensures ParsedProperty([a, BACKSLASH, SPACE, SPACE, EQUALS, SPACE, v]) == Ok(Some(PropDef([a, SPACE], [v], Equal, None)))
  {
    EscapedSpaceLinePrinted(a, v, utf8);
    SingleLineRoundTrip([a, SPACE], [v], Equal, utf8);
  }

  /**
    A key ending in a space is written `a\ ` before ` = `; `trim` then takes
    the escaped space off with the unescaped one, and the key read back is
    `a`, where the corrected reading keeps the space.
   */
  lemma TrimDropsEscapedSpace(a: CodeUnit, v: CodeUnit, utf8: bool)
    requires IsPlain(a) && IsPlain(v)
    ensures SingleLine([a, SPACE], [v], Equal, utf8) == [a, BACKSLASH, SPACE, SPACE, EQUALS, SPACE, v]
    ensures ParsedLine([a, BACKSLASH, SPACE, SPACE, EQUALS, SPACE, v]) == Ok(Some(PropDef([a], [v], Equal, None)))
    ensures ParsedProperty([a, BACKSLASH, SPACE, SPACE, EQUALS, SPACE, v]) == Ok(Some(PropDef([a, SPACE], [v], Equal, None)))
  {
    EscapedSpaceLinePrinted(a, v, utf8);
    EscapedSpaceLineCorrected(a, v, utf8);
    EscapedSpaceLineAsWritten(a, v);
  }
}
