/**
  Escaping and unescaping of keys, values and comments in Java `.properties`
  files, as `JavaPropertiesResource` writes and reads them.

  Each Java loop is a method proved equal to a recursive specification
  function; the properties (round trips, what gets a backslash, which code
  units appear) are lemmas about the specification functions.
 */
module PropertiesEscape {
  import opened Wrappers
  import opened JavaText

  /** Which spaces `escape` protects with a backslash. */
  datatype EscapeSpace = AllSpaces | LeadingOnly | NoSpaces

  /** Space, tab and form feed: the white space of the properties format. */
  predicate IsPropsWhiteSpace(c: CodeUnit) {
    c == SPACE || c == TAB || c == FORM_FEED
  }

  /** The length of the run of properties white space that starts `s`. */
  function LeadingSpaces(s: JString): (n: nat)
    ensures n <= |s|
    ensures forall k | 0 <= k < n :: IsPropsWhiteSpace(s[k])
    ensures n == |s| || !IsPropsWhiteSpace(s[n])
  {
    if s != [] && IsPropsWhiteSpace(s[0]) then 1 + LeadingSpaces(s[1..]) else 0
  }

  /** `getLeadingSpacesLength`: scan forward until the first code unit that is not white space. */
  method GetLeadingSpacesLength(s: JString) returns (idx: nat)
    ensures idx == LeadingSpaces(s)
  {
    idx := 0;
    while idx < |s|
      invariant idx <= |s|
      invariant forall k | 0 <= k < idx :: IsPropsWhiteSpace(s[k])
    {
      if !IsPropsWhiteSpace(s[idx]) {
        break;
      }
      idx := idx + 1;
    }
    SameLeadingSpaces(s, idx);
  }

  /** `LeadingSpaces` is the only count with its two defining properties. */
  lemma {:induction false} SameLeadingSpaces(s: JString, n: nat)
    requires n <= |s|
    requires forall k | 0 <= k < n :: IsPropsWhiteSpace(s[k])
    requires n == |s| || !IsPropsWhiteSpace(s[n])
    ensures n == LeadingSpaces(s)
  {
    if n > 0 {
      SameLeadingSpaces(s[1..], n - 1);
    }
  }

  lemma EscapedRunOne(c: CodeUnit, esc: EscapeSpace, utf8: bool)
    ensures EscapedRun([c], esc, utf8) == EscapedChar(c, esc, utf8)
  {
    assert [c][1..] == [];
  }

  /** `stripLeadingSpaces`: `s` without its leading properties white space. */
  function StripLeadingSpaces(s: JString): (r: JString)
    ensures |r| <= |s| && s == s[..|s| - |r|] + r
    ensures forall k | 0 <= k < |s| - |r| :: IsPropsWhiteSpace(s[k])
    ensures r == [] || !IsPropsWhiteSpace(r[0])
  {
    s[LeadingSpaces(s)..]
  }

  // ---------------------------------------------------------------------
  // escape

  const SPECIALS: set<CodeUnit> := {HASH, BANG, EQUALS, COLON, BACKSLASH}

  /** What `escape` writes for one code unit after the leading white space. */
  function EscapedChar(c: CodeUnit, esc: EscapeSpace, utf8: bool): (r: JString)
    ensures 1 <= |r| <= 6
  {
    if c < 0x20 || c >= 0x7E then
      if c == TAB then [BACKSLASH, LOWER_T]
      else if c == NEWLINE then [BACKSLASH, LOWER_N]
      else if c == FORM_FEED then [BACKSLASH, LOWER_F]
      else if c == CARRIAGE_RETURN then [BACKSLASH, LOWER_R]
      else if utf8 then [c]
      else UnicodeEscape(c)
    else if c == SPACE then
      if esc == AllSpaces then [BACKSLASH, SPACE] else [SPACE]
    else if c in SPECIALS then [BACKSLASH, c]
    else [c]
  }

  /** `appendUnicodeEscape`: backslash, `u` and four upper-case hex digits. */
  function UnicodeEscape(c: CodeUnit): (r: JString)
    ensures |r| == 6 && r[0] == BACKSLASH && r[1] == LOWER_U && r[2..] == Hex4(c)
  {
    [BACKSLASH, LOWER_U] + Hex4(c)
  }

  /** The escaped form of every code unit of `s` in turn. */
  function EscapedRun(s: JString, esc: EscapeSpace, utf8: bool): (r: JString)
    ensures |r| >= |s|
  {
    if s == [] then [] else EscapedChar(s[0], esc, utf8) + EscapedRun(s[1..], esc, utf8)
  }

  /**
    `escape(s, esc, utf8)`: unless `esc` is `NoSpaces`, the leading white space
    is escaped as in a key; the rest code unit by code unit.
   */
  function Escaped(s: JString, esc: EscapeSpace, utf8: bool): (r: JString)
  {
    var n := if esc == NoSpaces then 0 else LeadingSpaces(s);
    EscapedRun(s[..n], AllSpaces, utf8) + EscapedRun(s[n..], esc, utf8)
  }

  lemma {:induction false} EscapedRunAppend(a: JString, b: JString, esc: EscapeSpace, utf8: bool)
    ensures EscapedRun(a + b, esc, utf8) == EscapedRun(a, esc, utf8) + EscapedRun(b, esc, utf8)
    decreases |a|
  {
    if a == [] {
      assert a + b == b;
    } else {
      assert (a + b)[1..] == a[1..] + b;
      EscapedRunAppend(a[1..], b, esc, utf8);
    }
  }

  lemma EscapedRunExtend(s: JString, lo: nat, hi: nat, esc: EscapeSpace, utf8: bool)
    requires lo <= hi < |s|
    ensures EscapedRun(s[lo..hi + 1], esc, utf8) == EscapedRun(s[lo..hi], esc, utf8) + EscapedChar(s[hi], esc, utf8)
  {
    assert s[lo..hi + 1] == s[lo..hi] + [s[hi]];
    EscapedRunAppend(s[lo..hi], [s[hi]], esc, utf8);
    EscapedRunOne(s[hi], esc, utf8);
  }

  /** The first loop of `escape`: the leading white space, written as `\ `, `\t` or `\f`. */
  method EscapeLeadingSpaces(s: JString, utf8: bool) returns (r: JString, idx: nat)
    ensures idx == LeadingSpaces(s)
    ensures r == EscapedRun(s[..idx], AllSpaces, utf8)
  {
    r := [];
    idx := 0;
    while idx < |s|
      invariant idx <= |s|
      invariant forall k | 0 <= k < idx :: IsPropsWhiteSpace(s[k])
      invariant r == EscapedRun(s[0..idx], AllSpaces, utf8)
    {
      if !IsPropsWhiteSpace(s[idx]) {
        break;
      }
      EscapedRunExtend(s, 0, idx, AllSpaces, utf8);
      r := r + EscapedChar(s[idx], AllSpaces, utf8);
      idx := idx + 1;
    }
    SameLeadingSpaces(s, idx);
    assert s[0..idx] == s[..idx];
  }

  /** The second loop of `escape`: every code unit from `idx` on, appended to `lead`. */
  method EscapeRest(s: JString, idx: nat, esc: EscapeSpace, utf8: bool, lead: JString) returns (r: JString)
    requires idx <= |s|
    ensures r == lead + EscapedRun(s[idx..], esc, utf8)
  {
    r := lead;
    var i := idx;
    assert s[idx..idx] == [];
    while i < |s|
      invariant idx <= i <= |s|
      invariant r == lead + EscapedRun(s[idx..i], esc, utf8)
    {
      EscapedRunExtend(s, idx, i, esc, utf8);
      AppendAssoc(lead, EscapedRun(s[idx..i], esc, utf8), EscapedChar(s[i], esc, utf8));
      r := r + EscapedChar(s[i], esc, utf8);
      i := i + 1;
    }
    assert s[idx..i] == s[idx..];
  }

  /** `escape`: the Java loops, proved to compute `Escaped`. */
  method Escape(s: JString, esc: EscapeSpace, utf8: bool) returns (r: JString)
    ensures r == Escaped(s, esc, utf8)
  {
    var idx := 0;
    r := [];
    if esc == AllSpaces || esc == LeadingOnly {
      r, idx := EscapeLeadingSpaces(s, utf8);
    } else {
      assert r == EscapedRun(s[..0], AllSpaces, utf8);
    }
    r := EscapeRest(s, idx, esc, utf8, r);
  }

  // ---------------------------------------------------------------------
  // unescape

  /**
    The code unit that four digits after `\u` stand for, or None when they are
    rejected. As written, `Integer.parseInt(digits, 16)` also accepts a leading
    `+` or `-` and the result is cast to `char`; the corrected rule wants four
    hexadecimal digits.
   */
  function UnicodeDigits(d: JString, corrected: bool): (r: Option<CodeUnit>)
    ensures corrected ==> (r.Some? <==> AllHex(d) && d != [])
    ensures corrected && r.Some? ==> r.value == ToChar(HexNumber(d))
  {
    if corrected then
      if d != [] && AllHex(d) then Some(ToChar(HexNumber(d))) else None
    else
      match ParseIntHex(d)
      case Some(n) => Some(ToChar(n))
      case None => None
  }

  /** Put `p` in front of a successful result. */
  function Prepend(p: JString, r: Result<JString>): (res: Result<JString>) {
    if r.Ok? then Ok(p + r.value) else r
  }

  /**
    `unescape`: `\t`, `\n`, `\f`, `\r` and `\uXXXX` are decoded, any other
    escaped code unit stands for itself, and a trailing lone backslash is
    dropped. A `\u` with fewer than four code units after it fails; with too
    few for the `i + 4 > length` test to notice, the substring fails instead.
   */
  function Unescaped(s: JString, corrected: bool): (r: Result<JString>)
    decreases |s|
  {
    if s == [] then Ok([])
    else if s[0] != BACKSLASH then Prepend([s[0]], Unescaped(s[1..], corrected))
    else if |s| == 1 then Ok([])
    else if s[1] == LOWER_T then Prepend([TAB], Unescaped(s[2..], corrected))
    else if s[1] == LOWER_N then Prepend([NEWLINE], Unescaped(s[2..], corrected))
    else if s[1] == LOWER_F then Prepend([FORM_FEED], Unescaped(s[2..], corrected))
    else if s[1] == LOWER_R then Prepend([CARRIAGE_RETURN], Unescaped(s[2..], corrected))
    else if s[1] == LOWER_U then
      if |s| < 5 then Err(IllegalArgumentException)
      else if |s| == 5 then Err(StringIndexOutOfBoundsException)
      else match UnicodeDigits(s[2..6], corrected)
        case Some(c) => Prepend([c], Unescaped(s[6..], corrected))
        case None => Err(IllegalArgumentException)
    else Prepend([s[1]], Unescaped(s[2..], corrected))
  }

  /** `unescape`: the Java loop with its escape flag, proved to compute `Unescaped` under either
      reading of the four digits (`corrected` is false for the code as written). */
  method Unescape(s: JString, corrected: bool) returns (r: Result<JString>)
    ensures r == Unescaped(s, corrected)
  {
    var buf: JString := [];
    var isEscSeq := false;
    var i := 0;
    PrependNothing(Unescaped(s, corrected));
    assert s[0..] == s;
    while i < |s|
      invariant 0 <= i <= |s|
      invariant isEscSeq ==> i >= 1 && s[i - 1] == BACKSLASH
      invariant isEscSeq ==> Unescaped(s, corrected) == Prepend(buf, Unescaped(s[i - 1..], corrected))
      invariant !isEscSeq ==> Unescaped(s, corrected) == Prepend(buf, Unescaped(s[i..], corrected))
    {
      var c := s[i];
      if isEscSeq {
        var decoded, next := DecodeEscape(s, i, corrected);
        if decoded.Err? {
          return decoded;
        }
        PrependTwice(buf, decoded.value, Unescaped(s[next..], corrected));
        buf := buf + decoded.value;
        i := next;
        isEscSeq := false;
      } else {
        assert s[i..][1..] == s[i + 1..];
        if c == BACKSLASH {
          isEscSeq := true;
        } else {
          PrependTwice(buf, [c], Unescaped(s[i + 1..], corrected));
          buf := buf + [c];
        }
        i := i + 1;
      }
    }
    assert s[i..] == [];
    assert isEscSeq ==> s[i - 1..] == [BACKSLASH];
    assert buf + [] == buf;
    r := Ok(buf);
  }

  /**
    The escaped branch of `unescape`'s loop: the code unit at `i` follows a
    backslash. Gives the decoded code units and the index after the escape,
    or the failure `unescape` then ends with.
   */
  method DecodeEscape(s: JString, i: nat, corrected: bool) returns (r: Result<JString>, next: nat)
    requires 1 <= i < |s| && s[i - 1] == BACKSLASH
    ensures r.Err? ==> Unescaped(s[i - 1..], corrected) == r
    ensures r.Ok? ==> i < next <= |s| && Unescaped(s[i - 1..], corrected) == Prepend(r.value, Unescaped(s[next..], corrected))
  {
    var c := s[i];
    ghost var pending := s[i - 1..];
    assert pending[1..] == s[i..] && pending[2..] == s[i + 1..];
    next := i + 1;
    if c == LOWER_T {
      r := Ok([TAB]);
    } else if c == LOWER_N {
      r := Ok([NEWLINE]);
    } else if c == LOWER_F {
      r := Ok([FORM_FEED]);
    } else if c == LOWER_R {
      r := Ok([CARRIAGE_RETURN]);
    } else if c == LOWER_U {
      if i + 4 > |s| {
        return Err(IllegalArgumentException), next;
      }
      if i + 5 > |s| {
        return Err(StringIndexOutOfBoundsException), next;
      }
      assert pending[2..6] == s[i + 1..i + 5];
      assert pending[6..] == s[i + 5..];
      var digits := UnicodeDigits(s[i + 1..i + 5], corrected);
      if digits.None? {
        return Err(IllegalArgumentException), next;
      }
      r := Ok([digits.value]);
      next := i + 5;
    } else {
      r := Ok([c]);
    }
  }

  lemma PrependNothing(r: Result<JString>)
    ensures Prepend([], r) == r
  {
    if r.Ok? {
      assert [] + r.value == r.value;
    }
  }

  lemma PrependTwice(a: JString, b: JString, r: Result<JString>)
    ensures Prepend(a, Prepend(b, r)) == Prepend(a + b, r)
  {
    if r.Ok? {
      assert a + (b + r.value) == (a + b) + r.value;
    }
  }

  /** Unescaping the escaped form of `c` yields `c`, whatever follows. */
  /** A `\uXXXX` escape decodes to its code unit, with either reading of the digits. */
  lemma UnescapeUnicodeEscape(c: CodeUnit, rest: JString, corrected: bool)
    ensures Unescaped(UnicodeEscape(c) + rest, corrected) == Prepend([c], Unescaped(rest, corrected))
  {
    var t := UnicodeEscape(c) + rest;
    assert t[0] == BACKSLASH && t[1] == LOWER_U;
    assert t[2..6] == Hex4(c) && t[6..] == rest;
    Hex4Value(c);
  }

  /** A two-unit escape `\x` decodes to `d`. */
  lemma UnescapePair(x: CodeUnit, d: CodeUnit, rest: JString, corrected: bool)
    requires x != LOWER_U
    requires x == LOWER_T ==> d == TAB
    requires x == LOWER_N ==> d == NEWLINE
    requires x == LOWER_F ==> d == FORM_FEED
    requires x == LOWER_R ==> d == CARRIAGE_RETURN
    requires x !in {LOWER_T, LOWER_N, LOWER_F, LOWER_R} ==> d == x
    ensures Unescaped([BACKSLASH, x] + rest, corrected) == Prepend([d], Unescaped(rest, corrected))
  {
    assert ([BACKSLASH, x] + rest)[2..] == rest;
  }

  /** A code unit written as itself decodes to itself. */
  lemma UnescapePlain(c: CodeUnit, rest: JString, corrected: bool)
    requires c != BACKSLASH
    ensures Unescaped([c] + rest, corrected) == Prepend([c], Unescaped(rest, corrected))
  {
    assert ([c] + rest)[1..] == rest;
  }

  lemma UnescapeEscapedChar(c: CodeUnit, esc: EscapeSpace, utf8: bool, rest: JString, corrected: bool)
    ensures Unescaped(EscapedChar(c, esc, utf8) + rest, corrected) == Prepend([c], Unescaped(rest, corrected))
  {
    if c < 0x20 || c >= 0x7E {
      if c == TAB {
        UnescapePair(LOWER_T, c, rest, corrected);
      } else if c == NEWLINE {
        UnescapePair(LOWER_N, c, rest, corrected);
      } else if c == FORM_FEED {
        UnescapePair(LOWER_F, c, rest, corrected);
      } else if c == CARRIAGE_RETURN {
        UnescapePair(LOWER_R, c, rest, corrected);
      } else if utf8 {
        UnescapePlain(c, rest, corrected);
      } else {
        UnescapeUnicodeEscape(c, rest, corrected);
      }
    } else if (c == SPACE && esc == AllSpaces) || c in SPECIALS {
      UnescapePair(c, c, rest, corrected);
    } else {
      UnescapePlain(c, rest, corrected);
    }
  }

  lemma {:induction false} UnescapeEscapedRun(s: JString, esc: EscapeSpace, utf8: bool, rest: JString, corrected: bool)
    ensures Unescaped(EscapedRun(s, esc, utf8) + rest, corrected) == Prepend(s, Unescaped(rest, corrected))
    decreases |s|
  {
    if s == [] {
      assert EscapedRun(s, esc, utf8) + rest == rest;
      PrependNothing(Unescaped(rest, corrected));
    } else {
      var e := EscapedChar(s[0], esc, utf8);
      var tail := EscapedRun(s[1..], esc, utf8);
      AppendAssoc(e, tail, rest);
      UnescapeEscapedChar(s[0], esc, utf8, tail + rest, corrected);
      UnescapeEscapedRun(s[1..], esc, utf8, rest, corrected);
      PrependTwice([s[0]], s[1..], Unescaped(rest, corrected));
      assert [s[0]] + s[1..] == s;
    }
  }

  /** An escaped run on its own unescapes to the run. */
  lemma UnescapeWholeRun(s: JString, esc: EscapeSpace, utf8: bool, corrected: bool)
    ensures Unescaped(EscapedRun(s, esc, utf8), corrected) == Ok(s)
  {
    var b := EscapedRun(s, esc, utf8);
    UnescapeEscapedRun(s, esc, utf8, [], corrected);
    assert b + [] == b && s + [] == s;
  }

  /**
    The round trip the tests assert for keys and values: unescaping the
    escaped form gives the original string back, in every mode and with
    either reading of `\u` digits.
   */
  lemma EscapeRoundTrip(s: JString, esc: EscapeSpace, utf8: bool, corrected: bool)
    ensures Unescaped(Escaped(s, esc, utf8), corrected) == Ok(s)
  {
    var n := if esc == NoSpaces then 0 else LeadingSpaces(s);
    var b := EscapedRun(s[n..], esc, utf8);
    UnescapeWholeRun(s[n..], esc, utf8, corrected);
    UnescapeEscapedRun(s[..n], AllSpaces, utf8, b, corrected);
    assert s[..n] + s[n..] == s;
  }

  // ---------------------------------------------------------------------
  // What escaping writes

  /** `#`, `!`, `=`, `:` and backslash always get a preceding backslash. */
  lemma SpecialsGetBackslash(c: CodeUnit, esc: EscapeSpace, utf8: bool)
    requires c in SPECIALS
    ensures EscapedChar(c, esc, utf8) == [BACKSLASH, c]
    ensures !IsPropsWhiteSpace(c)
  {
  }

  /**
    A control code unit other than tab, newline, form feed and carriage
    return, or a code unit from U+007E up, is kept raw in UTF-8 mode and
    written as `\uXXXX` otherwise.
   */
  lemma NonAsciiEscaping(c: CodeUnit, esc: EscapeSpace, utf8: bool)
    requires c < 0x20 || c >= 0x7E
    requires c != TAB && c != NEWLINE && c != FORM_FEED && c != CARRIAGE_RETURN
    ensures utf8 ==> EscapedChar(c, esc, utf8) == [c]
    ensures !utf8 ==> EscapedChar(c, esc, utf8) == UnicodeEscape(c)
  {
  }

  predicate PrintableAscii(s: JString) {
    forall i | 0 <= i < |s| :: 0x20 <= s[i] < 0x7E
  }

  lemma {:induction false} EscapedRunPrintable(s: JString, esc: EscapeSpace)
    ensures PrintableAscii(EscapedRun(s, esc, false))
    decreases |s|
  {
    if s != [] {
      EscapedRunPrintable(s[1..], esc);
      var e := EscapedChar(s[0], esc, false);
      assert PrintableAscii(e);
    }
  }

  /** Outside UTF-8 mode every escaped string is printable ASCII. */
  lemma EscapedIsPrintableAscii(s: JString, esc: EscapeSpace)
    ensures PrintableAscii(Escaped(s, esc, false))
  {
    var n := if esc == NoSpaces then 0 else LeadingSpaces(s);
    EscapedRunPrintable(s[..n], AllSpaces);
    EscapedRunPrintable(s[n..], esc);
  }

  /** Every space in an escaped key comes right after a backslash. */
  predicate SpacesProtected(s: JString) {
    forall i | 0 <= i < |s| && s[i] == SPACE :: i > 0 && s[i - 1] == BACKSLASH
  }

  lemma {:induction false} KeyRunProtectsSpaces(s: JString, utf8: bool)
    ensures SpacesProtected(EscapedRun(s, AllSpaces, utf8))
    ensures EscapedRun(s, AllSpaces, utf8) == [] || EscapedRun(s, AllSpaces, utf8)[0] != SPACE
    decreases |s|
  {
    if s != [] {
      KeyRunProtectsSpaces(s[1..], utf8);
      var e := EscapedChar(s[0], AllSpaces, utf8);
      var t := EscapedRun(s[1..], AllSpaces, utf8);
      assert SpacesProtected(e);
      forall i | 0 <= i < |e + t| && (e + t)[i] == SPACE
        ensures i > 0 && (e + t)[i - 1] == BACKSLASH
      {
        if i >= |e| {
          assert (e + t)[i] == t[i - |e|];
          if i > |e| {
            assert (e + t)[i - 1] == t[i - |e| - 1];
          }
        }
      }
    }
  }

  /** Key escaping protects every space of the key. */
  lemma KeyEscapingProtectsSpaces(s: JString, utf8: bool)
    ensures SpacesProtected(Escaped(s, AllSpaces, utf8))
  {
    var n := LeadingSpaces(s);
    var a := EscapedRun(s[..n], AllSpaces, utf8);
    var b := EscapedRun(s[n..], AllSpaces, utf8);
    KeyRunProtectsSpaces(s[..n], utf8);
    KeyRunProtectsSpaces(s[n..], utf8);
    forall i | 0 <= i < |a + b| && (a + b)[i] == SPACE
      ensures i > 0 && (a + b)[i - 1] == BACKSLASH
    {
      if i >= |a| {
        assert (a + b)[i] == b[i - |a|];
        if i > |a| {
          assert (a + b)[i - 1] == b[i - |a| - 1];
        }
      }
    }
  }

  /** The number of spaces in `s`. */
  function Spaces(s: JString): (r: nat) {
    if s == [] then 0 else (if s[0] == SPACE then 1 else 0) + Spaces(s[1..])
  }

  lemma {:induction false} RunLengths(s: JString, utf8: bool)
    ensures |EscapedRun(s, AllSpaces, utf8)| == |EscapedRun(s, LeadingOnly, utf8)| + Spaces(s)
    decreases |s|
  {
    if s != [] {
      RunLengths(s[1..], utf8);
    }
  }

  /**
    Value escaping differs from key escaping only in the spaces after the
    leading white space: each one costs key escaping one more backslash, so
    the two agree exactly when no such space exists.
   */
  lemma ValueEscapingLeavesInnerSpaces(s: JString, utf8: bool)
    ensures |Escaped(s, AllSpaces, utf8)| == |Escaped(s, LeadingOnly, utf8)| + Spaces(s[LeadingSpaces(s)..])
    ensures Escaped(s, AllSpaces, utf8) == Escaped(s, LeadingOnly, utf8) <==> Spaces(s[LeadingSpaces(s)..]) == 0
  {
    var n := LeadingSpaces(s);
    RunLengths(s[n..], utf8);
    if Spaces(s[n..]) == 0 {
      SpacelessRunsAgree(s[n..], utf8);
    }
  }

  lemma {:induction false} SpacelessRunsAgree(s: JString, utf8: bool)
    requires Spaces(s) == 0
    ensures EscapedRun(s, AllSpaces, utf8) == EscapedRun(s, LeadingOnly, utf8)
    decreases |s|
  {
    if s != [] {
      SpacelessRunsAgree(s[1..], utf8);
    }
  }

  // ---------------------------------------------------------------------
  // Comments: only non-ASCII code units are escaped

  /** `escapeOnlyUnicode`: code units above U+007F become `\uXXXX`. */
  function UnicodeEscaped(s: JString): (r: JString)
    ensures |r| >= |s|
  {
    if s == [] then []
    else (if s[0] > 0x7F then UnicodeEscape(s[0]) else [s[0]]) + UnicodeEscaped(s[1..])
  }

  method EscapeOnlyUnicode(s: JString) returns (r: JString)
    ensures r == UnicodeEscaped(s)
  {
    r := [];
    var i := 0;
    SuffixEnds(s, 0);
    AppendEmpty(UnicodeEscaped(s));
    while i < |s|
      invariant i <= |s|
      invariant r + UnicodeEscaped(s[i..]) == UnicodeEscaped(s)
    {
      UnicodeEscapedAt(s, i);
      AppendAssoc(r, UnicodeEscapedUnit(s[i]), UnicodeEscaped(s[i + 1..]));
      if s[i] > 0x7F {
        r := r + UnicodeEscape(s[i]);
      } else {
        r := r + [s[i]];
      }
      i := i + 1;
    }
    SuffixEnds(s, i);
    AppendEmpty(r);
  }

  /** What `escapeOnlyUnicode` writes for one code unit. */
  function UnicodeEscapedUnit(c: CodeUnit): (r: JString)
    ensures c > 0x7F ==> r == UnicodeEscape(c)
    ensures c <= 0x7F ==> r == [c]
  {
    if c > 0x7F then UnicodeEscape(c) else [c]
  }

  lemma UnicodeEscapedAt(s: JString, i: nat)
    requires i < |s|
    ensures UnicodeEscaped(s[i..]) == UnicodeEscapedUnit(s[i]) + UnicodeEscaped(s[i + 1..])
  {
    SuffixHead(s, i);
  }

  /** Every code unit of an `escapeOnlyUnicode` result is ASCII. */
  lemma {:induction false} UnicodeEscapedIsAscii(s: JString)
    ensures forall i | 0 <= i < |UnicodeEscaped(s)| :: UnicodeEscaped(s)[i] <= 0x7F
    decreases |s|
  {
    if s != [] {
      UnicodeEscapedIsAscii(s[1..]);
    }
  }

  /**
    `unescapeOnlyUnicode`: a backslash with at least four code units after it
    is looked at together with the next one; `\u` and four digits become one
    code unit, any other pair is copied. As written the digits are read from
    one position too far, so a `\u` with exactly three code units after it
    fails; the corrected version reads the four digits only when they are
    there and copies the pair otherwise.
   */
  function UnicodeUnescaped(s: JString, corrected: bool): (r: Result<JString>)
    decreases |s|
  {
    if s == [] then Ok([])
    else if s[0] == BACKSLASH && |s| >= 5 then
      if s[1] == LOWER_U && |s| == 5 && !corrected then Err(StringIndexOutOfBoundsException)
      else if s[1] == LOWER_U && |s| >= 6 && UnicodeDigits(s[2..6], corrected).Some? then
        Prepend([UnicodeDigits(s[2..6], corrected).value], UnicodeUnescaped(s[6..], corrected))
      else Prepend(s[..2], UnicodeUnescaped(s[2..], corrected))
    else Prepend([s[0]], UnicodeUnescaped(s[1..], corrected))
  }

  /**
    `unescapeOnlyUnicode`, proved to compute `UnicodeUnescaped`: as written
    (`corrected` false) a `\u` followed by exactly three code units at the end
    fails; corrected it is copied.
   */
  method UnescapeOnlyUnicode(s: JString, corrected: bool) returns (r: Result<JString>)
    ensures r == UnicodeUnescaped(s, corrected)
  {
    var buf: JString := [];
    var i := 0;
    PrependNothing(UnicodeUnescaped(s, corrected));
    assert s[0..] == s;
    while i < |s|
      invariant i <= |s|
      invariant UnicodeUnescaped(s, corrected) == Prepend(buf, UnicodeUnescaped(s[i..], corrected))
    {
      var c := s[i];
      if c == BACKSLASH && i + 5 <= |s| {
        var isUniEsc := false;
        var c1 := s[i + 1];
        ghost var rest := s[i..];
        assert rest[..2] == [c, c1] && rest[2..] == s[i + 2..];
        if c1 == LOWER_U && !corrected && i + 6 > |s| {
          return Err(StringIndexOutOfBoundsException);
        }
        if c1 == LOWER_U && i + 6 <= |s| {
          assert rest[2..6] == s[i + 2..i + 6];
          assert rest[6..] == s[i + 6..];
          var digits := UnicodeDigits(s[i + 2..i + 6], corrected);
          if digits.Some? {
            PrependTwice(buf, [digits.value], UnicodeUnescaped(s[i + 6..], corrected));
            buf := buf + [digits.value];
            i := i + 4;
            isUniEsc := true;
          }
        }
        if !isUniEsc {
          PrependTwice(buf, [c, c1], UnicodeUnescaped(s[i + 2..], corrected));
          buf := buf + [c, c1];
        }
        i := i + 2;
      } else {
        assert s[i..][1..] == s[i + 1..];
        PrependTwice(buf, [c], UnicodeUnescaped(s[i + 1..], corrected));
        buf := buf + [c];
        i := i + 1;
      }
    }
    assert s[i..] == [];
    assert buf + [] == buf;
    r := Ok(buf);
  }

  /** With the corrected bound the comment decoder never fails. */
  lemma {:induction false} UnicodeUnescapeTotal(s: JString)
    ensures UnicodeUnescaped(s, true).Ok?
    decreases |s|
  {
    if s != [] {
      if s[0] == BACKSLASH && |s| >= 5 {
        UnicodeUnescapeTotal(s[2..]);
        if |s| >= 6 {
          UnicodeUnescapeTotal(s[6..]);
        }
      } else {
        UnicodeUnescapeTotal(s[1..]);
      }
    }
  }

  /** A comment without a backslash is left as it is. */
  lemma {:induction false} PlainCommentUnchanged(s: JString)
    requires BACKSLASH !in s
    ensures UnicodeUnescaped(s, true) == Ok(s) && UnicodeUnescaped(s, false) == Ok(s)
    decreases |s|
  {
    if s != [] {
      PlainCommentUnchanged(s[1..]);
      assert [s[0]] + s[1..] == s;
    }
  }

  /**
    Decoding comments undoes `escapeOnlyUnicode` for every comment without a
    backslash of its own.
   */
  lemma {:induction false} UnicodeRoundTrip(s: JString, corrected: bool)
    requires BACKSLASH !in s
    ensures UnicodeUnescaped(UnicodeEscaped(s), corrected) == Ok(s)
    decreases |s|
  {
    if s != [] {
      UnicodeRoundTrip(s[1..], corrected);
      var rest := UnicodeEscaped(s[1..]);
      if s[0] > 0x7F {
        UnicodeEscapeReadBack(s[0], rest, corrected);
      } else {
        PlainReadBack(s[0], rest, corrected);
      }
      Uncons(s);
    }
  }

  /** A `\uXXXX` escape reads back as its code unit. */
  lemma UnicodeEscapeReadBack(c: CodeUnit, rest: JString, corrected: bool)
    ensures UnicodeUnescaped(UnicodeEscape(c) + rest, corrected) == Prepend([c], UnicodeUnescaped(rest, corrected))
  {
    var t := UnicodeEscape(c) + rest;
    assert t[2..6] == Hex4(c) && t[6..] == rest;
    Hex4Value(c);
  }

  /** A code unit other than a backslash reads back as itself. */
  lemma PlainReadBack(c: CodeUnit, rest: JString, corrected: bool)
    requires c != BACKSLASH
    ensures UnicodeUnescaped([c] + rest, corrected) == Prepend([c], UnicodeUnescaped(rest, corrected))
  {
    ConsParts(c, rest);
  }

  // ---------------------------------------------------------------------
  // Discrepancies between the code as written and its evident intent

  /** As written, `\u+041` is accepted as `A`, since `parseInt` takes a sign. */
  lemma UnescapeAcceptsSignedDigits()
    ensures Unescaped([BACKSLASH, LOWER_U, PLUS, 0x30, 0x34, 0x31], false) == Ok([0x41])
    ensures Unescaped([BACKSLASH, LOWER_U, PLUS, 0x30, 0x34, 0x31], true) == Err(IllegalArgumentException)
  {
    var s: JString := [BACKSLASH, LOWER_U, PLUS, 0x30, 0x34, 0x31];
    var d: JString := [0x30, 0x34, 0x31];
    assert s[2..6] == [PLUS] + d && s[6..] == [];
    assert ([PLUS] + d)[1..] == d;
    assert [0x30][..0] == [] && HexNumber([0x30]) == 0;
    assert [0x30, 0x34][..1] == [0x30] && HexNumber([0x30, 0x34]) == 4;
    assert d[..2] == [0x30, 0x34] && HexNumber(d) == 0x41;
    assert [0x41] + [] == [0x41];
  }

  /** Corrected: a `\u` not followed by four hexadecimal digits fails. */
  lemma UnescapeRejectsMalformedUnicode(s: JString)
    requires |s| >= 2 && s[0] == BACKSLASH && s[1] == LOWER_U
    requires |s| < 6 || !AllHex(s[2..6])
    ensures Unescaped(s, true).Err?
  {
  }

  /** As written, a comment ending in `\uABC` makes `unescapeOnlyUnicode` fail. */
  lemma UnicodeUnescapeFailsOnShortEscape()
    ensures UnicodeUnescaped([BACKSLASH, LOWER_U, 0x41, 0x42, 0x43], false) == Err(StringIndexOutOfBoundsException)
    ensures UnicodeUnescaped([BACKSLASH, LOWER_U, 0x41, 0x42, 0x43], true) == Ok([BACKSLASH, LOWER_U, 0x41, 0x42, 0x43])
  {
    var s: JString := [BACKSLASH, LOWER_U, 0x41, 0x42, 0x43];
    assert s[..2] == [BACKSLASH, LOWER_U] && s[2..] == [0x41, 0x42, 0x43];
    PlainCommentUnchanged(s[2..]);
    assert s[..2] + s[2..] == s;
  }
}
