/**
  Single-quote handling of message patterns in `.properties` values
  (`ConvertSingleQuote` on write, `ConvertDoubleSingleQuote` on read).

  Whether a value is a message pattern, and whether it has a numbered
  argument, is decided by ICU's `MessagePattern`; the model receives that
  outcome as a `PatternInfo`.
 */
module PropertiesQuotes {
  import opened JavaText

  /** `JavaPropertiesResource.MessagePatternEscape`. */
  datatype MessagePatternEscape = Auto | All

  /** What `new MessagePattern(s)` makes of a string. */
  datatype PatternInfo = NotAPattern | Pattern(hasArgNumber: bool)

  /**
    Quotes are converted only in a message pattern, and in `Auto` mode only in
    one with a numbered argument such as `{0}`.
   */
  predicate Converts(info: PatternInfo, mode: MessagePatternEscape) {
    info.Pattern? && (mode == All || info.hasArgNumber)
  }

  predicate IsBrace(c: CodeUnit) {
    c == OPEN_BRACE || c == CLOSE_BRACE
  }

  /** `s.indexOf("''") >= 0`. */
  predicate HasQuotePair(s: JString) {
    exists i | 0 <= i < |s| - 1 :: s[i] == QUOTE && s[i + 1] == QUOTE
  }

  /**
    `ConvertSingleQuote` after its gates, from a position where quoted
    braces are (`keep`) or are not open: a quote before a brace opens a quoted
    brace and both are copied; inside one, `''` is copied and a lone quote
    closes it; any other quote is doubled.
   */
  function QuotesDoubled(s: JString, keep: bool): (r: JString)
    decreases |s|
  {
    if s == [] then []
    else if s[0] != QUOTE then [s[0]] + QuotesDoubled(s[1..], keep)
    else if !keep && |s| >= 2 && IsBrace(s[1]) then s[..2] + QuotesDoubled(s[2..], true)
    else if keep && |s| >= 2 && s[1] == QUOTE then s[..2] + QuotesDoubled(s[2..], true)
    else if keep then [QUOTE] + QuotesDoubled(s[1..], false)
    else [QUOTE, QUOTE] + QuotesDoubled(s[1..], false)
  }

  /**
    `ConvertDoubleSingleQuote` after its gates: quoted braces are kept as in
    `QuotesDoubled`; outside them `''` becomes `'` and a lone quote is copied.
   */
  function QuotesUndoubled(s: JString, keep: bool): (r: JString)
    decreases |s|
  {
    if s == [] then []
    else if s[0] != QUOTE then [s[0]] + QuotesUndoubled(s[1..], keep)
    else if !keep && |s| >= 2 && IsBrace(s[1]) then s[..2] + QuotesUndoubled(s[2..], true)
    else if keep && |s| >= 2 && s[1] == QUOTE then s[..2] + QuotesUndoubled(s[2..], true)
    else if keep then [QUOTE] + QuotesUndoubled(s[1..], false)
    else if |s| >= 2 && s[1] == QUOTE then [QUOTE] + QuotesUndoubled(s[2..], false)
    else [QUOTE] + QuotesUndoubled(s[1..], false)
  }

  /** `ConvertSingleQuote(s, mode)` for a string whose parse outcome is `info`. */
  function SingleQuoteConverted(s: JString, mode: MessagePatternEscape, info: PatternInfo): (r: JString) {
    if QUOTE !in s || !Converts(info, mode) then s else QuotesDoubled(s, false)
  }

  /** `ConvertDoubleSingleQuote(s, mode)` for a string whose parse outcome is `info`. */
  function DoubleSingleQuoteConverted(s: JString, mode: MessagePatternEscape, info: PatternInfo): (r: JString) {
    if !HasQuotePair(s) || !Converts(info, mode) then s else QuotesUndoubled(s, false)
  }

  // ---------------------------------------------------------------------
  // Round trip

  /** Undoubling restores what doubling wrote, from either state. */
  lemma {:induction false} UndoubleDoubled(s: JString, keep: bool)
    ensures QuotesUndoubled(QuotesDoubled(s, keep), keep) == s
    decreases |s|
  {
    if s == [] {
    } else if s[0] != QUOTE {
      UndoubleDoubled(s[1..], keep);
      var t := QuotesDoubled(s[1..], keep);
      assert ([s[0]] + t)[1..] == t;
    } else if (!keep && |s| >= 2 && IsBrace(s[1])) || (keep && |s| >= 2 && s[1] == QUOTE) {
      UndoubleDoubled(s[2..], true);
      var t := QuotesDoubled(s[2..], true);
      assert (s[..2] + t)[..2] == s[..2] && (s[..2] + t)[2..] == t;
      assert s[..2] + s[2..] == s;
    } else if keep {
      UndoubleDoubled(s[1..], false);
      var t := QuotesDoubled(s[1..], false);
      assert ([QUOTE] + t)[1..] == t;
      assert [QUOTE] + s[1..] == s;
    } else {
      UndoubleDoubled(s[1..], false);
      var t := QuotesDoubled(s[1..], false);
      assert ([QUOTE, QUOTE] + t)[2..] == t;
      assert [QUOTE] + s[1..] == s;
    }
  }

  /** Without a `''` pair there is nothing to undouble. */
  lemma {:induction false} UndoubleWithoutPairs(s: JString, keep: bool)
    requires !HasQuotePair(s)
    ensures QuotesUndoubled(s, keep) == s
    decreases |s|
  {
    if s != [] {
      NoPairInSuffix(s, 1);
      if |s| >= 2 {
        NoPairInSuffix(s, 2);
        UndoubleWithoutPairs(s[2..], true);
        assert s[..2] + s[2..] == s;
      }
      UndoubleWithoutPairs(s[1..], keep);
      UndoubleWithoutPairs(s[1..], !keep);
      assert [s[0]] + s[1..] == s;
    }
  }

  lemma NoPairInSuffix(s: JString, k: nat)
    requires k <= |s| && !HasQuotePair(s)
    ensures !HasQuotePair(s[k..])
  {
    forall i | 0 <= i < |s[k..]| - 1
      ensures !(s[k..][i] == QUOTE && s[k..][i + 1] == QUOTE)
    {
      assert s[k..][i] == s[k + i] && s[k..][i + 1] == s[k + i + 1];
    }
  }

  /**
    Reading back what was written restores the value: converting single
    quotes and then double single quotes is the identity, provided that
    `MessagePattern` (here `pattern`) still accepts the written value
    whenever it accepted the original.
   */
  lemma ConvertRoundTrip(s: JString, mode: MessagePatternEscape, pattern: JString -> PatternInfo)
    requires QUOTE in s && Converts(pattern(s), mode) ==> Converts(pattern(QuotesDoubled(s, false)), mode)
    ensures DoubleSingleQuoteConverted(SingleQuoteConverted(s, mode, pattern(s)), mode, pattern(SingleQuoteConverted(s, mode, pattern(s)))) == s
  {
    var w := SingleQuoteConverted(s, mode, pattern(s));
    if QUOTE !in s {
      forall i | 0 <= i < |s| - 1
        ensures s[i] != QUOTE
      {
        assert s[i] in s;
      }
    } else if Converts(pattern(s), mode) {
      UndoubleDoubled(s, false);
      if !HasQuotePair(w) {
        UndoubleWithoutPairs(w, false);
      }
    }
  }

  // ---------------------------------------------------------------------
  // The Java loops

  /** `QuotesDoubled` copies a code unit other than a quote. */
  lemma DoubledHead(t: JString, keep: bool)
    requires t != [] && t[0] != QUOTE
    ensures QuotesDoubled(t, keep) == [t[0]] + QuotesDoubled(t[1..], keep)
  {
  }

  /** Code units without a quote are copied by `QuotesDoubled`. */
  lemma {:induction false} QuoteFreeDoubled(s: JString, a: nat, b: nat, keep: bool)
    requires a <= b <= |s|
    requires forall k | a <= k < b :: s[k] != QUOTE
    ensures QuotesDoubled(s[a..], keep) == s[a..b] + QuotesDoubled(s[b..], keep)
    decreases b - a
  {
    if a < b {
      QuoteFreeDoubled(s, a + 1, b, keep);
      var rest := QuotesDoubled(s[b..], keep);
      var t := s[a..];
      assert t[0] == s[a] && t[1..] == s[a + 1..];
      DoubledHead(t, keep);
      assert s[a..b] == [s[a]] + s[a + 1..b];
      assert [s[a]] + (s[a + 1..b] + rest) == ([s[a]] + s[a + 1..b]) + rest;
    } else {
      assert s[a..b] == [];
    }
  }

  /** `QuotesUndoubled` copies a code unit other than a quote. */
  lemma UndoubledHead(t: JString, keep: bool)
    requires t != [] && t[0] != QUOTE
    ensures QuotesUndoubled(t, keep) == [t[0]] + QuotesUndoubled(t[1..], keep)
  {
  }

  /** Code units without a quote are copied by `QuotesUndoubled`. */
  lemma {:induction false} QuoteFreeUndoubled(s: JString, a: nat, b: nat, keep: bool)
    requires a <= b <= |s|
    requires forall k | a <= k < b :: s[k] != QUOTE
    ensures QuotesUndoubled(s[a..], keep) == s[a..b] + QuotesUndoubled(s[b..], keep)
    decreases b - a
  {
    if a < b {
      QuoteFreeUndoubled(s, a + 1, b, keep);
      var rest := QuotesUndoubled(s[b..], keep);
      var t := s[a..];
      assert t[0] == s[a] && t[1..] == s[a + 1..];
      UndoubledHead(t, keep);
      assert s[a..b] == [s[a]] + s[a + 1..b];
      assert [s[a]] + (s[a + 1..b] + rest) == ([s[a]] + s[a + 1..b]) + rest;
    } else {
      assert s[a..b] == [];
    }
  }

  /**
    The loop invariant of both conversions: `out`, then the code units not
    yet copied, then the conversion of the rest, make up the whole result.
   */
  predicate Pending(s: JString, out: JString, o: nat, q: nat, tail: JString, total: JString) {
    o <= q <= |s| && out + s[o..q] + tail == total
  }

  /** Slices of the rest of the string from a quote, one or two positions on. */
  lemma SlicesAt(s: JString, idx: nat)
    requires idx < |s|
    ensures s[idx..][1..] == s[idx + 1..] && s[idx..idx + 1] == [s[idx]]
    ensures idx + 1 < |s| ==> s[idx..][2..] == s[idx + 2..] && s[idx..][..2] == s[idx..idx + 2]
  {
  }

  /** What `QuotesDoubled` does at a quote, case by case. */
  lemma DoubledAtQuote(s: JString, idx: nat, keep: bool)
    requires idx < |s| && s[idx] == QUOTE
    ensures !keep && idx + 1 < |s| && IsBrace(s[idx + 1]) ==>
      QuotesDoubled(s[idx..], keep) == s[idx..idx + 2] + QuotesDoubled(s[idx + 2..], true)
    ensures keep && idx + 1 < |s| && s[idx + 1] == QUOTE ==>
      QuotesDoubled(s[idx..], keep) == s[idx..idx + 2] + QuotesDoubled(s[idx + 2..], true)
    ensures keep && !(idx + 1 < |s| && s[idx + 1] == QUOTE) ==>
      QuotesDoubled(s[idx..], keep) == s[idx..idx + 1] + QuotesDoubled(s[idx + 1..], false)
    ensures !keep && !(idx + 1 < |s| && IsBrace(s[idx + 1])) ==>
      QuotesDoubled(s[idx..], keep) == [QUOTE, QUOTE] + QuotesDoubled(s[idx + 1..], false)
  {
    SlicesAt(s, idx);
  }

  /** Moving the scan position past copied code units keeps the invariant. */
  lemma Advance(s: JString, out: JString, o: nat, q: nat, idx: nat, q2: nat, tail: JString, mid: JString, tail2: JString, total: JString)
    requires Pending(s, out, o, q, tail, total)
    requires q <= idx <= q2 <= |s|
    requires tail == s[q..idx] + mid && mid == s[idx..q2] + tail2
    ensures Pending(s, out, o, q2, tail2, total)
  {
    assert s[o..q] + s[q..idx] + s[idx..q2] == s[o..q2];
  }

  /** Emitting the pending code units and a replacement `e` keeps the invariant. */
  lemma Emit(s: JString, out: JString, o: nat, q: nat, idx: nat, q2: nat, e: JString, tail: JString, mid: JString, tail2: JString, total: JString)
    requires Pending(s, out, o, q, tail, total)
    requires q <= idx <= q2 <= |s|
    requires tail == s[q..idx] + mid && mid == e + tail2
    ensures Pending(s, out + s[o..idx] + e, q2, q2, tail2, total)
  {
    assert s[o..q] + s[q..idx] == s[o..idx];
    assert s[q2..q2] == [];
  }

  /**
    Passing over the quote-free code units up to `idx` and then the code
    units `idx..q2`, which the conversion copies unchanged, keeps the invariant.
   */
  lemma SkipDoubled(s: JString, out: JString, o: nat, q: nat, keep: bool, idx: nat, q2: nat, keep2: bool, total: JString)
    requires q <= idx < q2 <= |s|
    requires forall k | q <= k < idx :: s[k] != QUOTE
    requires Pending(s, out, o, q, QuotesDoubled(s[q..], keep), total)
    requires QuotesDoubled(s[idx..], keep) == s[idx..q2] + QuotesDoubled(s[q2..], keep2)
    ensures Pending(s, out, o, q2, QuotesDoubled(s[q2..], keep2), total)
  {
    QuoteFreeDoubled(s, q, idx, keep);
    Advance(s, out, o, q, idx, q2, QuotesDoubled(s[q..], keep), QuotesDoubled(s[idx..], keep), QuotesDoubled(s[q2..], keep2), total);
  }

  /**
    Passing over the quote-free code units up to `idx`, then emitting them
    with `e` in place of the code units `idx..q2`, keeps the invariant.
   */
  lemma EmitDoubled(s: JString, out: JString, o: nat, q: nat, keep: bool, idx: nat, q2: nat, e: JString, total: JString)
    requires q <= idx < q2 <= |s|
    requires forall k | q <= k < idx :: s[k] != QUOTE
    requires Pending(s, out, o, q, QuotesDoubled(s[q..], keep), total)
    requires QuotesDoubled(s[idx..], keep) == e + QuotesDoubled(s[q2..], false)
    ensures Pending(s, out + s[o..idx] + e, q2, q2, QuotesDoubled(s[q2..], false), total)
  {
    QuoteFreeDoubled(s, q, idx, keep);
    Emit(s, out, o, q, idx, q2, e, QuotesDoubled(s[q..], keep), QuotesDoubled(s[idx..], keep), QuotesDoubled(s[q2..], false), total);
  }

  /** The `QuotesUndoubled` counterpart of `SkipDoubled`. */
  lemma SkipUndoubled(s: JString, out: JString, o: nat, q: nat, keep: bool, idx: nat, q2: nat, keep2: bool, total: JString)
    requires q <= idx < q2 <= |s|
    requires forall k | q <= k < idx :: s[k] != QUOTE
    requires Pending(s, out, o, q, QuotesUndoubled(s[q..], keep), total)
    requires QuotesUndoubled(s[idx..], keep) == s[idx..q2] + QuotesUndoubled(s[q2..], keep2)
    ensures Pending(s, out, o, q2, QuotesUndoubled(s[q2..], keep2), total)
  {
    QuoteFreeUndoubled(s, q, idx, keep);
    Advance(s, out, o, q, idx, q2, QuotesUndoubled(s[q..], keep), QuotesUndoubled(s[idx..], keep), QuotesUndoubled(s[q2..], keep2), total);
  }

  /** The `QuotesUndoubled` counterpart of `EmitDoubled`. */
  lemma EmitUndoubled(s: JString, out: JString, o: nat, q: nat, keep: bool, idx: nat, q2: nat, e: JString, total: JString)
    requires q <= idx < q2 <= |s|
    requires forall k | q <= k < idx :: s[k] != QUOTE
    requires Pending(s, out, o, q, QuotesUndoubled(s[q..], keep), total)
    requires QuotesUndoubled(s[idx..], keep) == e + QuotesUndoubled(s[q2..], false)
    ensures Pending(s, out + s[o..idx] + e, q2, q2, QuotesUndoubled(s[q2..], false), total)
  {
    QuoteFreeUndoubled(s, q, idx, keep);
    Emit(s, out, o, q, idx, q2, e, QuotesUndoubled(s[q..], keep), QuotesUndoubled(s[idx..], keep), QuotesUndoubled(s[q2..], false), total);
  }

  /**
    One round of the `ConvertSingleQuote` loop, at the quote `idx` that
    `indexOf` found at or after `quoteIndex`.
   */
  method DoubleAt(s: JString, out: JString, outstrIndex: nat, quoteIndex: nat, keepQuote: bool, idx: nat, ghost total: JString)
    returns (out': JString, outstrIndex': nat, quoteIndex': nat, keepQuote': bool)
    requires quoteIndex <= idx < |s| && s[idx] == QUOTE
    requires forall k | quoteIndex <= k < idx :: s[k] != QUOTE
    requires Pending(s, out, outstrIndex, quoteIndex, QuotesDoubled(s[quoteIndex..], keepQuote), total)
    ensures idx < quoteIndex' <= |s|
    ensures Pending(s, out', outstrIndex', quoteIndex', QuotesDoubled(s[quoteIndex'..], keepQuote'), total)
  {
    DoubledAtQuote(s, idx, keepQuote);
    out', outstrIndex', keepQuote' := out, outstrIndex, keepQuote;
    if !keepQuote && idx + 1 < |s| && IsBrace(s[idx + 1]) {
      SkipDoubled(s, out, outstrIndex, quoteIndex, keepQuote, idx, idx + 2, true, total);
      keepQuote' := true;
      quoteIndex' := idx + 2;
    } else if keepQuote {
      if idx + 1 < |s| && s[idx + 1] == QUOTE {
        SkipDoubled(s, out, outstrIndex, quoteIndex, keepQuote, idx, idx + 2, true, total);
        quoteIndex' := idx + 2;
      } else {
        SkipDoubled(s, out, outstrIndex, quoteIndex, keepQuote, idx, idx + 1, false, total);
        keepQuote' := false;
        quoteIndex' := idx + 1;
      }
    } else {
      EmitDoubled(s, out, outstrIndex, quoteIndex, keepQuote, idx, idx + 1, [QUOTE, QUOTE], total);
      out' := out + s[outstrIndex..idx] + [QUOTE, QUOTE];
      quoteIndex' := idx + 1;
      outstrIndex' := quoteIndex';
    }
  }

  /** The rest of the string holds no quote: it is copied. */
  lemma CopyRestDoubled(s: JString, out: JString, outstrIndex: nat, quoteIndex: nat, keepQuote: bool, total: JString)
    requires quoteIndex <= |s|
    requires forall k | quoteIndex <= k < |s| :: s[k] != QUOTE
    requires Pending(s, out, outstrIndex, quoteIndex, QuotesDoubled(s[quoteIndex..], keepQuote), total)
    ensures out + s[outstrIndex..] == total
  {
    QuoteFreeDoubled(s, quoteIndex, |s|, keepQuote);
    assert s[|s|..] == [] && s[quoteIndex..|s|] == s[quoteIndex..];
    SliceJoin(s, outstrIndex, quoteIndex);
    AppendAssoc(out, s[outstrIndex..quoteIndex], s[quoteIndex..]);
  }

  /** `ConvertSingleQuote`: the gates and the `indexOf` loop, proved to compute `SingleQuoteConverted`. */
  method ConvertSingleQuote(s: JString, mode: MessagePatternEscape, info: PatternInfo) returns (r: JString)
    ensures r == SingleQuoteConverted(s, mode, info)
  {
    if IndexOf(s, QUOTE) < 0 || !Converts(info, mode) {
      return s;
    }
    ghost var total := QuotesDoubled(s, false);
    var out: JString := [];
    var len := |s|;
    var keepQuote := false;
    var outstrIndex: nat := 0;
    var quoteIndex: nat := 0;
    assert s[0..] == s && s[0..0] == [];
    while quoteIndex < len
      invariant quoteIndex <= len
      invariant Pending(s, out, outstrIndex, quoteIndex, QuotesDoubled(s[quoteIndex..], keepQuote), total)
      decreases len - quoteIndex
    {
      var idx := IndexOfFrom(s, QUOTE, quoteIndex);
      if idx > -1 {
        out, outstrIndex, quoteIndex, keepQuote := DoubleAt(s, out, outstrIndex, quoteIndex, keepQuote, idx, total);
      } else {
        CopyRestDoubled(s, out, outstrIndex, quoteIndex, keepQuote, total);
        return out + s[outstrIndex..];
      }
    }
    CopyRestDoubled(s, out, outstrIndex, quoteIndex, keepQuote, total);
    r := out + s[outstrIndex..];
  }

  /**
    One round of the `ConvertDoubleSingleQuote` loop, at the quote `idx` that
    `indexOf` found at or after `quoteIndex`.
   */
  method UndoubleAt(s: JString, out: JString, outstrIndex: nat, quoteIndex: nat, keepQuote: bool, idx: nat, ghost total: JString)
    returns (out': JString, outstrIndex': nat, quoteIndex': nat, keepQuote': bool)
    requires quoteIndex <= idx < |s| && s[idx] == QUOTE
    requires forall k | quoteIndex <= k < idx :: s[k] != QUOTE
    requires Pending(s, out, outstrIndex, quoteIndex, QuotesUndoubled(s[quoteIndex..], keepQuote), total)
    ensures idx < quoteIndex' <= |s|
    ensures Pending(s, out', outstrIndex', quoteIndex', QuotesUndoubled(s[quoteIndex'..], keepQuote'), total)
  {
    SlicesAt(s, idx);
    out', outstrIndex', keepQuote' := out, outstrIndex, keepQuote;
    if !keepQuote && idx + 1 < |s| && IsBrace(s[idx + 1]) {
      SkipUndoubled(s, out, outstrIndex, quoteIndex, keepQuote, idx, idx + 2, true, total);
      keepQuote' := true;
      quoteIndex' := idx + 2;
    } else if keepQuote {
      if idx + 1 < |s| && s[idx + 1] == QUOTE {
        SkipUndoubled(s, out, outstrIndex, quoteIndex, keepQuote, idx, idx + 2, true, total);
        quoteIndex' := idx + 2;
      } else {
        SkipUndoubled(s, out, outstrIndex, quoteIndex, keepQuote, idx, idx + 1, false, total);
        keepQuote' := false;
        quoteIndex' := idx + 1;
      }
    } else {
      out', outstrIndex', quoteIndex' := EmitUnquoted(s, out, outstrIndex, quoteIndex, idx, total);
      keepQuote' := false;
    }
  }

  /**
    The part of a `ConvertDoubleSingleQuote` round outside quoted braces, at a
    quote not followed by a brace: `''` is emitted as `'`, a lone quote as is.
   */
  method EmitUnquoted(s: JString, out: JString, outstrIndex: nat, quoteIndex: nat, idx: nat, ghost total: JString)
    returns (out': JString, outstrIndex': nat, quoteIndex': nat)
    requires quoteIndex <= idx < |s| && s[idx] == QUOTE
    requires !(idx + 1 < |s| && IsBrace(s[idx + 1]))
    requires forall k | quoteIndex <= k < idx :: s[k] != QUOTE
    requires Pending(s, out, outstrIndex, quoteIndex, QuotesUndoubled(s[quoteIndex..], false), total)
    ensures idx < quoteIndex' <= |s|
    ensures Pending(s, out', outstrIndex', quoteIndex', QuotesUndoubled(s[quoteIndex'..], false), total)
  {
    SlicesAt(s, idx);
    if idx + 1 < |s| && s[idx + 1] == QUOTE {
      EmitUndoubled(s, out, outstrIndex, quoteIndex, false, idx, idx + 2, [QUOTE], total);
      out' := out + s[outstrIndex..idx] + [QUOTE];
      quoteIndex' := idx + 2;
      outstrIndex' := quoteIndex';
    } else {
      EmitUndoubled(s, out, outstrIndex, quoteIndex, false, idx, idx + 1, [QUOTE], total);
      assert s[outstrIndex..idx] + [QUOTE] == s[outstrIndex..idx + 1];
      quoteIndex' := idx + 1;
      out' := out + s[outstrIndex..quoteIndex'];
      outstrIndex' := quoteIndex';
    }
  }

  /** The rest of the string holds no quote: it is copied. */
  lemma CopyRestUndoubled(s: JString, out: JString, outstrIndex: nat, quoteIndex: nat, keepQuote: bool, total: JString)
    requires quoteIndex <= |s|
    requires forall k | quoteIndex <= k < |s| :: s[k] != QUOTE
    requires Pending(s, out, outstrIndex, quoteIndex, QuotesUndoubled(s[quoteIndex..], keepQuote), total)
    ensures out + s[outstrIndex..] == total
  {
    QuoteFreeUndoubled(s, quoteIndex, |s|, keepQuote);
    assert s[|s|..] == [] && s[quoteIndex..|s|] == s[quoteIndex..];
    SliceJoin(s, outstrIndex, quoteIndex);
    AppendAssoc(out, s[outstrIndex..quoteIndex], s[quoteIndex..]);
  }

  /** `ConvertDoubleSingleQuote`: the gates and the `indexOf` loop, proved to compute `DoubleSingleQuoteConverted`. */
  method ConvertDoubleSingleQuote(s: JString, mode: MessagePatternEscape, info: PatternInfo) returns (r: JString)
    ensures r == DoubleSingleQuoteConverted(s, mode, info)
  {
    var pair := FindQuotePair(s);
    if pair < 0 || !Converts(info, mode) {
      return s;
    }
    ghost var total := QuotesUndoubled(s, false);
    var out: JString := [];
    var len := |s|;
    var keepQuote := false;
    var outstrIndex: nat := 0;
    var quoteIndex: nat := 0;
    assert s[0..] == s && s[0..0] == [];
    while quoteIndex < len
      invariant quoteIndex <= len
      invariant Pending(s, out, outstrIndex, quoteIndex, QuotesUndoubled(s[quoteIndex..], keepQuote), total)
      decreases len - quoteIndex
    {
      var idx := IndexOfFrom(s, QUOTE, quoteIndex);
      if idx > -1 {
        out, outstrIndex, quoteIndex, keepQuote := UndoubleAt(s, out, outstrIndex, quoteIndex, keepQuote, idx, total);
      } else {
        CopyRestUndoubled(s, out, outstrIndex, quoteIndex, keepQuote, total);
        return out + s[outstrIndex..];
      }
    }
    CopyRestUndoubled(s, out, outstrIndex, quoteIndex, keepQuote, total);
    r := out + s[outstrIndex..];
  }

  /** `s.indexOf("''")`: the first position of a quote pair, or -1. */
  method FindQuotePair(s: JString) returns (r: int)
    ensures r >= -1
    ensures r == -1 <==> !HasQuotePair(s)
    ensures r >= 0 ==> r < |s| - 1 && s[r] == QUOTE && s[r + 1] == QUOTE
  {
    r := 0;
    while r < |s| - 1
      invariant 0 <= r
      invariant forall i | 0 <= i < r && i < |s| - 1 :: !(s[i] == QUOTE && s[i + 1] == QUOTE)
    {
      if s[r] == QUOTE && s[r + 1] == QUOTE {
        return;
      }
      r := r + 1;
    }
    r := -1;
  }
}
