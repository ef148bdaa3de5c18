/**
  The key flattening of the JSON resource filter: `parse` walks the JSON
  tree and gives every string leaf a single key, a JSONPath-like path
  built by `encodeResourceKey`; `write` splits such a key back into its
  pieces with `findTokens` and `splitKeyPieces`.

  The JSON tree Gson parses is the datatype `JsonElement`.
 */
module JsonResource {
  import opened Wrappers
  import opened JavaText
  import opened ResourceStrings
  import opened LanguageBundles
  import opened LanguageBundleBuilders

  /** A parsed JSON value; an object's members are in document order. */
  datatype JsonElement =
    | JsonObject(members: seq<(JString, JsonElement)>)
    | JsonArray(elements: seq<JsonElement>)
    | JsonText(text: JString)
    | JsonOtherPrimitive
    | JsonNull

  /** `'`, the text a single quote becomes inside a bracketed key. */
  const ESCAPED_QUOTE: JString := [BACKSLASH, LOWER_U, 0x30, 0x30, 0x32, 0x37]

  // ---------------------------------------------------------------------
  // encodeResourceKey

  /** `USE_JSONPATH_PATTERN`, `^\$[.\[].*`, matched against the whole key. */
  predicate IsJsonPath(key: JString) {
    |key| >= 2 && key[0] == DOLLAR && (key[1] == DOT || key[1] == OPEN_BRACKET) && NoTerminator(key[2..])
  }

  predicate IsBracketChar(c: CodeUnit) {
    c == DOT || c == QUOTE || c == OPEN_BRACKET || c == CLOSE_BRACKET
  }

  /** `USE_BRACKET_PATTERN` is found in the key: it holds `.`, `'`, `[` or `]`. */
  predicate NeedsBracket(key: JString) {
    exists i | 0 <= i < |key| :: IsBracketChar(key[i])
  }

  /** `replaceAll("'", "\\\\u0027")`: every single quote becomes `'`. */
  function EscapeQuotes(s: JString): (r: JString)
    ensures QUOTE !in r
    ensures forall c | c in r && c !in ESCAPED_QUOTE :: c in s
  {
    if s == [] then []
    else (if s[0] == QUOTE then ESCAPED_QUOTE else [s[0]]) + EscapeQuotes(s[1..])
  }

  /** `['key']`, with the quotes in the key escaped. */
  function Bracketed(key: JString): (r: JString) {
    [OPEN_BRACKET, QUOTE] + EscapeQuotes(key) + [QUOTE, CLOSE_BRACKET]
  }

  /**
    `encodeResourceKey`: the key of a node under the node whose key is
    `parent`. An absent or empty key throws. A leaf directly under the
    root keeps its key, unless the key looks like a JSONPath, when it is
    bracketed after `$`. Elsewhere a key holding `.`, `'`, `[` or `]` is
    bracketed, and any other key is appended after a dot; the parent of a
    node directly under the root is `$`.
   */
  function EncodeResourceKey(parent: Option<JString>, key: Option<JString>, isLeaf: bool): (r: Result<JString>)
    ensures r.Err? <==> key.None? || key.value == []
    ensures r.Err? ==> r.thrown == IllegalArgumentException
    ensures r.Ok? && (parent.None? || parent.value == []) && isLeaf && !IsJsonPath(key.value) ==> r.value == key.value
    ensures r.Ok? && (parent.None? || parent.value == []) && isLeaf && IsJsonPath(key.value) ==>
      r.value == [DOLLAR] + Bracketed(key.value)
    ensures r.Ok? && (parent.None? || parent.value == []) && !isLeaf ==>
      r.value == [DOLLAR] + (if NeedsBracket(key.value) then Bracketed(key.value) else [DOT] + key.value)
    ensures r.Ok? && parent.Some? && parent.value != [] ==>
      r.value == parent.value + (if NeedsBracket(key.value) then Bracketed(key.value) else [DOT] + key.value)
  {
    if key.None? || key.value == [] then Err(IllegalArgumentException)
    else
      var k := key.value;
      var atRoot := parent.None? || parent.value == [];
      var encodeKey := if atRoot && isLeaf then IsJsonPath(k) else NeedsBracket(k);
      var buf := if !atRoot then parent.value else if isLeaf && !encodeKey then [] else [DOLLAR];
      if encodeKey then Ok(buf + Bracketed(k))
      else Ok((if buf != [] then buf + [DOT] else buf) + k)
  }

  // ---------------------------------------------------------------------
  // findTokens

  /**
    U+FFFF, the value `StringCharacterIterator` returns as `DONE` past the
    end: the scan of `findTokens` also stops at a unit with this value.
   */
  const DONE: CodeUnit := 0xFFFF

  predicate IsDelimiter(c: CodeUnit) {
    c == DOT || c == OPEN_BRACKET || c == CLOSE_BRACKET
  }

  /**
    The tokens `findTokens` collects from `data`, having read up to it
    with `inQuotes` and `current`: a single quote flips `inQuotes` and is
    kept; `.`, `[` and `]` outside quotes end a non-empty token; the last
    token is always emitted, even when empty. The scan ends at the end of
    the text or at the first U+FFFF.
   */
  function TokensFrom(data: JString, inQuotes: bool, current: JString): (r: seq<JString>)
    ensures r != []
    decreases |data|
  {
    if data == [] || data[0] == DONE then [current]
    else
      var c := data[0];
      var q := if c == QUOTE then !inQuotes else inQuotes;
      if !q && IsDelimiter(c) then
        (if current != [] then [current] else []) + TokensFrom(data[1..], q, [])
      else TokensFrom(data[1..], q, current + [c])
  }

  /** `findTokens(data)`. */
  function Tokens(data: JString): (r: seq<JString>) {
    TokensFrom(data, false, [])
  }

  /** `data` up to its first U+FFFF, without the delimiters that stand outside quotes. */
  function Kept(data: JString, inQuotes: bool): (r: JString)
    decreases |data|
  {
    if data == [] || data[0] == DONE then []
    else
      var q := if data[0] == QUOTE then !inQuotes else inQuotes;
      (if !q && IsDelimiter(data[0]) then [] else [data[0]]) + Kept(data[1..], q)
  }

  /** The tokens, one after the other, are the text with the delimiters outside quotes taken out. */
  lemma {:induction false} TokensKeepText(data: JString, inQuotes: bool, current: JString)
    ensures Flatten(TokensFrom(data, inQuotes, current)) == current + Kept(data, inQuotes)
    decreases |data|
  {
    if data == [] || data[0] == DONE {
      assert Flatten([current]) == current + Flatten([current][1..]);
      assert [current][1..] == [];
      AppendEmpty(current);
    } else {
      var c := data[0];
      var q := if c == QUOTE then !inQuotes else inQuotes;
      TokensKeepText(data[1..], q, if !q && IsDelimiter(c) then [] else current + [c]);
      if !q && IsDelimiter(c) {
        var rest := TokensFrom(data[1..], q, []);
        if current != [] {
          assert [current] + rest == [current] + rest;
          assert Flatten([current] + rest) == current + Flatten(rest) by {
            assert ([current] + rest)[0] == current && ([current] + rest)[1..] == rest;
          }
        } else {
          assert [] + rest == rest;
        }
        AppendEmpty(Kept(data[1..], q));
      } else {
        AppendAssoc(current, [c], Kept(data[1..], q));
      }
    }
  }

  /** Every token but the last is non-empty. */
  lemma {:induction false} TokensNonEmpty(data: JString, inQuotes: bool, current: JString)
    ensures forall i | 0 <= i < |TokensFrom(data, inQuotes, current)| - 1 :: TokensFrom(data, inQuotes, current)[i] != []
    decreases |data|
  {
    if data != [] && data[0] != DONE {
      var c := data[0];
      var q := if c == QUOTE then !inQuotes else inQuotes;
      TokensNonEmpty(data[1..], q, if !q && IsDelimiter(c) then [] else current + [c]);
    }
  }

  /** `findTokens`: one pass over `data` with a token buffer. */
  method FindTokens(data: JString) returns (tokens: seq<JString>)
    ensures tokens == Tokens(data)
  {
    tokens := [];
    var inQuotes := false;
    var currentToken: JString := [];
    var i := 0;
    while i < |data| && data[i] != DONE
      invariant 0 <= i <= |data|
      invariant tokens + TokensFrom(data[i..], inQuotes, currentToken) == Tokens(data)
    {
      var c := data[i];
      assert data[i..][0] == c && data[i..][1..] == data[i + 1..];
      if c == QUOTE {
        inQuotes := !inQuotes;
      }
      if !inQuotes && IsDelimiter(c) {
        if currentToken != [] {
          AppendAssoc(tokens, [currentToken], TokensFrom(data[i + 1..], inQuotes, []));
          tokens := tokens + [currentToken];
          currentToken := [];
        } else {
          assert [] + TokensFrom(data[i + 1..], inQuotes, []) == TokensFrom(data[i + 1..], inQuotes, []);
        }
      } else {
        currentToken := currentToken + [c];
      }
      i := i + 1;
    }
    assert TokensFrom(data[i..], inQuotes, currentToken) == [currentToken];
    tokens := tokens + [currentToken];
  }

  // ---------------------------------------------------------------------
  // splitKeyPieces

  /** What a key piece stands for: a member of an object or an element of an array. */
  datatype PieceType = BeginObject | BeginArray

  /** `KeyPiece`: one step of a path. */
  datatype KeyPiece = KeyPiece(keyValue: JString, keyType: PieceType)

  predicate IsDigit(c: CodeUnit) {
    0x30 <= c <= 0x39
  }

  /** `^\d+$` matches: one or more ASCII digits. */
  predicate AllDigits(s: JString) {
    s != [] && forall i | 0 <= i < |s| :: IsDigit(s[i])
  }

  /** Does `s` hold the text `'`? */
  predicate HoldsEscapedQuote(s: JString)
    decreases |s|
  {
    s != [] && (StartsWith(s, ESCAPED_QUOTE) || HoldsEscapedQuote(s[1..]))
  }

  /** `replaceAll("\\\\u0027", "'")`: from left to right, each `'` becomes a single quote. */
  function UnescapeQuotes(s: JString): (r: JString)
    decreases |s|
  {
    if s == [] then []
    else if StartsWith(s, ESCAPED_QUOTE) then [QUOTE] + UnescapeQuotes(s[6..])
    else [s[0]] + UnescapeQuotes(s[1..])
  }

  /** The non-empty parts of `s` between dots, after the part `current` already read. */
  function DotParts(s: JString, current: JString): (r: seq<JString>)
    decreases |s|
  {
    if s == [] then (if current == [] then [] else [current])
    else if s[0] == DOT then (if current == [] then [] else [current]) + DotParts(s[1..], [])
    else DotParts(s[1..], current + [s[0]])
  }

  /**
    The pieces of one token: a token that starts with a quote is an object
    key, unquoted (a lone quote throws); a token of digits is an array
    index; any other token gives an object key per non-empty part between
    dots.
   */
  function TokenPieces(s: JString): (r: Result<seq<KeyPiece>>)
    ensures r.Err? <==> s == [QUOTE]
    ensures r.Err? ==> r.thrown == StringIndexOutOfBoundsException
  {
    if s != [] && s[0] == QUOTE then
      if |s| < 2 then Err(StringIndexOutOfBoundsException)
      else Ok([KeyPiece(UnescapeQuotes(s[1..|s| - 1]), BeginObject)])
    else if AllDigits(s) then Ok([KeyPiece(s, BeginArray)])
    else
      var parts := DotParts(s, []);
      Ok(seq(|parts|, i requires 0 <= i < |parts| => KeyPiece(parts[i], BeginObject)))
  }

  /** `s` without its dots. */
  function WithoutDots(s: JString): (r: JString)
    ensures DOT !in r
  {
    if s == [] then [] else (if s[0] == DOT then [] else [s[0]]) + WithoutDots(s[1..])
  }

  /** The key text of each piece. */
  function KeyValues(v: seq<KeyPiece>): (r: seq<JString>) {
    seq(|v|, i requires 0 <= i < |v| => v[i].keyValue)
  }

  /** The parts between dots are non-empty, hold no dot, and together are the text without its dots. */
  lemma {:induction false} DotPartsSplit(s: JString, current: JString)
    requires DOT !in current
    ensures forall i | 0 <= i < |DotParts(s, current)| :: DotParts(s, current)[i] != [] && DOT !in DotParts(s, current)[i]
    ensures Flatten(DotParts(s, current)) == current + WithoutDots(s)
    decreases |s|
  {
    if s == [] {
      if current == [] {
      } else {
        assert Flatten([current]) == current + Flatten([current][1..]);
        assert [current][1..] == [];
      }
      AppendEmpty(current);
    } else if s[0] == DOT {
      var rest := DotParts(s[1..], []);
      DotPartsSplit(s[1..], []);
      AppendEmpty(WithoutDots(s[1..]));
      if current != [] {
        assert ([current] + rest)[0] == current && ([current] + rest)[1..] == rest;
      } else {
        assert [] + rest == rest;
        AppendEmpty(WithoutDots(s));
      }
    } else {
      DotPartsSplit(s[1..], current + [s[0]]);
      AppendAssoc(current, [s[0]], WithoutDots(s[1..]));
    }
  }

  /**
    A token that is neither quoted nor all digits gives object keys only:
    non-empty, free of dots, and together the token without its dots.
   */
  lemma PlainTokenPieces(s: JString)
    requires s == [] || (s[0] != QUOTE && !AllDigits(s))
    ensures TokenPieces(s).Ok?
    ensures forall i | 0 <= i < |TokenPieces(s).value| ::
      TokenPieces(s).value[i].keyType == BeginObject && TokenPieces(s).value[i].keyValue != [] &&
      DOT !in TokenPieces(s).value[i].keyValue
    ensures Flatten(KeyValues(TokenPieces(s).value)) == WithoutDots(s)
  {
    DotPartsSplit(s, []);
    assert KeyValues(TokenPieces(s).value) == DotParts(s, []);
    AppendEmpty(WithoutDots(s));
  }

  /** A token of digits is an array index. */
  lemma DigitTokenPiece(s: JString)
    requires AllDigits(s)
    ensures TokenPieces(s) == Ok([KeyPiece(s, BeginArray)])
  {
  }

  /** A quoted token is an object key with the quotes removed and the escaped quotes restored. */
  lemma QuotedTokenPiece(k: JString)
    requires !HoldsEscapedQuote(k)
    ensures TokenPieces([QUOTE] + EscapeQuotes(k) + [QUOTE]) == Ok([KeyPiece(k, BeginObject)])
  {
    var token := [QUOTE] + EscapeQuotes(k) + [QUOTE];
    assert token[1..|token| - 1] == EscapeQuotes(k);
    UnescapeEscape(k);
  }

  /** The pieces of the tokens, in order. */
  function TokensPieces(tokens: seq<JString>): (r: Result<seq<KeyPiece>>) {
    if tokens == [] then Ok([])
    else
      var first := TokenPieces(tokens[0]);
      if first.Err? then first else Then(first.value, TokensPieces(tokens[1..]))
  }

  /** `splitKeyPieces`: a JSONPath key gives the pieces of its tokens after `$`; any other key is one object key. */
  function KeyPieces(key: JString): (r: Result<seq<KeyPiece>>)
    ensures !IsJsonPath(key) ==> r == Ok([KeyPiece(key, BeginObject)])
  {
    if IsJsonPath(key) then TokensPieces(Tokens(key[1..])) else Ok([KeyPiece(key, BeginObject)])
  }

  /** `splitKeyPieces`: the pieces of each token, appended one by one. */
  method SplitKeyPieces(key: JString) returns (r: Result<seq<KeyPiece>>)
    ensures r == KeyPieces(key)
  {
    if !IsJsonPath(key) {
      return Ok([KeyPiece(key, BeginObject)]);
    }
    var tokens := FindTokens(key[1..]);
    var result: seq<KeyPiece> := [];
    var i := 0;
    ThenNothing(TokensPieces(tokens));
    while i < |tokens|
      invariant 0 <= i <= |tokens|
      invariant Then(result, TokensPieces(tokens[i..])) == KeyPieces(key)
    {
      assert tokens[i..][0] == tokens[i] && tokens[i..][1..] == tokens[i + 1..];
      var pieces := TokenPieces(tokens[i]);
      if pieces.Err? {
        return pieces;
      }
      ThenThen(result, pieces.value, TokensPieces(tokens[i + 1..]));
      result := result + pieces.value;
      i := i + 1;
    }
    assert tokens[i..] == [];
    AppendEmpty(result);
    r := Ok(result);
  }

  // ---------------------------------------------------------------------
  // Encoding and splitting are inverse on paths

  /** `Integer.toString` of a non-negative number. */
  function Decimal(n: nat): (r: JString)
    ensures AllDigits(r)
  {
    if n < 10 then [0x30 + n] else Decimal(n / 10) + [0x30 + n % 10]
  }

  /** One step from a node to a child: a member key or an array index. */
  datatype Step = Member(name: JString) | Index(index: nat)

  /** The text a step adds to the key of its parent. */
  function StepText(s: Step): (r: JString) {
    match s
    case Member(k) => if NeedsBracket(k) then Bracketed(k) else [DOT] + k
    case Index(i) => [OPEN_BRACKET] + Decimal(i) + [CLOSE_BRACKET]
  }

  function PathText(steps: seq<Step>): (r: JString) {
    if steps == [] then [] else StepText(steps[0]) + PathText(steps[1..])
  }

  /** The key of the node reached from the root by `steps`. */
  function PathKey(steps: seq<Step>): (r: JString) {
    [DOLLAR] + PathText(steps)
  }

  /** The pieces the steps are read back as. */
  function Pieces(steps: seq<Step>): (r: seq<KeyPiece>)
    ensures |r| == |steps|
  {
    if steps == [] then [] else [StepPiece(steps[0])] + Pieces(steps[1..])
  }

  /** The piece a step is read back as. */
  function StepPiece(s: Step): (r: KeyPiece) {
    match s
    case Member(k) => KeyPiece(k, BeginObject)
    case Index(i) => KeyPiece(Decimal(i), BeginArray)
  }

  /**
    A step that reads back as itself: a member key that is not empty, has
    no line terminator and no `'` text, and, when it is written
    after a dot, is not all digits.
   */
  predicate ReadableStep(s: Step) {
    s.Member? ==>
      (s.name != [] && NoTerminator(s.name) && DONE !in s.name && !HoldsEscapedQuote(s.name) &&
       (NeedsBracket(s.name) || !AllDigits(s.name)))
  }

  /** The key of a child is the key of its parent followed by the step to it. */
  lemma ChildKey(steps: seq<Step>, s: Step)
    ensures PathKey(steps) + StepText(s) == PathKey(steps + [s])
  {
    PathTextAppend(steps, [s]);
    assert PathText([s]) == StepText(s) + PathText([]);
    AppendEmpty(StepText(s));
    AppendAssoc([DOLLAR], PathText(steps), StepText(s));
  }

  /** Under a parent with a key, the key of a member is the parent's followed by the step to it. */
  lemma EncodeChild(steps: seq<Step>, k: JString, isLeaf: bool)
    requires k != []
    ensures EncodeResourceKey(Some(PathKey(steps)), Some(k), isLeaf) == Ok(PathKey(steps + [Member(k)]))
  {
    ChildKey(steps, Member(k));
  }

  /** The key of a member with children directly under the root is `$` followed by the step to it. */
  lemma EncodeTopNode(k: JString)
    requires k != []
    ensures EncodeResourceKey(Some([]), Some(k), false) == Ok(PathKey([Member(k)]))
  {
    ChildKey([], Member(k));
    assert [] + [Member(k)] == [Member(k)];
    assert PathKey([]) == [DOLLAR];
    if !NeedsBracket(k) {
      AppendAssoc([DOLLAR], [DOT], k);
    }
  }

  lemma {:induction false} PathTextAppend(a: seq<Step>, b: seq<Step>)
    ensures PathText(a + b) == PathText(a) + PathText(b)
    decreases |a|
  {
    if a == [] {
      assert a + b == b;
    } else {
      assert (a + b)[0] == a[0] && (a + b)[1..] == a[1..] + b;
      PathTextAppend(a[1..], b);
      AppendAssoc(StepText(a[0]), PathText(a[1..]), PathText(b));
    }
  }

  /**
    Round trip: the key of a node reached by readable steps splits back
    into one piece per step, member keys as object keys and indices as
    array indices.
   */
  lemma PathRoundTrip(steps: seq<Step>)
    requires steps != [] && forall i | 0 <= i < |steps| :: ReadableStep(steps[i])
    ensures KeyPieces(PathKey(steps)) == Ok(Pieces(steps))
  {
    PathKeyIsJsonPath(steps);
    PathTokens(steps);
  }

  /** The key of a node below the root is a JSONPath. */
  lemma PathKeyIsJsonPath(steps: seq<Step>)
    requires steps != [] && forall i | 0 <= i < |steps| :: ReadableStep(steps[i])
    ensures IsJsonPath(PathKey(steps)) && PathKey(steps)[1..] == PathText(steps)
  {
    var key := PathKey(steps);
    var t := PathText(steps);
    assert key[1..] == t;
    PathTextNoTerminator(steps);
    assert key[1] == t[0];
    assert key[2..] == t[1..];
    forall k | 0 <= k < |t[1..]| ensures !IsLineTerminator(t[1..][k]) {
      assert t[1..][k] == t[k + 1];
    }
  }

  lemma {:induction false} PathTextNoTerminator(steps: seq<Step>)
    requires forall i | 0 <= i < |steps| :: ReadableStep(steps[i])
    ensures NoTerminator(PathText(steps))
    ensures steps != [] ==> PathText(steps) != [] && PathText(steps)[0] == StepText(steps[0])[0]
    ensures steps != [] ==> StepText(steps[0]) != [] && (StepText(steps[0])[0] == DOT || StepText(steps[0])[0] == OPEN_BRACKET)
  {
    if steps != [] {
      PathTextNoTerminator(steps[1..]);
      StepTextNoTerminator(steps[0]);
      var t := StepText(steps[0]) + PathText(steps[1..]);
      forall k | 0 <= k < |t| ensures !IsLineTerminator(t[k]) {
        if k >= |StepText(steps[0])| {
          assert t[k] == PathText(steps[1..])[k - |StepText(steps[0])|];
        }
      }
    }
  }

  lemma StepTextNoTerminator(s: Step)
    requires ReadableStep(s)
    ensures NoTerminator(StepText(s))
  {
    match s
    case Member(k) =>
      if NeedsBracket(k) {
        EscapeQuotesNoTerminator(k);
      }
    case Index(i) =>
  }

  lemma {:induction false} EscapeQuotesNoTerminator(s: JString)
    requires NoTerminator(s)
    ensures NoTerminator(EscapeQuotes(s)) && NoTerminator(Bracketed(s))
  {
    if s != [] {
      EscapeQuotesNoTerminator(s[1..]);
      var h: JString := if s[0] == QUOTE then ESCAPED_QUOTE else [s[0]];
      var t := h + EscapeQuotes(s[1..]);
      forall k | 0 <= k < |t| ensures !IsLineTerminator(t[k]) {
        if k >= |h| {
          assert t[k] == EscapeQuotes(s[1..])[k - |h|];
        }
      }
    }
  }

  /** The tokens of a path's text give one piece per step. */
  lemma {:induction false} PathTokens(steps: seq<Step>)
    requires forall i | 0 <= i < |steps| :: ReadableStep(steps[i])
    ensures TokensPieces(Tokens(PathText(steps))) == Ok(Pieces(steps))
    decreases |steps|
  {
    if steps == [] {
      EmptyToken();
    } else {
      var rest := PathText(steps[1..]);
      PathTextNoTerminator(steps[1..]);
      StepTokens(steps[0], rest);
      PathTokens(steps[1..]);
    }
  }

  /** The tokens of one step's text, followed by text that starts at a delimiter or is empty. */
  lemma StepTokens(s: Step, rest: JString)
    requires ReadableStep(s)
    requires rest == [] || rest[0] == DOT || rest[0] == OPEN_BRACKET
    ensures TokensPieces(Tokens(StepText(s) + rest)) == Then([StepPiece(s)], TokensPieces(Tokens(rest)))
  {
    match s
    case Member(k) =>
      if NeedsBracket(k) {
        BracketedTokens(k, rest);
      } else {
        PlainTokens(k, rest);
      }
    case Index(i) =>
      IndexTokens(i, rest);
  }

  /** Text without quotes or delimiters is read into the current token. */
  lemma {:induction false} ReadPlain(k: JString, rest: JString, current: JString)
    requires forall i | 0 <= i < |k| :: !IsBracketChar(k[i]) && k[i] != DONE
    ensures TokensFrom(k + rest, false, current) == TokensFrom(rest, false, current + k)
    decreases |k|
  {
    if k == [] {
      assert k + rest == rest;
      AppendEmpty(current);
    } else {
      assert (k + rest)[0] == k[0] && (k + rest)[1..] == k[1..] + rest;
      ReadPlain(k[1..], rest, current + [k[0]]);
      AppendAssoc(current, [k[0]], k[1..]);
      assert [k[0]] + k[1..] == k;
    }
  }

  /** Text without quotes is read into the current token inside quotes. */
  lemma {:induction false} ReadQuoted(e: JString, rest: JString, current: JString)
    requires QUOTE !in e && DONE !in e
    ensures TokensFrom(e + rest, true, current) == TokensFrom(rest, true, current + e)
    decreases |e|
  {
    if e == [] {
      assert e + rest == rest;
      AppendEmpty(current);
    } else {
      assert (e + rest)[0] == e[0] && (e + rest)[1..] == e[1..] + rest;
      ReadQuoted(e[1..], rest, current + [e[0]]);
      AppendAssoc(current, [e[0]], e[1..]);
      assert [e[0]] + e[1..] == e;
    }
  }

  /** The empty text is one empty token, which gives no piece. */
  lemma EmptyToken()
    ensures Tokens([]) == [[]] && TokenPieces([]) == Ok([]) && TokensPieces([[]]) == Ok([])
  {
    var parts := DotParts([], []);
    assert parts == [];
    assert seq(|parts|, i requires 0 <= i < |parts| => KeyPiece(parts[i], BeginObject)) == [];
    var one: seq<JString> := [[]];
    assert one[1..] == [];
    ThenNothing(TokensPieces([]));
  }

  /** Text that starts at a delimiter, or is empty, adds no piece of its own at its start. */
  lemma RestTokens(rest: JString, current: JString)
    requires current != []
    requires rest == [] || rest[0] == DOT || rest[0] == OPEN_BRACKET || rest[0] == CLOSE_BRACKET
    ensures TokensPieces(TokensFrom(rest, false, current)) ==
      (var p := TokenPieces(current); if p.Err? then p else Then(p.value, TokensPieces(Tokens(rest))))
  {
    if rest == [] {
      assert TokensFrom(rest, false, current) == [current];
      EmptyToken();
      assert [current][1..] == [];
      if TokenPieces(current).Ok? {
        AppendEmpty(TokenPieces(current).value);
      }
    } else {
      assert TokensFrom(rest, false, current) == [current] + TokensFrom(rest[1..], false, []);
      assert Tokens(rest) == TokensFrom(rest[1..], false, []);
      assert ([current] + TokensFrom(rest[1..], false, []))[1..] == TokensFrom(rest[1..], false, []);
    }
  }

  lemma PlainTokens(k: JString, rest: JString)
    requires k != [] && !NeedsBracket(k) && !AllDigits(k) && DONE !in k
    requires rest == [] || rest[0] == DOT || rest[0] == OPEN_BRACKET
    ensures TokensPieces(Tokens([DOT] + k + rest)) == Then([KeyPiece(k, BeginObject)], TokensPieces(Tokens(rest)))
  {
    var data := [DOT] + k + rest;
    assert data[0] == DOT && data[1..] == k + rest;
    assert Tokens(data) == TokensFrom(k + rest, false, []);
    ReadPlain(k, rest, []);
    assert [] + k == k;
    RestTokens(rest, k);
    PlainPieces(k);
  }

  /** A key without dots or quotes that is not all digits is one object key. */
  lemma PlainPieces(k: JString)
    requires k != [] && !NeedsBracket(k) && !AllDigits(k)
    ensures TokenPieces(k) == Ok([KeyPiece(k, BeginObject)])
  {
    assert !IsBracketChar(k[0]);
    forall i | 0 <= i < |k| ensures k[i] != DOT {
      assert !IsBracketChar(k[i]);
    }
    NoDotParts(k, []);
    assert [] + k == k;
    var parts := DotParts(k, []);
    assert seq(|parts|, i requires 0 <= i < |parts| => KeyPiece(parts[i], BeginObject)) == [KeyPiece(k, BeginObject)];
  }

  lemma {:induction false} NoDotParts(k: JString, current: JString)
    requires forall i | 0 <= i < |k| :: k[i] != DOT
    requires current + k != []
    ensures DotParts(k, current) == [current + k]
    decreases |k|
  {
    if k == [] {
      AppendEmpty(current);
    } else {
      NoDotParts(k[1..], current + [k[0]]);
      AppendAssoc(current, [k[0]], k[1..]);
      assert [k[0]] + k[1..] == k;
    }
  }

  lemma BracketedTokens(k: JString, rest: JString)
    requires k != [] && NoTerminator(k) && DONE !in k && !HoldsEscapedQuote(k)
    requires rest == [] || rest[0] == DOT || rest[0] == OPEN_BRACKET
    ensures TokensPieces(Tokens(Bracketed(k) + rest)) == Then([KeyPiece(k, BeginObject)], TokensPieces(Tokens(rest)))
  {
    var e := EscapeQuotes(k);
    var token := [QUOTE] + e + [QUOTE];
    BracketedToken(k, rest);
    QuotedTokenPiece(k);
    assert ([token] + Tokens(rest))[0] == token && ([token] + Tokens(rest))[1..] == Tokens(rest);
  }

  /** A bracketed key is one token, quotes included. */
  lemma BracketedToken(k: JString, rest: JString)
    requires DONE !in k
    requires rest == [] || rest[0] == DOT || rest[0] == OPEN_BRACKET
    ensures Tokens(Bracketed(k) + rest) == [[QUOTE] + EscapeQuotes(k) + [QUOTE]] + Tokens(rest)
  {
    var e := EscapeQuotes(k);
    assert DONE !in e;
    QuotedToken(e, rest);
  }

  /** Quote-free text between `['` and `']` is read as one token, quotes included, whatever follows. */
  lemma QuotedToken(e: JString, rest: JString)
    requires QUOTE !in e && DONE !in e
    ensures TokensFrom([OPEN_BRACKET, QUOTE] + e + [QUOTE, CLOSE_BRACKET] + rest, false, []) ==
      [[QUOTE] + e + [QUOTE]] + TokensFrom(rest, false, [])
  {
    var token := [QUOTE] + e + [QUOTE];
    var tail := [QUOTE] + ([CLOSE_BRACKET] + rest);
    var quoted := [QUOTE] + (e + tail);
    assert [OPEN_BRACKET, QUOTE] + e + [QUOTE, CLOSE_BRACKET] + rest == [OPEN_BRACKET] + quoted;
    TokensFromCons(OPEN_BRACKET, quoted, false, []);
    TokensFromCons(QUOTE, e + tail, false, []);
    assert [] + [QUOTE] == [QUOTE];
    ReadQuoted(e, tail, [QUOTE]);
    TokensFromCons(QUOTE, [CLOSE_BRACKET] + rest, true, [QUOTE] + e);
    TokensFromCons(CLOSE_BRACKET, rest, false, token);
  }

  /** One step of `findTokens`: a unit other than U+FFFF either ends the current token or joins it. */
  lemma TokensFromCons(c: CodeUnit, t: JString, inQuotes: bool, current: JString)
    requires c != DONE
    ensures var q := if c == QUOTE then !inQuotes else inQuotes;
      TokensFrom([c] + t, inQuotes, current) ==
        if !q && IsDelimiter(c) then (if current != [] then [current] else []) + TokensFrom(t, q, [])
        else TokensFrom(t, q, current + [c])
  {
    assert ([c] + t)[0] == c && ([c] + t)[1..] == t;
  }

  lemma IndexTokens(i: nat, rest: JString)
    requires rest == [] || rest[0] == DOT || rest[0] == OPEN_BRACKET
    ensures TokensPieces(Tokens([OPEN_BRACKET] + Decimal(i) + [CLOSE_BRACKET] + rest)) ==
      Then([KeyPiece(Decimal(i), BeginArray)], TokensPieces(Tokens(rest)))
  {
    var d := Decimal(i);
    forall j | 0 <= j < |d| ensures !IsBracketChar(d[j]) && d[j] != DONE {
      assert IsDigit(d[j]);
    }
    assert TokenPieces(d) == Ok([KeyPiece(d, BeginArray)]);
    PlainBracketTokens(d, rest);
  }

  /** Text free of brackets and quotes between `[` and `]` is one token, read into its pieces before what follows. */
  lemma PlainBracketTokens(d: JString, rest: JString)
    requires d != [] && forall j | 0 <= j < |d| :: !IsBracketChar(d[j]) && d[j] != DONE
    requires TokenPieces(d).Ok?
    requires rest == [] || rest[0] == DOT || rest[0] == OPEN_BRACKET
    ensures TokensPieces(Tokens([OPEN_BRACKET] + d + [CLOSE_BRACKET] + rest)) ==
      Then(TokenPieces(d).value, TokensPieces(Tokens(rest)))
  {
    var tail := [CLOSE_BRACKET] + rest;
    assert [OPEN_BRACKET] + d + [CLOSE_BRACKET] + rest == [OPEN_BRACKET] + (d + tail);
    TokensFromCons(OPEN_BRACKET, d + tail, false, []);
    assert Tokens([OPEN_BRACKET] + (d + tail)) == TokensFrom(d + tail, false, []);
    ReadPlain(d, tail, []);
    assert [] + d == d;
    RestTokens(tail, d);
    TokensFromCons(CLOSE_BRACKET, rest, false, []);
    assert Tokens(tail) == Tokens(rest);
  }

  /** The first unit of escaped text: a backslash where a quote was, or the unit itself. */
  lemma EscapeHead(t: JString)
    requires t != []
    ensures EscapeQuotes(t)[0] == (if t[0] == QUOTE then BACKSLASH else t[0])
    ensures t[0] != QUOTE ==> EscapeQuotes(t) == [t[0]] + EscapeQuotes(t[1..])
  {
  }

  /** Escaped text starts with text free of quotes and backslashes only where the original does. */
  lemma {:induction false} EscapedPrefix(t: JString, p: JString)
    requires QUOTE !in p && BACKSLASH !in p
    requires StartsWith(EscapeQuotes(t), p)
    ensures StartsWith(t, p)
    decreases |p|
  {
    if p != [] {
      var et := EscapeQuotes(t);
      assert t != [];
      EscapeHead(t);
      assert et[..|p|][0] == et[0];
      assert p[0] in p;
      assert t[0] != QUOTE;
      assert et[1..][..|p| - 1] == p[1..];
      EscapedPrefix(t[1..], p[1..]);
      assert t[..|p|] == [t[0]] + t[1..][..|p| - 1];
    }
  }

  /** Escaped text starts with `'` only where the original does. */
  lemma EscapedStart(s: JString)
    requires s != [] && s[0] != QUOTE
    ensures StartsWith(EscapeQuotes(s), ESCAPED_QUOTE) ==> StartsWith(s, ESCAPED_QUOTE)
  {
    var e := EscapeQuotes(s[1..]);
    EscapeHead(s);
    var u: JString := ESCAPED_QUOTE[1..];
    if StartsWith([s[0]] + e, ESCAPED_QUOTE) {
      assert ([s[0]] + e)[..6][0] == s[0];
      assert e[..5] == ([s[0]] + e)[..6][1..];
      EscapedPrefix(s[1..], u);
      assert s[..6] == [s[0]] + s[1..][..5];
    }
  }

  /** Unescaping undoes escaping for text that does not hold `'` itself. */
  lemma {:induction false} UnescapeEscape(s: JString)
    requires !HoldsEscapedQuote(s)
    ensures UnescapeQuotes(EscapeQuotes(s)) == s
    decreases |s|
  {
    if s != [] {
      UnescapeEscape(s[1..]);
      var e := EscapeQuotes(s[1..]);
      EscapeHead(s);
      if s[0] == QUOTE {
        assert EscapeQuotes(s) == ESCAPED_QUOTE + e;
        UnescapeEscapedQuote(e);
      } else {
        EscapedStart(s);
        UnescapePlainHead(s[0], e);
      }
      assert [s[0]] + s[1..] == s;
    }
  }

  /** An escaped quote at the start is read back as a quote. */
  lemma UnescapeEscapedQuote(e: JString)
    ensures UnescapeQuotes(ESCAPED_QUOTE + e) == [QUOTE] + UnescapeQuotes(e)
  {
    assert (ESCAPED_QUOTE + e)[..6] == ESCAPED_QUOTE;
    assert (ESCAPED_QUOTE + e)[6..] == e;
  }

  /** A unit that does not start an escaped quote is kept as it is. */
  lemma UnescapePlainHead(c: CodeUnit, e: JString)
    requires !StartsWith([c] + e, ESCAPED_QUOTE)
    ensures UnescapeQuotes([c] + e) == [c] + UnescapeQuotes(e)
  {
    assert ([c] + e)[0] == c && ([c] + e)[1..] == e;
  }

  // ---------------------------------------------------------------------
  // addBundleStrings

  /**
    The key/value pairs of the string leaves under the members of `obj`
    from the `i`-th on, in document order, or what the walk throws: a
    member that is neither an object, an array nor a string throws, and so
    does an array element that is neither a string nor an object.
   */
  function ObjectStrings(obj: JsonElement, prefix: JString, i: nat): (r: Result<seq<(JString, JString)>>)
    requires obj.JsonObject?
    decreases obj, 0, |obj.members| - i
  {
    if i >= |obj.members| then Ok([])
    else
      var first := MemberStrings(obj.members[i].0, obj.members[i].1, prefix);
      if first.Err? then first else Then(first.value, ObjectStrings(obj, prefix, i + 1))
  }

  /** The pairs of the member `key` with value `value`, under the node whose key is `prefix`. */
  function MemberStrings(key: JString, value: JsonElement, prefix: JString): (r: Result<seq<(JString, JString)>>)
    decreases value, 1
  {
    match value
    case JsonObject(_) =>
      var p := EncodeResourceKey(Some(prefix), Some(key), false);
      if p.Err? then Err(p.thrown) else ObjectStrings(value, p.value, 0)
    case JsonArray(_) => ArrayStrings(value, prefix, key, 0)
    case JsonText(t) =>
      var k := EncodeResourceKey(Some(prefix), Some(key), true);
      if k.Err? then Err(k.thrown) else Ok([(k.value, t)])
    case _ => Err(IllegalResourceFormatException)
  }

  /** The pairs of the elements of the array member `key` from the `j`-th on; each element encodes the key anew. */
  function ArrayStrings(arr: JsonElement, prefix: JString, key: JString, j: nat): (r: Result<seq<(JString, JString)>>)
    requires arr.JsonArray?
    decreases arr, 0, |arr.elements| - j
  {
    if j >= |arr.elements| then Ok([])
    else
      var p := EncodeResourceKey(Some(prefix), Some(key), false);
      if p.Err? then Err(p.thrown)
      else
        var first := ElementStrings(arr.elements[j], p.value + StepText(Index(j)));
        if first.Err? then first else Then(first.value, ArrayStrings(arr, prefix, key, j + 1))
  }

  /** The pairs of an array element whose key is `arrayKey`: an element that is neither a string nor an object throws. */
  function ElementStrings(e: JsonElement, arrayKey: JString): (r: Result<seq<(JString, JString)>>)
    decreases e, 1
  {
    if e.JsonText? then Ok([(arrayKey, e.text)])
    else if e.JsonObject? then ObjectStrings(e, arrayKey, 0)
    else Err(IllegalStateException)
  }

  /** The strings `parse` adds for the pairs, numbered on from `n`. */
  function Numbered(pairs: seq<(JString, JString)>, n: int): (r: seq<ResourceString>)
    ensures |r| == |pairs|
  {
    seq(|pairs|, i requires 0 <= i < |pairs| => ResourceString(pairs[i].0, pairs[i].1, n + i + 1, None, None))
  }

  /** The leaves are numbered consecutively, in document order, starting after `n`. */
  lemma NumberedConsecutively(pairs: seq<(JString, JString)>, n: int)
    ensures forall i | 0 <= i < |pairs| ::
      Numbered(pairs, n)[i].key == pairs[i].0 && Numbered(pairs, n)[i].value == pairs[i].1 &&
      Numbered(pairs, n)[i].sequenceNumber == n + 1 + i
  {
  }

  lemma NumberedAppend(a: seq<(JString, JString)>, b: seq<(JString, JString)>, n: int)
    ensures Numbered(a + b, n) == Numbered(a, n) + Numbered(b, n + |a|)
  {
  }

  /** A member whose value is a number, a boolean or null makes the walk throw. */
  lemma NonStringRejected(obj: JsonElement, prefix: JString, i: nat)
    requires obj.JsonObject? && i < |obj.members|
    requires obj.members[i].1.JsonOtherPrimitive? || obj.members[i].1.JsonNull?
    ensures ObjectStrings(obj, prefix, 0).Err?
  {
    FailurePropagates(obj, prefix, 0, i);
  }

  /** A member that throws makes the walk over the members before and up to it throw. */
  lemma {:induction false} FailurePropagates(obj: JsonElement, prefix: JString, i: nat, j: nat)
    requires obj.JsonObject? && i <= j < |obj.members|
    requires MemberStrings(obj.members[j].0, obj.members[j].1, prefix).Err?
    ensures ObjectStrings(obj, prefix, i).Err?
    decreases j - i
  {
    if i < j {
      FailurePropagates(obj, prefix, i + 1, j);
    }
  }

  /**
    `addBundleStrings`: adds the strings under the members of `obj` to
    `bb` in document order, numbered on from `sequenceNum`, and returns
    the last number used.
   */
  method AddBundleStrings(obj: JsonElement, keyPrefix: JString, bb: LanguageBundleBuilder, sequenceNum: int)
    returns (r: Result<int>)
    requires obj.JsonObject? && bb.Valid() && !bb.autoSequenceNumbers
    modifies bb
    ensures bb.Valid()
    ensures r.Ok? <==> ObjectStrings(obj, keyPrefix, 0).Ok?
    ensures r.Err? ==> r == Err(ObjectStrings(obj, keyPrefix, 0).thrown)
    ensures r.Ok? ==> r.value == sequenceNum + |ObjectStrings(obj, keyPrefix, 0).value|
    ensures r.Ok? ==> bb.resourceStrings == old(bb.resourceStrings) + Numbered(ObjectStrings(obj, keyPrefix, 0).value, sequenceNum)
    ensures bb.notes == old(bb.notes) && bb.embeddedLanguageCode == old(bb.embeddedLanguageCode)
    decreases obj, 1
  {
    var n := sequenceNum;
    var added: seq<(JString, JString)> := [];
    var i := 0;
    ThenNothing(ObjectStrings(obj, keyPrefix, 0));
    while i < |obj.members|
      invariant 0 <= i <= |obj.members|
      invariant bb.Valid() && n == sequenceNum + |added|
      invariant Then(added, ObjectStrings(obj, keyPrefix, i)) == ObjectStrings(obj, keyPrefix, 0)
      invariant bb.resourceStrings == old(bb.resourceStrings) + Numbered(added, sequenceNum)
      invariant bb.notes == old(bb.notes) && bb.embeddedLanguageCode == old(bb.embeddedLanguageCode)
    {
      var key := obj.members[i].0;
      var value := obj.members[i].1;
      var pairs := MemberStrings(key, value, keyPrefix);
      if pairs.Err? {
        return Err(pairs.thrown);
      }
      var m := AddMember(key, value, keyPrefix, bb, n);
      ThenThen(added, pairs.value, ObjectStrings(obj, keyPrefix, i + 1));
      NumberedAppend(added, pairs.value, sequenceNum);
      added := added + pairs.value;
      n := m;
      i := i + 1;
    }
    AppendEmpty(added);
    r := Ok(n);
  }

  /** The body of the loop of `addBundleStrings` for one member that does not throw. */
  method AddMember(key: JString, value: JsonElement, keyPrefix: JString, bb: LanguageBundleBuilder, sequenceNum: int)
    returns (n: int)
    requires bb.Valid() && !bb.autoSequenceNumbers && MemberStrings(key, value, keyPrefix).Ok?
    modifies bb
    ensures bb.Valid()
    ensures n == sequenceNum + |MemberStrings(key, value, keyPrefix).value|
    ensures bb.resourceStrings == old(bb.resourceStrings) + Numbered(MemberStrings(key, value, keyPrefix).value, sequenceNum)
    ensures bb.notes == old(bb.notes) && bb.embeddedLanguageCode == old(bb.embeddedLanguageCode)
    decreases value, 2
  {
    match value
    case JsonObject(_) =>
      var p := EncodeResourceKey(Some(keyPrefix), Some(key), false);
      var r := AddBundleStrings(value, p.value, bb, sequenceNum);
      n := r.value;
    case JsonArray(elements) =>
      n := AddElements(value, keyPrefix, key, bb, sequenceNum);
    case JsonText(t) =>
      var k := EncodeResourceKey(Some(keyPrefix), Some(key), true);
      bb.AddBuilt(ResourceString(k.value, t, sequenceNum + 1, None, None));
      n := sequenceNum + 1;
  }

  /** The array loop of `addBundleStrings`, for an array none of whose elements throws. */
  method AddElements(arr: JsonElement, keyPrefix: JString, key: JString, bb: LanguageBundleBuilder, sequenceNum: int)
    returns (n: int)
    requires arr.JsonArray? && bb.Valid() && !bb.autoSequenceNumbers && ArrayStrings(arr, keyPrefix, key, 0).Ok?
    modifies bb
    ensures bb.Valid()
    ensures n == sequenceNum + |ArrayStrings(arr, keyPrefix, key, 0).value|
    ensures bb.resourceStrings == old(bb.resourceStrings) + Numbered(ArrayStrings(arr, keyPrefix, key, 0).value, sequenceNum)
    ensures bb.notes == old(bb.notes) && bb.embeddedLanguageCode == old(bb.embeddedLanguageCode)
    decreases arr, 1
  {
    n := sequenceNum;
    ghost var added: seq<(JString, JString)> := [];
    var j := 0;
    ThenNothing(ArrayStrings(arr, keyPrefix, key, 0));
    while j < |arr.elements|
      invariant 0 <= j <= |arr.elements|
      invariant bb.Valid() && n == sequenceNum + |added|
      invariant Then(added, ArrayStrings(arr, keyPrefix, key, j)) == ArrayStrings(arr, keyPrefix, key, 0)
      invariant bb.resourceStrings == old(bb.resourceStrings) + Numbered(added, sequenceNum)
      invariant bb.notes == old(bb.notes) && bb.embeddedLanguageCode == old(bb.embeddedLanguageCode)
    {
      n, added := AddArrayElement(arr, keyPrefix, key, j, bb, n, added, sequenceNum, old(bb.resourceStrings));
      j := j + 1;
    }
    AppendEmpty(added);
  }

  /** One round of the array loop of `addBundleStrings`: the `j`-th element's strings are added and numbered on. */
  method AddArrayElement(arr: JsonElement, keyPrefix: JString, key: JString, j: nat, bb: LanguageBundleBuilder, n: int,
                         ghost added: seq<(JString, JString)>, ghost sequenceNum: int, ghost before: seq<ResourceString>)
    returns (n': int, ghost added': seq<(JString, JString)>)
    requires arr.JsonArray? && j < |arr.elements| && bb.Valid() && !bb.autoSequenceNumbers
    requires ArrayStrings(arr, keyPrefix, key, 0).Ok?
    requires Then(added, ArrayStrings(arr, keyPrefix, key, j)) == ArrayStrings(arr, keyPrefix, key, 0)
    requires n == sequenceNum + |added| && bb.resourceStrings == before + Numbered(added, sequenceNum)
    modifies bb
    ensures bb.Valid() && n' == sequenceNum + |added'|
    ensures Then(added', ArrayStrings(arr, keyPrefix, key, j + 1)) == ArrayStrings(arr, keyPrefix, key, 0)
    ensures bb.resourceStrings == before + Numbered(added', sequenceNum)
    ensures bb.notes == old(bb.notes) && bb.embeddedLanguageCode == old(bb.embeddedLanguageCode)
    decreases arr, 0
  {
    ArrayStringsStep(arr, keyPrefix, key, j, added);
    var p := EncodeResourceKey(Some(keyPrefix), Some(key), false);
    var arrayKey := p.value + StepText(Index(j));
    ghost var pairs := ElementStrings(arr.elements[j], arrayKey).value;
    n' := AddElement(arr.elements[j], arrayKey, bb, n);
    ArrayStringsAdvance(arr, keyPrefix, key, j, added, pairs, sequenceNum);
    added' := added + pairs;
  }

  /** While the walk over an array does not throw, its `j`-th element does not either, and its pairs come next. */
  lemma ArrayStringsStep(arr: JsonElement, prefix: JString, key: JString, j: nat, added: seq<(JString, JString)>)
    requires arr.JsonArray? && j < |arr.elements|
    requires ArrayStrings(arr, prefix, key, 0).Ok? && Then(added, ArrayStrings(arr, prefix, key, j)) == ArrayStrings(arr, prefix, key, 0)
    ensures EncodeResourceKey(Some(prefix), Some(key), false).Ok?
    ensures var arrayKey := EncodeResourceKey(Some(prefix), Some(key), false).value + StepText(Index(j));
      ElementStrings(arr.elements[j], arrayKey).Ok? &&
      ArrayStrings(arr, prefix, key, j) == Then(ElementStrings(arr.elements[j], arrayKey).value, ArrayStrings(arr, prefix, key, j + 1))
  {
    assert ArrayStrings(arr, prefix, key, j).Ok?;
  }

  /** After the `j`-th element's pairs, the walk goes on with the next element, and their numbers follow on. */
  lemma ArrayStringsAdvance(arr: JsonElement, prefix: JString, key: JString, j: nat, added: seq<(JString, JString)>,
                            pairs: seq<(JString, JString)>, sequenceNum: int)
    requires arr.JsonArray? && j < |arr.elements|
    requires ArrayStrings(arr, prefix, key, j) == Then(pairs, ArrayStrings(arr, prefix, key, j + 1))
    requires Then(added, ArrayStrings(arr, prefix, key, j)) == ArrayStrings(arr, prefix, key, 0)
    ensures Then(added + pairs, ArrayStrings(arr, prefix, key, j + 1)) == ArrayStrings(arr, prefix, key, 0)
    ensures Numbered(added + pairs, sequenceNum) == Numbered(added, sequenceNum) + Numbered(pairs, sequenceNum + |added|)
  {
    ThenThen(added, pairs, ArrayStrings(arr, prefix, key, j + 1));
    NumberedAppend(added, pairs, sequenceNum);
  }

  /** The body of the array loop of `addBundleStrings` for one element that does not throw. */
  method AddElement(e: JsonElement, arrayKey: JString, bb: LanguageBundleBuilder, sequenceNum: int)
    returns (n: int)
    requires bb.Valid() && !bb.autoSequenceNumbers && ElementStrings(e, arrayKey).Ok?
    modifies bb
    ensures bb.Valid()
    ensures n == sequenceNum + |ElementStrings(e, arrayKey).value|
    ensures bb.resourceStrings == old(bb.resourceStrings) + Numbered(ElementStrings(e, arrayKey).value, sequenceNum)
    ensures bb.notes == old(bb.notes) && bb.embeddedLanguageCode == old(bb.embeddedLanguageCode)
    decreases e, 2
  {
    if e.JsonText? {
      bb.AddBuilt(ResourceString(arrayKey, e.text, sequenceNum + 1, None, None));
      n := sequenceNum + 1;
    } else {
      var r := AddBundleStrings(e, arrayKey, bb, sequenceNum);
      n := r.value;
    }
  }

  /**
    `parse`, from the parsed tree on: a root that is not an object throws;
    otherwise the bundle holds the string leaves numbered from 1 in
    document order.
   */
  method Parse(root: JsonElement) returns (r: Result<LanguageBundle>)
    ensures !root.JsonObject? ==> r == Err(IllegalResourceFormatException)
    ensures root.JsonObject? && ObjectStrings(root, [], 0).Err? ==> r == Err(ObjectStrings(root, [], 0).thrown)
    ensures root.JsonObject? && ObjectStrings(root, [], 0).Ok? ==>
      r.Ok? && fresh(r.value) && r.value.resourceStrings == Some(Numbered(ObjectStrings(root, [], 0).value, 0))
  {
    if !root.JsonObject? {
      return Err(IllegalResourceFormatException);
    }
    var bb := new LanguageBundleBuilder(false);
    var added := AddBundleStrings(root, [], bb, 0);
    if added.Err? {
      return Err(added.thrown);
    }
    assert bb.resourceStrings == [] + Numbered(ObjectStrings(root, [], 0).value, 0);
    AppendEmpty(Numbered(ObjectStrings(root, [], 0).value, 0));
    var b := bb.Build();
    r := Ok(b);
  }
}
