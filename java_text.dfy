/**
  Java strings as sequences of UTF-16 code units, and the few `java.lang.String`
  and `java.lang.Character` operations the resource filters rely on.
 */
module JavaText {
  import opened Wrappers

  /** A Java `char`: one UTF-16 code unit. */
  type CodeUnit = c: int | 0 <= c < 0x1_0000

  /** A Java `String`. */
  type JString = seq<CodeUnit>

  /** The code units of a literal written as a Dafny string. */
  function Lit(s: string): (r: JString)
    requires forall i | 0 <= i < |s| :: s[i] as int < 0x1_0000
    ensures |r| == |s|
    ensures forall i | 0 <= i < |s| :: r[i] == s[i] as int
  {
    seq(|s|, i requires 0 <= i < |s| => s[i] as int)
  }

  const SPACE: CodeUnit := 0x20
  const TAB: CodeUnit := 0x09
  const NEWLINE: CodeUnit := 0x0A
  const FORM_FEED: CodeUnit := 0x0C
  const CARRIAGE_RETURN: CodeUnit := 0x0D
  const BACKSLASH: CodeUnit := 0x5C
  const QUOTE: CodeUnit := 0x27
  const DOUBLE_QUOTE: CodeUnit := 0x22
  const OPEN_BRACE: CodeUnit := 0x7B
  const CLOSE_BRACE: CodeUnit := 0x7D
  const DOT: CodeUnit := 0x2E
  const COLON: CodeUnit := 0x3A
  const EQUALS: CodeUnit := 0x3D
  const HASH: CodeUnit := 0x23
  const BANG: CodeUnit := 0x21
  const COMMA: CodeUnit := 0x2C
  const OPEN_BRACKET: CodeUnit := 0x5B
  const CLOSE_BRACKET: CodeUnit := 0x5D
  const DOLLAR: CodeUnit := 0x24
  const UNDERSCORE: CodeUnit := 0x5F
  const HYPHEN: CodeUnit := 0x2D
  const SLASH: CodeUnit := 0x2F
  const PLUS: CodeUnit := 0x2B
  const LOWER_U: CodeUnit := 0x75
  const LOWER_T: CodeUnit := 0x74
  const LOWER_N: CodeUnit := 0x6E
  const LOWER_F: CodeUnit := 0x66
  const LOWER_R: CodeUnit := 0x72

  /** A prefix one element longer is the prefix followed by that element. */
  lemma TakeOneMore<T>(s: seq<T>, i: nat)
    requires i < |s|
    ensures s[..i + 1] == s[..i] + [s[i]]
  {
  }

  /** Putting the head of `s` after `a`, then the rest of `s`, is putting `s` after `a`. */
  lemma HeadThenTail<T>(a: seq<T>, s: seq<T>)
    requires s != []
    ensures a + [s[0]] + s[1..] == a + s
  {
  }

  /** The empty sequence is neutral for concatenation. */
  lemma AppendEmpty<T>(a: seq<T>)
    ensures a + [] == a && [] + a == a
  {
  }

  /** Concatenation is associative. */
  lemma AppendAssoc<T>(a: seq<T>, b: seq<T>, c: seq<T>)
    ensures a + b + c == a + (b + c)
  {
  }

  /** The head and the tail of a non-empty sequence followed by another. */
  lemma HeadTailAppend<T>(a: seq<T>, b: seq<T>)
    requires a != []
    ensures (a + b)[0] == a[0] && (a + b)[1..] == a[1..] + b
  {
  }

  /** The tail of a sequence of two or more ends where the sequence ends. */
  lemma TailLast<T>(s: seq<T>)
    requires |s| > 1
    ensures s[1..][|s| - 2] == s[|s| - 1]
  {
  }

  /** Dropping the first part of a concatenation leaves the second. */
  lemma SuffixEnds<T>(s: seq<T>, i: nat)
    requires i <= |s|
    ensures s[0..] == s && (i == |s| ==> s[i..] == [])
  {}

  /** A prefix followed by the matching suffix is the whole sequence. */
  lemma TakeDrop<T>(s: seq<T>, i: nat)
    requires i <= |s|
    ensures s[..i] + s[i..] == s
  {
  }

  /** Two adjacent slices make up the slice that spans them both. */
  lemma SliceJoin<T>(s: seq<T>, i: nat, j: nat)
    requires i <= j <= |s|
    ensures s[i..j] + s[j..] == s[i..]
  {
  }

  /** Slicing the tail is slicing the sequence one position further on. */
  lemma TailSlices<T>(s: seq<T>, n: nat)
    requires 0 < n <= |s|
    ensures s[1..][n - 1..] == s[n..] && [s[0]] + s[1..][..n - 1] == s[..n]
  {
  }

  lemma Uncons<T>(s: seq<T>)
    requires s != []
    ensures [s[0]] + s[1..] == s
  {}

  lemma ConsParts<T>(x: T, t: seq<T>)
    ensures ([x] + t)[0] == x && ([x] + t)[1..] == t
    ensures forall i | 0 < i <= |t| :: ([x] + t)[i] == t[i - 1]
  {}

  lemma DropPrefix<T>(a: seq<T>, b: seq<T>)
    ensures (a + b)[|a|..] == b
  {
  }

  /** The suffix from `k` starts with `s[k]`, followed by the suffix from `k + 1`. */
  lemma SuffixHead<T>(s: seq<T>, k: nat)
    requires k < |s|
    ensures s[k..][0] == s[k] && s[k..][1..] == s[k + 1..]
  {
  }

  /** The lists of `t`, one after the other. */
  function Flatten<T>(t: seq<seq<T>>): (r: seq<T>) {
    if t == [] then [] else t[0] + Flatten(t[1..])
  }

  lemma {:induction false} FlattenAppend<T>(a: seq<seq<T>>, b: seq<seq<T>>)
    ensures Flatten(a + b) == Flatten(a) + Flatten(b)
    decreases |a|
  {
    if a == [] {
      assert a + b == b;
    } else {
      assert (a + b)[0] == a[0] && (a + b)[1..] == a[1..] + b;
      FlattenAppend(a[1..], b);
      AppendAssoc(a[0], Flatten(a[1..]), Flatten(b));
    }
  }

  /** `String.indexOf(c, from)`: the first position at or after `from` holding `c`, or -1. */
  function IndexOfFrom(s: JString, c: CodeUnit, from: nat): (r: int)
    ensures r == -1 || from <= r < |s|
    ensures r >= 0 ==> s[r] == c && forall k | from <= k < r :: s[k] != c
    ensures r == -1 ==> forall k | from <= k < |s| :: s[k] != c
    decreases |s| - from
  {
    if from >= |s| then -1
    else if s[from] == c then from
    else IndexOfFrom(s, c, from + 1)
  }

  /** `String.indexOf(c)`. */
  function IndexOf(s: JString, c: CodeUnit): (r: int)
    ensures r == -1 || 0 <= r < |s|
    ensures r >= 0 ==> s[r] == c && forall k | 0 <= k < r :: s[k] != c
    ensures r == -1 <==> c !in s
  {
    IndexOfFrom(s, c, 0)
  }

  /** `String.lastIndexOf(c, from)`: the last position at or before `from` holding `c`, or -1. */
  function LastIndexOfAt(s: JString, c: CodeUnit, from: int): (r: int)
    ensures -1 <= r < |s| && (r == -1 || r <= from)
    ensures r >= 0 ==> s[r] == c && forall k | r < k < |s| && k <= from :: s[k] != c
    ensures r == -1 ==> forall k | 0 <= k < |s| && k <= from :: s[k] != c
    decreases from + 1
  {
    if from < 0 then -1
    else if from >= |s| then LastIndexOfAt(s, c, |s| - 1)
    else if s[from] == c then from
    else LastIndexOfAt(s, c, from - 1)
  }

  /** `String.lastIndexOf(c)`. */
  function LastIndexOf(s: JString, c: CodeUnit): (r: int)
    ensures -1 <= r < |s|
    ensures r >= 0 ==> s[r] == c && forall k | r < k < |s| :: s[k] != c
    ensures r == -1 <==> c !in s
  {
    LastIndexOfAt(s, c, |s| - 1)
  }

  predicate StartsWith(s: JString, p: JString) {
    |p| <= |s| && s[..|p|] == p
  }

  predicate EndsWith(s: JString, p: JString) {
    |p| <= |s| && s[|s| - |p|..] == p
  }

  /** The line terminators that `.` in a Java regular expression does not match. */
  predicate IsLineTerminator(c: CodeUnit) {
    c == NEWLINE || c == CARRIAGE_RETURN || c == 0x85 || c == 0x2028 || c == 0x2029
  }

  /** No line terminator: `.*` matches the whole of `s`. */
  predicate NoTerminator(s: JString) {
    forall k | 0 <= k < |s| :: !IsLineTerminator(s[k])
  }

  /** `Character.isWhitespace`, which delimits the scanner's tokens (Unicode 6.3 and later). */
  predicate IsJavaWhitespace(c: CodeUnit) {
    0x09 <= c <= 0x0D || 0x1C <= c <= 0x20 || c == 0x1680 || 0x2000 <= c <= 0x2006 || 0x2008 <= c <= 0x200A ||
    c == 0x2028 || c == 0x2029 || c == 0x205F || c == 0x3000
  }

  /** The number of white space units `s` starts with. */
  function LeadingWhitespace(s: JString): (n: nat)
    ensures n <= |s|
  {
    if s != [] && IsJavaWhitespace(s[0]) then 1 + LeadingWhitespace(s[1..]) else 0
  }

  lemma {:induction false} LeadingWhitespaceIs(s: JString)
    ensures forall k | 0 <= k < LeadingWhitespace(s) :: IsJavaWhitespace(s[k])
    ensures LeadingWhitespace(s) == |s| || !IsJavaWhitespace(s[LeadingWhitespace(s)])
  {
    if s != [] && IsJavaWhitespace(s[0]) {
      LeadingWhitespaceIs(s[1..]);
    }
  }

  function TokenLength(s: JString): (n: nat)
    ensures n <= |s|
  {
    if s != [] && !IsJavaWhitespace(s[0]) then 1 + TokenLength(s[1..]) else 0
  }

  /**
    The token `Scanner.hasNext(pattern)` tests, the scanner standing at the
    start of the text `s`: the first run of code units that are not white
    space. The run may go on past a line: U+0085 ends a line but is not
    white space.
   */
  function NextToken(s: JString): (r: Option<JString>)
  {
    var w := LeadingWhitespace(s);
    if w == |s| then None
    else
      var t := s[w..];
      Some(t[..TokenLength(t)])
  }

  lemma {:induction false} TokenLengthIs(s: JString)
    ensures forall k | 0 <= k < TokenLength(s) :: !IsJavaWhitespace(s[k])
    ensures TokenLength(s) == |s| || IsJavaWhitespace(s[TokenLength(s)])
  {
    if s != [] && !IsJavaWhitespace(s[0]) {
      TokenLengthIs(s[1..]);
    }
  }

  /** A token is not empty and holds no white space; it is all of a run that starts after white space. */
  lemma {:induction false} NextTokenIsToken(s: JString)
    ensures NextToken(s).Some? ==> NextToken(s).value != []
    ensures NextToken(s).Some? ==> forall k | 0 <= k < |NextToken(s).value| :: !IsJavaWhitespace(NextToken(s).value[k])
    ensures NextToken(s).None? <==> forall k | 0 <= k < |s| :: IsJavaWhitespace(s[k])
  {
    var w := LeadingWhitespace(s);
    LeadingWhitespaceIs(s);
    if w < |s| {
      TokenLengthIs(s[w..]);
    }
  }

  /** A text that starts with a unit other than white space, up to white space at `p`, has its token within that stretch. */
  lemma {:induction false} TokenBefore(s: JString, p: nat)
    requires 0 < p < |s| && !IsJavaWhitespace(s[0]) && IsJavaWhitespace(s[p])
    ensures NextToken(s).Some? && NextToken(s).value == s[..|NextToken(s).value|] && |NextToken(s).value| <= p
  {
    assert LeadingWhitespace(s) == 0;
    assert s[0..] == s;
    TokenLengthIs(s);
  }

  // ---------------------------------------------------------------------
  // java.util.Scanner lines

  /** The length of the first line of `s`: the units before its first line terminator. */
  function LineLength(s: JString): (n: nat)
    ensures n <= |s| && NoTerminator(s[..n])
    ensures n < |s| ==> IsLineTerminator(s[n])
    decreases |s|
  {
    if s == [] || IsLineTerminator(s[0]) then 0
    else
      var n := 1 + LineLength(s[1..]);
      assert forall k | 1 <= k < n :: s[..n][k] == s[1..][..n - 1][k - 1];
      n
  }

  /** A line that ends at `n` is `n` units long. */
  lemma {:induction false} LineLengthIs(s: JString, n: nat)
    requires n <= |s| && NoTerminator(s[..n]) && (n < |s| ==> IsLineTerminator(s[n]))
    ensures LineLength(s) == n
    decreases n
  {
    if n > 0 {
      assert s[..n][0] == s[0];
      var t := s[1..][..n - 1];
      forall k | 0 <= k < |t| ensures !IsLineTerminator(t[k]) {
        assert t[k] == s[..n][k + 1];
      }
      LineLengthIs(s[1..], n - 1);
    }
  }

  /**
    What one `Scanner.nextLine` consumes from `s`: its first line and the
    terminator after it, if any; a carriage return followed by a line
    feed is one terminator.
   */
  function PieceLength(s: JString): (n: nat)
    ensures LineLength(s) <= n <= |s| && (s != [] ==> 0 < n)
    ensures n == LineLength(s) ==> n == |s|
  {
    var l := LineLength(s);
    if l == |s| then l
    else if s[l] == CARRIAGE_RETURN && l + 1 < |s| && s[l + 1] == NEWLINE then l + 2
    else l + 1
  }

  /** The scanner's input cut after each line terminator: what each `nextLine` consumes, in order. */
  function ScannerPieces(s: JString): (r: seq<JString>)
    ensures forall k | 0 <= k < |r| :: r[k] != []
    decreases |s|
  {
    if s == [] then [] else var n := PieceLength(s); [s[..n]] + ScannerPieces(s[n..])
  }

  /** The line `nextLine` returns for a piece: the piece without its terminator. */
  function LineOf(piece: JString): (r: JString)
    ensures NoTerminator(r) && |r| <= |piece|
  {
    piece[..LineLength(piece)]
  }

  /** The lines `nextLine` returns for the pieces. */
  function Lines(pieces: seq<JString>): (r: seq<JString>)
    ensures |r| == |pieces|
    ensures forall k | 0 <= k < |r| :: r[k] == LineOf(pieces[k])
  {
    seq(|pieces|, k requires 0 <= k < |pieces| => LineOf(pieces[k]))
  }

  lemma LinesAppend(a: seq<JString>, b: seq<JString>)
    ensures Lines(a + b) == Lines(a) + Lines(b)
  {
  }

  lemma LinesTake(a: seq<JString>, n: nat)
    requires n <= |a|
    ensures Lines(a[..n]) == Lines(a)[..n] && Lines(a[n..]) == Lines(a)[n..]
  {
  }

  /** The text a reader holds from the `readLine` lines `lines` on: each line, then a line feed. */
  function Text(lines: seq<JString>): (r: JString)
    ensures |r| >= |lines|
    decreases |lines|
  {
    if lines == [] then [] else lines[0] + [NEWLINE] + Text(lines[1..])
  }

  lemma TextOne(line: JString)
    ensures Text([line]) == line + [NEWLINE]
  {
    assert [line][1..] == [];
  }

  lemma {:induction false} TextAppend(a: seq<JString>, b: seq<JString>)
    ensures Text(a + b) == Text(a) + Text(b)
    decreases |a|
  {
    if a == [] {
      assert a + b == b;
    } else {
      assert (a + b)[0] == a[0] && (a + b)[1..] == a[1..] + b;
      TextAppend(a[1..], b);
    }
  }

  /** The pieces hold the whole text, in order: `nextLine` loses nothing but splits it. */
  lemma {:induction false} ScannerPiecesKeep(s: JString)
    ensures Flatten(ScannerPieces(s)) == s
    decreases |s|
  {
    if s != [] {
      var n := PieceLength(s);
      ScannerPiecesKeep(s[n..]);
      assert ([s[..n]] + ScannerPieces(s[n..]))[0] == s[..n];
      assert ([s[..n]] + ScannerPieces(s[n..]))[1..] == ScannerPieces(s[n..]);
      assert s[..n] + s[n..] == s;
    }
  }

  /**
    Every piece but the last ends in a line terminator, and each is one
    line: its own first piece.
   */
  lemma {:induction false} ScannerPiecesEnd(s: JString)
    ensures forall k | 0 <= k < |ScannerPieces(s)| - 1 :: LineLength(ScannerPieces(s)[k]) < |ScannerPieces(s)[k]|
    ensures forall k | 0 <= k < |ScannerPieces(s)| :: PieceLength(ScannerPieces(s)[k]) == |ScannerPieces(s)[k]|
    decreases |s|
  {
    if s != [] {
      var n := PieceLength(s);
      var r := ScannerPieces(s[n..]);
      ScannerPiecesEnd(s[n..]);
      PieceIsOne(s);
      assert ScannerPieces(s) == [s[..n]] + r;
      if n == |s| {
        assert s[n..] == [];
      }
    }
  }

  /** The first piece of `s` is a piece of its own. */
  lemma {:induction false} PieceIsOne(s: JString)
    requires s != []
    ensures PieceLength(s[..PieceLength(s)]) == PieceLength(s)
    ensures PieceLength(s) < |s| ==> LineLength(s[..PieceLength(s)]) < PieceLength(s)
  {
    var l := LineLength(s);
    var n := PieceLength(s);
    var p := s[..n];
    assert p[..l] == s[..l];
    LineLengthIs(p, l);
  }

  /**
    A text that ends in a line feed ends its last piece: the pieces of
    what follows are pieces of their own.
   */
  lemma {:induction false} ScannerPiecesAppend(a: JString, b: JString)
    requires a == [] || a[|a| - 1] == NEWLINE
    ensures ScannerPieces(a + b) == ScannerPieces(a) + ScannerPieces(b)
    decreases |a|
  {
    if a == [] {
      assert a + b == b;
    } else {
      var n := PieceLength(a);
      var ab := a + b;
      FirstPieceOfAppend(a, b);
      assert ab[..n] == a[..n] && ab[n..] == a[n..] + b;
      assert a[n..] == [] || a[n..][|a[n..]| - 1] == NEWLINE;
      ScannerPiecesAppend(a[n..], b);
      calc {
        ScannerPieces(ab);
        [ab[..n]] + ScannerPieces(ab[n..]);
        [a[..n]] + (ScannerPieces(a[n..]) + ScannerPieces(b));
        { AppendAssoc([a[..n]], ScannerPieces(a[n..]), ScannerPieces(b)); }
        ScannerPieces(a) + ScannerPieces(b);
      }
    }
  }

  lemma {:induction false} FirstPieceOfAppend(a: JString, b: JString)
    requires a != [] && a[|a| - 1] == NEWLINE
    ensures PieceLength(a + b) == PieceLength(a)
  {
    var l := LineLength(a);
    assert a[..|a|] == a && IsLineTerminator(a[|a| - 1]);
    assert (a + b)[..l] == a[..l];
    LineLengthIs(a + b, l);
  }

  /** A line with no terminator, then a line feed, is one piece, and `nextLine` returns the line. */
  lemma {:induction false} LinePiece(line: JString)
    requires NoTerminator(line)
    ensures ScannerPieces(line + [NEWLINE]) == [line + [NEWLINE]]
    ensures LineOf(line + [NEWLINE]) == line
  {
    var s := line + [NEWLINE];
    assert s[..|line|] == line;
    LineLengthIs(s, |line|);
    assert PieceLength(s) == |s|;
    assert s[..|s|] == s && s[|s|..] == [];
  }

  /** Each line followed by a line feed. */
  function Terminated(lines: seq<JString>): (r: seq<JString>)
    ensures |r| == |lines|
    ensures forall k | 0 <= k < |r| :: r[k] == lines[k] + [NEWLINE]
  {
    seq(|lines|, k requires 0 <= k < |lines| => lines[k] + [NEWLINE])
  }

  /**
    Lines without terminators are read back as they are: each, with the
    line feed after it, is one piece of the scanner's.
   */
  lemma {:induction false} TextPieces(lines: seq<JString>)
    requires forall k | 0 <= k < |lines| :: NoTerminator(lines[k])
    ensures ScannerPieces(Text(lines)) == Terminated(lines)
    ensures Lines(ScannerPieces(Text(lines))) == lines
    decreases |lines|
  {
    if lines != [] {
      var head := lines[0] + [NEWLINE];
      assert ScannerPieces(Text(lines)) == [head] + Terminated(lines[1..]) by {
        TextPieces(lines[1..]);
        LinePiece(lines[0]);
        ScannerPiecesAppend(head, Text(lines[1..]));
      }
      assert Terminated(lines) == [head] + Terminated(lines[1..]);
    }
    LinesTerminated(lines);
  }

  /** A line without terminators, then a line feed, reads back as the line. */
  lemma LinesTerminated(lines: seq<JString>)
    requires forall k | 0 <= k < |lines| :: NoTerminator(lines[k])
    ensures Lines(Terminated(lines)) == lines
  {
    forall k | 0 <= k < |lines| ensures LineOf(Terminated(lines)[k]) == lines[k] {
      LinePiece(lines[k]);
    }
  }

  /** The blanks that `String.trim` removes: every code unit up to U+0020. */
  predicate IsTrimmed(c: CodeUnit) {
    c <= 0x20
  }

  /** The number of leading code units that `String.trim` removes. */
  function TrimStartCount(s: JString): (n: nat)
    ensures n <= |s|
    ensures forall k | 0 <= k < n :: IsTrimmed(s[k])
    ensures n == |s| || !IsTrimmed(s[n])
  {
    if s != [] && IsTrimmed(s[0]) then 1 + TrimStartCount(s[1..]) else 0
  }

  /** The number of trailing code units that `String.trim` removes. */
  function TrimEndCount(s: JString): (n: nat)
    ensures n <= |s|
    ensures forall k | |s| - n <= k < |s| :: IsTrimmed(s[k])
    ensures n == |s| || !IsTrimmed(s[|s| - n - 1])
  {
    if s != [] && IsTrimmed(s[|s| - 1]) then 1 + TrimEndCount(s[..|s| - 1]) else 0
  }

  /** `String.trim`: drop the code units up to U+0020 at both ends. */
  function Trim(s: JString): (r: JString)
    ensures r == [] || (!IsTrimmed(r[0]) && !IsTrimmed(r[|r| - 1]))
    ensures r == [] <==> forall k | 0 <= k < |s| :: IsTrimmed(s[k])
    ensures r != [] ==> r == s[TrimStartCount(s)..|s| - TrimEndCount(s)]
  {
    var i := TrimStartCount(s);
    if i == |s| then []
    else
      var j := TrimEndCount(s);
      assert j < |s| - i by { assert !IsTrimmed(s[i]); }
      s[i..|s| - j]
  }

  /** `String.replace(a, b)` for two single code units. */
  function ReplaceChar(s: JString, a: CodeUnit, b: CodeUnit): (r: JString)
    ensures |r| == |s|
    ensures forall i | 0 <= i < |s| :: r[i] == (if s[i] == a then b else s[i])
  {
    seq(|s|, i requires 0 <= i < |s| => if s[i] == a then b else s[i])
  }

  /** Upper-case hexadecimal digit of a value below 16, as `%X` writes it. */
  function HexDigit(d: nat): (r: CodeUnit)
    requires d < 16
    ensures IsHexDigit(r) && HexValue(r) == d
  {
    if d < 10 then 0x30 + d else 0x41 + (d - 10)
  }

  predicate IsHexDigit(c: CodeUnit) {
    (0x30 <= c <= 0x39) || (0x41 <= c <= 0x46) || (0x61 <= c <= 0x66)
  }

  function HexValue(c: CodeUnit): (r: nat)
    requires IsHexDigit(c)
    ensures r < 16
  {
    if c <= 0x39 then c - 0x30
    else if c <= 0x46 then c - 0x41 + 10
    else c - 0x61 + 10
  }

  /** `String.format("%04X", c)` for one code unit: four upper-case hex digits. */
  function Hex4(c: CodeUnit): (r: JString)
    ensures |r| == 4
    ensures forall i | 0 <= i < 4 :: IsHexDigit(r[i]) && 0x30 <= r[i] <= 0x46
  {
    var q1 := c / 16;
    var q2 := q1 / 16;
    [HexDigit(q2 / 16), HexDigit(q2 % 16), HexDigit(q1 % 16), HexDigit(c % 16)]
  }

  /** The value of a run of hexadecimal digits, most significant first. */
  function HexNumber(d: JString): (r: nat)
    requires forall i | 0 <= i < |d| :: IsHexDigit(d[i])
    decreases |d|
  {
    if d == [] then 0 else HexNumber(d[..|d| - 1]) * 16 + HexValue(d[|d| - 1])
  }

  predicate AllHex(d: JString) {
    forall i | 0 <= i < |d| :: IsHexDigit(d[i])
  }

  lemma Hex4Value(c: CodeUnit)
    ensures AllHex(Hex4(c)) && HexNumber(Hex4(c)) == c
  {
    var h := Hex4(c);
    var q1 := c / 16;
    var q2 := q1 / 16;
    assert h[..4][..3] == h[..3] && h[..3][..2] == h[..2] && h[..2][..1] == h[..1] && h[..1][..0] == [];
    assert HexNumber(h[..1]) == q2 / 16;
    assert HexNumber(h[..2]) == q2 / 16 * 16 + q2 % 16 == q2;
    assert HexNumber(h[..3]) == q2 * 16 + q1 % 16 == q1;
    assert h == h[..4];
  }

  /**
    `Integer.parseInt(d, 16)` for the short digit strings the filters pass in:
    an optional leading `+` or `-`, then at least one hexadecimal digit.
   */
  function ParseIntHex(d: JString): (r: Option<int>)
    ensures r.Some? <==> (AllHex(d) && d != []) || (|d| >= 2 && (d[0] == PLUS || d[0] == HYPHEN) && AllHex(d[1..]))
  {
    if |d| >= 2 && d[0] == HYPHEN && AllHex(d[1..]) then Some(0 - HexNumber(d[1..]) as int)
    else if |d| >= 2 && d[0] == PLUS && AllHex(d[1..]) then Some(HexNumber(d[1..]))
    else if d != [] && AllHex(d) then Some(HexNumber(d))
    else None
  }

  /** The `(char)` cast of an `int`: keep the low sixteen bits. */
  function ToChar(n: int): (r: CodeUnit)
    ensures 0 <= n < 0x1_0000 ==> r == n
  {
    n % 0x1_0000
  }

  /** What was already written, `out`, followed by what the rest writes, or what the rest throws. */
  function Then<T>(out: seq<T>, r: Result<seq<T>>): (res: Result<seq<T>>) {
    if r.Err? then r else Ok(out + r.value)
  }

  lemma ThenNothing<T>(r: Result<seq<T>>)
    ensures Then([], r) == r
  {
    if r.Ok? {
      assert [] + r.value == r.value;
    }
  }

  /** When the rest writes `b`, writing `a` before it writes `a + b`. */
  lemma ThenJoins<T>(a: seq<T>, b: seq<T>, r: Result<seq<T>>)
    requires r.Ok? ==> r.value == b
    ensures Then(a, r).Ok? ==> Then(a, r).value == a + b
  {
  }

  /** Writing `a` and then `b` before the rest is writing `a + b` before it. */
  lemma ThenThen<T>(a: seq<T>, b: seq<T>, r: Result<seq<T>>)
    ensures Then(a, Then(b, r)) == Then(a + b, r)
  {
    if r.Ok? {
      AppendAssoc(a, b, r.value);
    }
  }
}
