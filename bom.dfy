/**
  `Bom`: the byte-order marks a resource file may start with, `check`, and
  the first-match detection `BomInputStream` runs over them.
 */
module Boms {
  import opened Wrappers
  import opened JavaText

  /** A byte, written as its unsigned value. */
  type Byte = b: int | 0 <= b < 0x100

  /** A byte-order mark: its bytes and its name. */
  datatype Bom = Bom(bomBytes: seq<Byte>, name: JString)

  const BOM_UTF_8: Bom := Bom([0xEF, 0xBB, 0xBF], Lit("UTF-8"))
  const BOM_UTF_16_BIG: Bom := Bom([0xFE, 0xFF], Lit("UTF-16, big-endian"))
  const BOM_UTF_16_LITTLE: Bom := Bom([0xFF, 0xFE], Lit("UTF-16, little-endian"))
  const BOM_UTF_32_BIG: Bom := Bom([0x00, 0x00, 0xFE, 0xFF], Lit("UTF-32, big-endian"))
  const BOM_UTF_32_LITTLE: Bom := Bom([0xFF, 0xFE, 0x00, 0x00], Lit("UTF-32, little-endian"))

  /** `Bom.BOMS`: the order in which detection tries the marks. */
  const BOMS: seq<Bom> := [BOM_UTF_8, BOM_UTF_16_BIG, BOM_UTF_16_LITTLE, BOM_UTF_32_BIG, BOM_UTF_32_LITTLE]

  /** The input starts with the mark's bytes. */
  predicate StartsWithBom(b: Bom, bytes: seq<Byte>) {
    |bytes| >= |b.bomBytes| && bytes[..|b.bomBytes|] == b.bomBytes
  }

  /** `Bom.check`: false for null or too short an input, else a byte-by-byte comparison of the prefix. */
  method Check(b: Bom, bytes: Option<seq<Byte>>) returns (r: bool)
    ensures r <==> bytes.Some? && StartsWithBom(b, bytes.value)
  {
    if bytes.None? || |bytes.value| < |b.bomBytes| {
      return false;
    }
    var i := 0;
    while i < |b.bomBytes|
      invariant 0 <= i <= |b.bomBytes|
      invariant bytes.value[..i] == b.bomBytes[..i]
    {
      if b.bomBytes[i] != bytes.value[i] {
        assert bytes.value[..|b.bomBytes|][i] != b.bomBytes[i];
        return false;
      }
      assert bytes.value[..i + 1] == bytes.value[..i] + [bytes.value[i]];
      assert b.bomBytes[..i + 1] == b.bomBytes[..i] + [b.bomBytes[i]];
      i := i + 1;
    }
    assert b.bomBytes[..i] == b.bomBytes;
    r := true;
  }

  /** The first mark of `boms` the input starts with. */
  function FirstMatch(boms: seq<Bom>, bytes: seq<Byte>): (r: Option<Bom>)
    ensures r.Some? ==> r.value in boms && StartsWithBom(r.value, bytes)
    ensures r.None? ==> forall b | b in boms :: !StartsWithBom(b, bytes)
  {
    if boms == [] then None
    else if StartsWithBom(boms[0], bytes) then Some(boms[0])
    else FirstMatch(boms[1..], bytes)
  }

  /**
    `BomInputStream.skipBom`: the first four bytes of the stream (zeros
    where the stream is shorter) are checked against each mark in turn and
    the first that matches is the stream's mark.
   */
  method DetectBom(head: seq<Byte>) returns (bom: Option<Bom>)
    requires |head| == 4
    ensures bom == FirstMatch(BOMS, head)
  {
    bom := None;
    var i := 0;
    while i < |BOMS|
      invariant 0 <= i <= |BOMS|
      invariant FirstMatch(BOMS, head) == FirstMatch(BOMS[i..], head)
    {
      var matched := Check(BOMS[i], Some(head));
      if matched {
        bom := Some(BOMS[i]);
        return;
      }
      assert BOMS[i..][1..] == BOMS[i + 1..];
      i := i + 1;
    }
  }

  /** The UTF-16 little-endian mark is a prefix of the UTF-32 one and is tried first, so it wins. */
  lemma Utf32LittleDetectedAsUtf16(rest: seq<Byte>)
    ensures FirstMatch(BOMS, BOM_UTF_32_LITTLE.bomBytes + rest) == Some(BOM_UTF_16_LITTLE)
  {
    var bytes := BOM_UTF_32_LITTLE.bomBytes + rest;
    assert bytes[0] == 0xFF && bytes[1] == 0xFE;
    assert BOMS[0] == BOM_UTF_8 && !StartsWithBom(BOM_UTF_8, bytes);
    assert BOMS[1..][0] == BOM_UTF_16_BIG && !StartsWithBom(BOM_UTF_16_BIG, bytes);
    assert bytes[..2] == [0xFF, 0xFE];
    assert BOMS[1..][1..] == BOMS[2..] && BOMS[2..][0] == BOM_UTF_16_LITTLE;
    assert FirstMatch(BOMS[2..], bytes) == Some(BOM_UTF_16_LITTLE);
    assert FirstMatch(BOMS[1..], bytes) == FirstMatch(BOMS[2..], bytes);
  }

  /** Every mark other than UTF-32 little-endian is detected as itself. */
  lemma MarksDetectedAsThemselves(i: nat, rest: seq<Byte>)
    requires i < 4
    ensures FirstMatch(BOMS, BOMS[i].bomBytes + rest) == Some(BOMS[i])
  {
    var bytes := BOMS[i].bomBytes + rest;
    assert StartsWithBom(BOMS[i], bytes) by {
      assert bytes[..|BOMS[i].bomBytes|] == BOMS[i].bomBytes;
    }
    assert BOMS[i..][0] == BOMS[i];
    assert FirstMatch(BOMS[i..], bytes) == Some(BOMS[i]);
    var k := i;
    while k > 0
      invariant 0 <= k <= i
      invariant FirstMatch(BOMS[k..], bytes) == Some(BOMS[i])
    {
      assert BOMS[k - 1..][1..] == BOMS[k..] && BOMS[k - 1..][0] == BOMS[k - 1];
      assert !StartsWithBom(BOMS[k - 1], bytes) by {
        assert bytes[0] == BOMS[i].bomBytes[0];
        if k - 1 == 1 && i >= 2 {
          assert bytes[0] != 0xFE;
        } else if k - 1 == 2 && i == 3 {
          assert bytes[0] != 0xFF;
        } else if k - 1 == 0 {
          assert bytes[0] != 0xEF;
        }
      }
      k := k - 1;
    }
    assert BOMS[0..] == BOMS;
  }
}
