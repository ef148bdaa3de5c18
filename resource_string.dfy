/**
  `ResourceString`: a key, its value and a sequence number, plus the notes
  and the source value its builder can attach; and
  `ResourceStringComparator`, the order in which bundles are written.
 */
module ResourceStrings {
  import opened Wrappers
  import opened JavaText

  /**
    A resource string. `equals` looks at `key`, `value` and
    `sequenceNumber` only; the notes and the source value ride along.
    A negative sequence number means the position is unknown.
   */
  datatype ResourceString = ResourceString(
    key: JString,
    value: JString,
    sequenceNumber: int,
    notes: Option<seq<JString>>,
    sourceValue: Option<JString>)

  /** The sequence number the two-argument constructor gives: unknown. */
  const UNKNOWN_SEQUENCE: int := -1

  /** `new ResourceString(key, value)`: an unknown sequence number and nothing attached. */
  function WithKeyValue(key: JString, value: JString): (r: ResourceString)
    ensures r.key == key && r.value == value && r.sequenceNumber < 0
    ensures r.notes.None? && r.sourceValue.None?
  {
    ResourceString(key, value, UNKNOWN_SEQUENCE, None, None)
  }

  /** `ResourceString.equals`: same key, value and sequence number. */
  predicate Equals(a: ResourceString, b: ResourceString) {
    a.key == b.key && a.value == b.value && a.sequenceNumber == b.sequenceNumber
  }

  /** Strings that differ only in what they carry besides key, value and number are equal. */
  lemma EqualsIgnoresAttachments(a: ResourceString, notes: Option<seq<JString>>, sourceValue: Option<JString>)
    ensures Equals(a, a.(notes := notes, sourceValue := sourceValue))
  {
  }

  // ---------------------------------------------------------------------
  // String.compareTo

  /**
    `String.compareTo`: the difference of the first code units that differ,
    or of the lengths when one string is a prefix of the other.
   */
  function CompareStrings(a: JString, b: JString): (r: int) {
    if a == [] || b == [] then |a| - |b|
    else if a[0] != b[0] then a[0] - b[0]
    else CompareStrings(a[1..], b[1..])
  }

  lemma {:induction false} CompareStringsAntisymmetric(a: JString, b: JString)
    ensures CompareStrings(a, b) == -CompareStrings(b, a)
  {
    if a != [] && b != [] && a[0] == b[0] {
      CompareStringsAntisymmetric(a[1..], b[1..]);
    }
  }

  lemma {:induction false} CompareStringsZero(a: JString, b: JString)
    ensures CompareStrings(a, b) == 0 <==> a == b
  {
    if a != [] && b != [] && a[0] == b[0] {
      CompareStringsZero(a[1..], b[1..]);
      assert a == [a[0]] + a[1..] && b == [b[0]] + b[1..];
    }
  }

  lemma {:induction false} CompareStringsTransitive(a: JString, b: JString, c: JString)
    requires CompareStrings(a, b) <= 0 && CompareStrings(b, c) <= 0
    ensures CompareStrings(a, c) <= 0
  {
    if a != [] && b != [] && c != [] && a[0] == b[0] && b[0] == c[0] {
      CompareStringsTransitive(a[1..], b[1..], c[1..]);
    }
  }

  // ---------------------------------------------------------------------
  // ResourceStringComparator

  /** How two sequence numbers decide the order, before keys are looked at. */
  datatype SequenceOrder = Before | After | Tie

  function SequenceOrderValue(o: SequenceOrder): (r: int) {
    match o
    case Before => -1
    case After => 1
    case Tie => 0
  }

  /**
    The first half of `compare` as written: only a positive number on the
    right beats an unknown number on the left, while any non-negative number
    on the left beats an unknown one on the right.
   */
  function SequencesAsWritten(seq1: int, seq2: int, unknownFirst: bool): (r: SequenceOrder) {
    if seq1 < 0 then
      if seq2 > 0 then (if unknownFirst then Before else After) else Tie
    else if seq2 < 0 then (if unknownFirst then After else Before)
    else if seq1 < seq2 then Before
    else if seq1 > seq2 then After
    else Tie
  }

  /** `ResourceStringComparator.compare` as written. */
  function CompareAsWritten(o1: ResourceString, o2: ResourceString, unknownFirst: bool): (r: int) {
    match SequencesAsWritten(o1.sequenceNumber, o2.sequenceNumber, unknownFirst)
    case Tie => CompareStrings(o1.key, o2.key)
    case o => SequenceOrderValue(o)
  }

  /** The first half of `compare` with zero counted as known on both sides. */
  function Sequences(seq1: int, seq2: int, unknownFirst: bool): (r: SequenceOrder) {
    if seq1 < 0 then
      if seq2 >= 0 then (if unknownFirst then Before else After) else Tie
    else if seq2 < 0 then (if unknownFirst then After else Before)
    else if seq1 < seq2 then Before
    else if seq1 > seq2 then After
    else Tie
  }

  /** `ResourceStringComparator.compare`, corrected so that sequence number 0 counts as known. */
  function Compare(o1: ResourceString, o2: ResourceString, unknownFirst: bool): (r: int) {
    match Sequences(o1.sequenceNumber, o2.sequenceNumber, unknownFirst)
    case Tie => CompareStrings(o1.key, o2.key)
    case o => SequenceOrderValue(o)
  }

  /** Known sequence numbers sort ascending. */
  lemma KnownAscending(o1: ResourceString, o2: ResourceString, unknownFirst: bool)
    requires 0 <= o1.sequenceNumber && 0 <= o2.sequenceNumber
    ensures o1.sequenceNumber < o2.sequenceNumber ==> Compare(o1, o2, unknownFirst) < 0
    ensures o1.sequenceNumber > o2.sequenceNumber ==> Compare(o1, o2, unknownFirst) > 0
    ensures o1.sequenceNumber < o2.sequenceNumber ==> CompareAsWritten(o1, o2, unknownFirst) < 0
    ensures o1.sequenceNumber > o2.sequenceNumber ==> CompareAsWritten(o1, o2, unknownFirst) > 0
  {
  }

  /** An unknown number sorts after a known one, or before it when unknown numbers come first. */
  lemma UnknownPlacement(unknown: ResourceString, known: ResourceString, unknownFirst: bool)
    requires unknown.sequenceNumber < 0 <= known.sequenceNumber
    ensures Compare(unknown, known, unknownFirst) == (if unknownFirst then -1 else 1)
    ensures Compare(known, unknown, unknownFirst) == (if unknownFirst then 1 else -1)
  {
  }

  /** Equal numbers, or two unknown ones, leave the order to the keys. */
  lemma TiesByKey(o1: ResourceString, o2: ResourceString, unknownFirst: bool)
    requires o1.sequenceNumber == o2.sequenceNumber || (o1.sequenceNumber < 0 && o2.sequenceNumber < 0)
    ensures Compare(o1, o2, unknownFirst) == CompareStrings(o1.key, o2.key)
    ensures CompareAsWritten(o1, o2, unknownFirst) == CompareStrings(o1.key, o2.key)
  {
  }

  /** As written, the comparator agrees with the corrected one except for an unknown number against 0. */
  lemma AsWrittenDiffersOnlyAtZero(o1: ResourceString, o2: ResourceString, unknownFirst: bool)
    requires !(o1.sequenceNumber < 0 && o2.sequenceNumber == 0)
    ensures CompareAsWritten(o1, o2, unknownFirst) == Compare(o1, o2, unknownFirst)
  {
  }

  /**
    As written, `compare` is not antisymmetric: with an unknown number on
    one side and 0 on the other, both orders can compare as "less".
   */
  lemma AsWrittenNotAntisymmetric(a: ResourceString, b: ResourceString)
    requires a.sequenceNumber < 0 && b.sequenceNumber == 0
    requires CompareStrings(a.key, b.key) < 0
    ensures CompareAsWritten(a, b, false) < 0 && CompareAsWritten(b, a, false) < 0
  {
  }

  /** The corrected comparator is antisymmetric in sign. */
  lemma CompareAntisymmetric(a: ResourceString, b: ResourceString, unknownFirst: bool)
    ensures Compare(a, b, unknownFirst) < 0 <==> Compare(b, a, unknownFirst) > 0
    ensures Compare(a, b, unknownFirst) == 0 <==> Compare(b, a, unknownFirst) == 0
  {
    CompareStringsAntisymmetric(a.key, b.key);
  }

  /** The corrected comparator is transitive. */
  lemma CompareTransitive(a: ResourceString, b: ResourceString, c: ResourceString, unknownFirst: bool)
    requires Compare(a, b, unknownFirst) <= 0 && Compare(b, c, unknownFirst) <= 0
    ensures Compare(a, c, unknownFirst) <= 0
  {
    if Sequences(a.sequenceNumber, b.sequenceNumber, unknownFirst).Tie? &&
       Sequences(b.sequenceNumber, c.sequenceNumber, unknownFirst).Tie? {
      CompareStringsTransitive(a.key, b.key, c.key);
    }
  }

  /** Only strings with the same key and number compare as equal. */
  lemma CompareZero(a: ResourceString, b: ResourceString, unknownFirst: bool)
    ensures Compare(a, b, unknownFirst) == 0 <==>
      a.key == b.key && (a.sequenceNumber == b.sequenceNumber || (a.sequenceNumber < 0 && b.sequenceNumber < 0))
  {
    CompareStringsZero(a.key, b.key);
  }
}
