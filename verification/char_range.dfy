/**
 * CharRange: an inclusive interval of UTF-16 code units, and its packed form,
 * the flat sequence of (first, last) pairs stored in a DFA table entry.
 */
module CharRanges {
  /**
   * A UTF-16 code unit, the value of a C# `char`. Every value in 0..0xFFFF is
   * one, lone surrogates included; a character outside the Basic Multilingual
   * Plane is two of them.
   */
  newtype CodeUnit = x: int | 0 <= x < 0x1_0000

  datatype CharRange = CharRange(first: CodeUnit, last: CodeUnit)

  /** CharRange.ToPackedChars: the ranges laid out as consecutive (first, last) pairs. */
  function ToPackedChars(ranges: seq<CharRange>): (packed: seq<CodeUnit>)
    ensures |packed| == 2 * |ranges|
    ensures forall k :: 0 <= k < |ranges| ==>
      packed[2 * k] == ranges[k].first && packed[2 * k + 1] == ranges[k].last
  {
    if ranges == [] then []
    else [ranges[0].first, ranges[0].last] + ToPackedChars(ranges[1..])
  }

  /** The inverse reading of a packed range list, pair by pair; an unpaired last code unit is ignored. */
  function FromPackedChars(packed: seq<CodeUnit>): (ranges: seq<CharRange>)
    ensures |ranges| == |packed| / 2
  {
    if |packed| < 2 then []
    else [CharRange(packed[0], packed[1])] + FromPackedChars(packed[2..])
  }

  /** The two ranges share at least one code unit. */
  predicate Overlap(a: CharRange, b: CharRange) {
    a.first <= b.last && b.first <= a.last
  }

  /** Packing loses nothing: the ranges can be read back from the table in their order. */
  lemma {:induction false} PackedRoundTrip(ranges: seq<CharRange>)
    ensures FromPackedChars(ToPackedChars(ranges)) == ranges
  {
    if ranges != [] {
      var p := ToPackedChars(ranges);
      assert p[2..] == ToPackedChars(ranges[1..]);
      PackedRoundTrip(ranges[1..]);
    }
  }
}
