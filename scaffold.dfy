/**
 * The reference ribozyme split into parts, each a (sequence, structure) pair,
 * and how a part is located inside a full candidate sequence: by the first
 * occurrence of its sequence.
 */
module Scaffold {
  import opened Strings

  datatype Part = Part(sequence: string, structure: string)

  /** `sequence.find(part[0])` */
  function Locate(sequence: string, p: Part): (r: int)
    ensures r == -1 || (0 <= r && r + |p.sequence| <= |sequence| && sequence[r..r + |p.sequence|] == p.sequence)
  {
    FindSub(sequence, p.sequence)
  }

  /** A non-empty part whose sequence occurs in `sequence` and whose structure is as long as its sequence. */
  predicate Placed(sequence: string, p: Part)
  {
    |p.sequence| == |p.structure| > 0 && Locate(sequence, p) >= 0
  }

  /**
   * What the stem measurement needs of its inputs: a structure as long as the
   * sequence, and three parts (left, top, right) that all occur in the
   * sequence, in this order and without overlapping.
   */
  predicate WellPlaced(sequence: string, structure: string, parts: seq<Part>)
  {
    && |sequence| == |structure|
    && |parts| == 3
    && Placed(sequence, parts[0]) && Placed(sequence, parts[1]) && Placed(sequence, parts[2])
    && Locate(sequence, parts[0]) + |parts[0].sequence| <= Locate(sequence, parts[1])
    && Locate(sequence, parts[1]) + |parts[1].sequence| <= Locate(sequence, parts[2])
  }

  /** The last index of part `i` in the sequence: the stem side just before loop `i`. */
  function LoopStart(sequence: string, structure: string, parts: seq<Part>, i: nat): (r: nat)
    requires WellPlaced(sequence, structure, parts) && i < 2
    ensures r < Locate(sequence, parts[i + 1]) < |sequence|
  {
    Locate(sequence, parts[i]) + |parts[i].sequence| - 1
  }

  /** The first index of part `i + 1`: the stem side just after loop `i`. */
  function LoopEnd(sequence: string, structure: string, parts: seq<Part>, i: nat): (r: nat)
    requires WellPlaced(sequence, structure, parts) && i < 2
    ensures r + |parts[i + 1].sequence| <= |sequence|
  {
    Locate(sequence, parts[i + 1])
  }
}
