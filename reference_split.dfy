/**
 * Preparing the references: splitting the reference ribozyme into the parts
 * the stem measurement compares against (`cut_ribozyme_loops`), and trimming
 * the unpaired ends of the aptamer (`cut_aptamer_hanging`). The answers the
 * source asks for on the terminal are boolean parameters.
 */
module ReferenceSplit {
  import opened Strings
  import opened HairpinFinder
  import opened Scaffold

  // ---------------------------------------------------------------------------
  // cut_ribozyme_loops

  /**
   * `cut_ribozyme_loops(sequence, structure, left_ribozyme)` with the answer
   * `cutLoops`. Cutting splits at the first two hairpins into a left part up
   * to the first hairpin's `(`, a top part from that hairpin's `)` to the
   * second hairpin's `(`, and a right part from the second hairpin's `)`; the
   * source fails with an IndexError (None) when there are fewer than two
   * hairpins. Without cutting, it splits into two parts after
   * `len(left_ribozyme)` symbols and forces `.(` / `).` at the seam.
   */
  function CutRibozymeLoops(sequence: string, structure: string, leftRibozyme: string, cutLoops: bool): (r: Option<seq<Part>>)
    ensures r.Some? ==> |r.value| == (if cutLoops then 3 else 2)
    ensures r.None? <==> cutLoops && |HairpinsUpTo(structure, |structure|).starts| < 2
  {
    if cutLoops then
      var h := HairpinsUpTo(structure, |structure|);
      if |h.starts| < 2 then None
      else Some(CutAtHairpinIndices(sequence, structure, h.starts, h.ends))
    else
      var l := |leftRibozyme|;
      Some([Part(Slice(sequence, 0, l), Slice(structure, 0, l - 2) + ".("),
            Part(Slice(sequence, l, |sequence|), ")." + Slice(structure, l + 2, |structure|))])
  }

  /**
   * The three parts cut at the first two hairpins `starts`/`ends`. Each part
   * slices its sequence and its structure with the same bounds, so the two
   * stay aligned.
   */
  function CutAtHairpinIndices(sequence: string, structure: string, starts: seq<int>, ends: seq<int>): (r: seq<Part>)
    requires |starts| >= 2 && |ends| >= 2
    ensures |r| == 3
    ensures |sequence| == |structure| ==> forall i :: 0 <= i < 3 ==> |r[i].sequence| == |r[i].structure|
  {
    var s0, s1, e0, e1 := starts[0], starts[1], ends[0], ends[1];
    [Part(Slice(sequence, 0, s0 + 1), Slice(structure, 0, s0 + 1)),
     Part(Slice(sequence, e0, s1 + 1), Slice(structure, e0, s1 + 1)),
     Part(Slice(sequence, e1, |sequence|), Slice(structure, e1, |structure|))]
  }

  /**
   * The first two hairpins: both start at a `(`, in order, and when the first
   * one closes, it closes before the second starts, with no bracket in its loop.
   */
  lemma FirstHairpinLoop(structure: string)
    requires |HairpinsUpTo(structure, |structure|).starts| >= 2
    ensures var h := HairpinsUpTo(structure, |structure|);
      var s0, e0, s1 := h.starts[0], h.ends[0], h.starts[1];
      && 0 <= s0 < s1 < |structure| && structure[s0] == '(' && structure[s1] == '('
      && (e0 != -1 ==>
            && s0 < e0 < s1 && structure[e0] == ')'
            && forall k :: s0 < k < e0 ==> structure[k] != '(' && structure[k] != ')')
  {
    var h := HairpinsUpTo(structure, |structure|);
    HairpinBeforeNext(structure, h.starts[0], h.ends[0], h.starts[1]);
  }

  /** A hairpin start `s0` with first later `)` at `e0`, and a later `(` at `s1`. */
  lemma HairpinBeforeNext(structure: string, s0: nat, e0: int, s1: nat)
    requires s0 < s1 < |structure| && IsHairpinStart(structure, s0) && structure[s1] == '('
    requires e0 == FindChar(structure, ')', s0 + 1)
    ensures structure[s0] == '('
    ensures e0 != -1 ==>
      && s0 < e0 < s1 && structure[e0] == ')'
      && forall k :: s0 < k < e0 ==> structure[k] != '(' && structure[k] != ')'
  {
    if e0 != -1 {
      var nextOpen := FindChar(structure, '(', s0 + 1);
      assert nextOpen != -1;
      assert e0 < nextOpen <= s1;
    }
  }

  /**
   * What the first two entries of `find_hairpins` look like (FirstHairpinLoop
   * and SecondHairpinEnd prove it): two `(` in order; the first hairpin's end
   * is -1 or a `)` between them; the second hairpin's end is -1 or a later `)`.
   */
  predicate HairpinBounds(structure: string, starts: seq<int>, ends: seq<int>)
  {
    && |starts| >= 2 && |ends| >= 2
    && 0 <= starts[0] < starts[1] < |structure|
    && structure[starts[0]] == '(' && structure[starts[1]] == '('
    && (ends[0] != -1 ==> starts[0] < ends[0] < starts[1] && structure[ends[0]] == ')')
    && (ends[1] == -1 || (starts[1] < ends[1] < |structure| && structure[ends[1]] == ')'))
  }

  /**
   * The parts cut at two hairpins. The left part runs from the start through
   * the first hairpin's `(`. When that hairpin closes, the top part runs from
   * its `)` through the second hairpin's `(`; when it does not, `ends[0]` is
   * -1, which Python reads as the last index, so the top part is the final
   * `(` or nothing. The right part runs from the second hairpin's `)` to the
   * end, or is the last symbol alone when that `)` is missing. With a sequence
   * as long as the structure, each part's sequence is cut at the same
   * positions.
   */
  lemma CutPartsAtIndices(sequence: string, structure: string, starts: seq<int>, ends: seq<int>)
    requires HairpinBounds(structure, starts, ends)
    ensures var parts := CutAtHairpinIndices(sequence, structure, starts, ends);
      var s0, e0, s1, e1, n := starts[0], ends[0], starts[1], ends[1], |structure|;
      && parts[0].structure == structure[..s0 + 1]
      && parts[0].structure[s0] == '('
      && (e0 != -1 ==>
            && parts[1].structure == structure[e0..s1 + 1]
            && parts[1].structure[0] == ')' && parts[1].structure[s1 - e0] == '(')
      && (e0 == -1 ==> parts[1].structure == if s1 == n - 1 then "(" else "")
      && (e1 != -1 ==> parts[2].structure == structure[e1..] && parts[2].structure[0] == ')')
      && (e1 == -1 ==> parts[2].structure == [structure[n - 1]])
    ensures |sequence| == |structure| ==>
      var parts := CutAtHairpinIndices(sequence, structure, starts, ends);
      var s0, e0, s1, e1, n := starts[0], ends[0], starts[1], ends[1], |sequence|;
      && parts[0].sequence == sequence[..s0 + 1]
      && (e0 != -1 ==> parts[1].sequence == sequence[e0..s1 + 1])
      && (e0 == -1 ==> parts[1].sequence == if s1 == n - 1 then [sequence[s1]] else [])
      && (e1 != -1 ==> parts[2].sequence == sequence[e1..])
      && (e1 == -1 ==> parts[2].sequence == [sequence[n - 1]])
  {
  }

  /** The end reported for a hairpin start is -1 or a later `)`. */
  lemma SecondHairpinEnd(structure: string, s1: nat, e1: int)
    requires s1 < |structure| && e1 == FindChar(structure, ')', s1 + 1)
    ensures e1 == -1 || (s1 < e1 < |structure| && structure[e1] == ')')
  {
  }

  /**
   * Cutting a reference with at least two hairpins cuts at the first two
   * entries `find_hairpins` reports, and those entries meet HairpinBounds, so
   * the parts are the ones CutPartsAtIndices describes.
   */
  lemma CutAtFirstHairpins(sequence: string, structure: string, leftRibozyme: string)
    requires |HairpinsUpTo(structure, |structure|).starts| >= 2
    ensures var h := HairpinsUpTo(structure, |structure|);
      && CutRibozymeLoops(sequence, structure, leftRibozyme, true)
           == Some(CutAtHairpinIndices(sequence, structure, h.starts, h.ends))
      && HairpinBounds(structure, h.starts, h.ends)
  {
    var h := HairpinsUpTo(structure, |structure|);
    FirstHairpinLoop(structure);
    SecondHairpinEnd(structure, h.starts[1], h.ends[1]);
  }

  /**
   * Without cutting, the two parts split the sequence exactly; their
   * structures carry the forced `.(` and `).` at the seam, and each part's
   * structure is as long as its sequence when the seam leaves two symbols on
   * either side.
   */
  lemma SplitAtLeftRibozyme(sequence: string, structure: string, leftRibozyme: string)
    requires |sequence| == |structure|
    ensures var parts := CutRibozymeLoops(sequence, structure, leftRibozyme, false).value;
      && parts[0].sequence + parts[1].sequence == sequence
      && parts[0].structure[|parts[0].structure| - 2..] == ".("
      && parts[1].structure[..2] == ")."
      && (2 <= |leftRibozyme| <= |sequence| - 2 ==>
            |parts[0].sequence| == |parts[0].structure| && |parts[1].sequence| == |parts[1].structure|)
  {
    var l := |leftRibozyme|;
    if l <= |sequence| {
      assert sequence[..l] + sequence[l..] == sequence;
    }
  }

  // ---------------------------------------------------------------------------
  // cut_aptamer_hanging

  /** The aptamer has an unpaired symbol at one of its ends. */
  predicate Hanging(structure: string)
    requires |structure| > 0
  {
    structure[0] == '.' || structure[|structure| - 1] == '.'
  }

  /** `structure[structure.find('('):structure.rfind(')')+1]`: from the first `(` to the last `)`. */
  function TrimStructure(structure: string): (r: string)
    ensures 0 <= FindChar(structure, '(', 0) <= RFindChar(structure, ')') ==>
      r == structure[FindChar(structure, '(', 0)..RFindChar(structure, ')') + 1] &&
      r[0] == '(' && r[|r| - 1] == ')'
  {
    Slice(structure, FindChar(structure, '(', 0), RFindChar(structure, ')') + 1)
  }

  /**
   * `cut_aptamer_hanging(sequence, structure)` as written, with the answer
   * `removeHanging`: the sequence is sliced with the positions of the first
   * `(` and last `)` of the structure that has already been trimmed. None is
   * the IndexError `structure[0]` raises on an empty structure.
   */
  function CutAptamerHanging(sequence: string, structure: string, removeHanging: bool): (r: Option<Part>)
    ensures r.None? <==> |structure| == 0
    ensures |structure| > 0 && !(Hanging(structure) && removeHanging) ==> r == Some(Part(sequence, structure))
    ensures |structure| > 0 && Hanging(structure) && removeHanging ==>
      r.value.structure == TrimStructure(structure) && |r.value.sequence| <= |sequence|
  {
    if |structure| == 0 then None
    else if Hanging(structure) && removeHanging then
      var trimmed := TrimStructure(structure);
      Some(Part(Slice(sequence, FindChar(trimmed, '(', 0), RFindChar(trimmed, ')') + 1), trimmed))
    else Some(Part(sequence, structure))
  }

  /**
   * What the source does: whenever the structure has a `(` before its last
   * `)`, the kept sequence is the prefix of the sequence as long as the
   * trimmed structure, whatever was trimmed from the front.
   */
  lemma AsWrittenKeepsPrefix(sequence: string, structure: string)
    requires |structure| > 0 && Hanging(structure)
    requires 0 <= FindChar(structure, '(', 0) <= RFindChar(structure, ')')
    ensures var r := CutAptamerHanging(sequence, structure, true).value;
      r.structure == TrimStructure(structure) &&
      r.sequence == Slice(sequence, 0, |r.structure|)
  {
    var trimmed := TrimStructure(structure);
    assert FindChar(trimmed, '(', 0) == 0;
    assert RFindChar(trimmed, ')') == |trimmed| - 1;
  }

  /**
   * The trimming the source evidently intends: both strings sliced at the
   * same positions of the original structure. An empty structure still
   * raises the IndexError (None).
   */
  function CutAptamerHangingAligned(sequence: string, structure: string, removeHanging: bool): (r: Option<Part>)
    ensures r.None? <==> |structure| == 0
    ensures |structure| > 0 && !(Hanging(structure) && removeHanging) ==> r == Some(Part(sequence, structure))
  {
    if |structure| == 0 then None
    else if Hanging(structure) && removeHanging then
      var first, last := FindChar(structure, '(', 0), RFindChar(structure, ')');
      Some(Part(Slice(sequence, first, last + 1), Slice(structure, first, last + 1)))
    else Some(Part(sequence, structure))
  }

  /**
   * The aligned trimming keeps sequence and structure together: both are the
   * stretch from the first `(` to the last `)`, and each kept symbol of the
   * sequence sits at the same index as its structure symbol.
   */
  lemma AlignedTrimKeepsPairs(sequence: string, structure: string)
    requires |sequence| == |structure| > 0 && Hanging(structure)
    requires 0 <= FindChar(structure, '(', 0) <= RFindChar(structure, ')')
    ensures var r := CutAptamerHangingAligned(sequence, structure, true).value;
      var first, last := FindChar(structure, '(', 0), RFindChar(structure, ')');
      && |r.sequence| == |r.structure| == last + 1 - first
      && r.structure == TrimStructure(structure)
      && r.structure[0] == '(' && r.structure[|r.structure| - 1] == ')'
      && forall k :: 0 <= k < |r.sequence| ==>
           r.sequence[k] == sequence[first + k] && r.structure[k] == structure[first + k]
  {
  }

  /**
   * The two disagree: for the aptamer `ACG` with structure `.()`, the source
   * keeps `AC` where the pair `CG` is meant.
   */
  lemma AsWrittenMisaligns()
    ensures CutAptamerHanging("ACG", ".()", true) == Some(Part("AC", "()"))
    ensures CutAptamerHangingAligned("ACG", ".()", true) == Some(Part("CG", "()"))
  {
    assert FindChar(".()", '(', 0) == 1;
    assert RFindChar(".()", ')') == 2;
    assert TrimStructure(".()") == "()";
    assert FindChar("()", '(', 0) == 0;
    assert RFindChar("()", ')') == 1;
    assert Hanging(".()");
    assert Slice("ACG", 0, 2) == "AC" && Slice("ACG", 1, 3) == "CG";
  }
}
