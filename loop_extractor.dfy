/**
 * Loop excision (`get_ribozyme_loops`): once a candidate is measured against
 * the reference parts, each of its two variable loops is read off as a string
 * alternating sequence and structure symbols. The walk follows the loop from
 * 5' to 3'; at a `(` it jumps to the bracket's partner, so a stem leaving the
 * loop is skipped except for its closing `)`, which is read again.
 */
module LoopExtractor {
  import opened Strings
  import opened BracketMatcher
  import opened Scaffold
  import opened StemLengthAnalyzer

  /**
   * The result of `get_ribozyme_loops`: the loops and the total stem lengths,
   * or Malformed where the source stops with a TypeError (it compares an index
   * against the missing partner of a `(` whose stem never closes).
   */
  datatype Extraction = Extracted(loops: seq<string>, stemLengths: seq<int>) | Malformed

  /** `stem_length + modification` for both stems; the source's failure value gives zeros. */
  function StemTotals(m: StemMeasure): (t: seq<int>)
    ensures |t| == 2
    ensures m.Unformed? ==> t == [0, 0]
  {
    if m.Measured? && |m.stemLengths| == 2 && |m.modifications| == 2
    then [m.stemLengths[0] + m.modifications[0], m.stemLengths[1] + m.modifications[1]]
    else [0, 0]
  }

  // ---------------------------------------------------------------------------
  // The walk over one loop

  /**
   * The indices the walk of the source reads, from `index` up to `hi`, when the
   * last partner it jumped to is `next` (None: the partner was missing). None
   * when the walk reaches a comparison with a missing partner.
   */
  function Visits(st: string, index: nat, hi: int, next: Option<int>): (r: Option<seq<nat>>)
    requires hi <= |st|
    decreases hi - index
    ensures r.Some? ==> forall k :: 0 <= k < |r.value| ==> index <= r.value[k] < hi
  {
    if index >= hi then Some([])
    else if next.None? then None
    else if index >= next.value then
      var next' := if st[index] == '(' then Bonded(st, index) else next;
      var rest := Visits(st, index + 1, hi, next');
      if rest.None? then None else Some([index] + rest.value)
    else Visits(st, index + 1, hi, next)
  }

  /** The walk moves from `a` to `b`: past a `(` to its partner, otherwise one step on. */
  predicate Successor(st: string, a: nat, b: nat)
    requires a < |st|
  {
    if st[a] == '(' then Bonded(st, a) == Some(b) else b == a + 1
  }

  /** The walk stops after `a`: its next step would leave the window `..hi`. */
  predicate Final(st: string, a: nat, hi: int)
    requires a < |st|
  {
    if st[a] == '(' then Bonded(st, a).None? || Bonded(st, a).value >= hi else a + 1 >= hi
  }

  /**
   * A completed walk starts at the first index it may read: the later of
   * `index` and the pending partner `next`, when that lies inside the window.
   */
  lemma {:induction false} VisitsStart(st: string, index: nat, hi: int, next: Option<int>)
    requires hi <= |st|
    requires Visits(st, index, hi, next).Some?
    ensures index < hi ==> next.Some?
    ensures var v := Visits(st, index, hi, next).value;
      && (next.Some? ==> (|v| > 0 <==> Max(index, next.value) < hi))
      && (|v| > 0 ==> v[0] == Max(index, next.value))
    decreases hi - index
  {
    if index < hi && next.Some? {
      if index >= next.value {
        var next' := if st[index] == '(' then Bonded(st, index) else next;
        VisitsStart(st, index + 1, hi, next');
      } else {
        VisitsStart(st, index + 1, hi, next);
      }
    }
  }

  /** In a completed walk each read index leads to the next by Successor. */
  lemma {:induction false} VisitsSuccessor(st: string, index: nat, hi: int, next: Option<int>)
    requires hi <= |st|
    requires Visits(st, index, hi, next).Some?
    ensures var v := Visits(st, index, hi, next).value;
      forall k :: 0 <= k < |v| - 1 ==> Successor(st, v[k], v[k + 1])
    decreases hi - index
  {
    if index < hi && next.Some? {
      if index >= next.value {
        var v := Visits(st, index, hi, next).value;
        var next' := if st[index] == '(' then Bonded(st, index) else next;
        VisitsSuccessor(st, index + 1, hi, next');
        var rest := Visits(st, index + 1, hi, next').value;
        assert v == [index] + rest;
        if |rest| > 0 {
          VisitsStart(st, index + 1, hi, next');
          if st[index] == '(' {
            assert next'.value > index;
          }
          assert Successor(st, v[0], v[1]);
        }
        forall k | 1 <= k < |v| - 1
          ensures Successor(st, v[k], v[k + 1])
        {
          assert v[k] == rest[k - 1] && v[k + 1] == rest[k];
        }
      } else {
        VisitsSuccessor(st, index + 1, hi, next);
      }
    }
  }

  /** The last index a completed walk reads is Final. */
  lemma {:induction false} VisitsFinal(st: string, index: nat, hi: int, next: Option<int>)
    requires hi <= |st|
    requires Visits(st, index, hi, next).Some?
    ensures var v := Visits(st, index, hi, next).value;
      |v| > 0 ==> Final(st, v[|v| - 1], hi)
    decreases hi - index
  {
    if index < hi && next.Some? {
      if index >= next.value {
        var v := Visits(st, index, hi, next).value;
        var next' := if st[index] == '(' then Bonded(st, index) else next;
        VisitsFinal(st, index + 1, hi, next');
        var rest := Visits(st, index + 1, hi, next').value;
        assert v == [index] + rest;
        if |rest| > 0 {
          assert v[|v| - 1] == rest[|rest| - 1];
        } else if next'.Some? {
          VisitsStart(st, index + 1, hi, next');
          assert Max(index + 1, next'.value) >= hi;
          if st[index] == '(' {
            assert next'.value > index;
          }
        }
      } else {
        VisitsFinal(st, index + 1, hi, next);
      }
    }
  }

  /**
   * The walk never stops with an error when every `(` it could reach before
   * the last index of the window has a partner.
   */
  lemma {:induction false} VisitsDefined(st: string, index: nat, hi: int, next: Option<int>)
    requires hi <= |st|
    requires index < hi ==> next.Some?
    requires forall k :: index <= k < hi - 1 && st[k] == '(' ==> Bonded(st, k).Some?
    ensures Visits(st, index, hi, next).Some?
    decreases hi - index
  {
    if index < hi {
      if index >= next.value {
        var next' := if st[index] == '(' then Bonded(st, index) else next;
        VisitsDefined(st, index + 1, hi, next');
      } else {
        VisitsDefined(st, index + 1, hi, next);
      }
    }
  }

  /** The loop string: for each read index, its sequence symbol then its structure symbol. */
  function LoopString(sequence: string, structure: string, v: seq<nat>): (r: string)
    requires forall k :: 0 <= k < |v| ==> v[k] < |sequence| && v[k] < |structure|
    ensures |r| == 2 * |v|
    ensures forall k :: 0 <= k < |v| ==> r[2 * k] == sequence[v[k]] && r[2 * k + 1] == structure[v[k]]
  {
    if v == [] then []
    else LoopString(sequence, structure, v[..|v| - 1]) + [sequence[v[|v| - 1]], structure[v[|v| - 1]]]
  }

  /** One loop of the source, read over the window `lo..hi`; None for the TypeError. */
  function LoopWalk(sequence: string, structure: string, lo: nat, hi: int): (r: Option<string>)
    requires |sequence| == |structure| && hi <= |structure|
    ensures hi <= lo ==> r == Some("")
    ensures r.Some? ==> |r.value| % 2 == 0
    ensures r.Some? && lo < hi ==> |r.value| >= 2 && r.value[0] == sequence[lo] && r.value[1] == structure[lo]
    ensures (forall k :: lo <= k < hi - 1 && structure[k] == '(' ==> Bonded(structure, k).Some?) ==> r.Some?
  {
    var v := Visits(structure, lo, hi, Some(-1));
    VisitsDefinedWhenPartnered(structure, lo, hi);
    if v.None? then None
    else
      VisitsStart(structure, lo, hi, Some(-1));
      Some(LoopString(sequence, structure, v.value))
  }

  /** VisitsDefined for a walk from the window start, as an implication. */
  lemma VisitsDefinedWhenPartnered(st: string, lo: nat, hi: int)
    requires hi <= |st|
    ensures (forall k :: lo <= k < hi - 1 && st[k] == '(' ==> Bonded(st, k).Some?) ==> Visits(st, lo, hi, Some(-1)).Some?
  {
    if forall k :: lo <= k < hi - 1 && st[k] == '(' ==> Bonded(st, k).Some? {
      VisitsDefined(st, lo, hi, Some(-1));
    }
  }

  /** `v` followed by the rest of a walk, or None when the rest fails. */
  function Prepend(v: seq<nat>, rest: Option<seq<nat>>): Option<seq<nat>>
  {
    if rest.None? then None else Some(v + rest.value)
  }

  /** The inner `for index in range(...)` loop of the source, with its cursor `next_index`. */
  method WalkLoop(sequence: string, structure: string, lo: nat, hi: int) returns (r: Option<string>)
    requires |sequence| == |structure| && hi <= |structure|
    ensures r == LoopWalk(sequence, structure, lo, hi)
  {
    var inLoop := "";
    var nextIndex: Option<int> := Some(-1);
    ghost var visited: seq<nat> := [];
    var index := lo;
    assert forall w: seq<nat> :: [] + w == w;
    while index < hi
      invariant lo <= index
      invariant forall k :: 0 <= k < |visited| ==> visited[k] < index && visited[k] < |structure|
      invariant inLoop == LoopString(sequence, structure, visited)
      invariant Prepend(visited, Visits(structure, index, hi, nextIndex)) == Visits(structure, lo, hi, Some(-1))
      decreases hi - index
    {
      if nextIndex.None? {
        return None;
      }
      if index >= nextIndex.value {
        ghost var next' := if structure[index] == '(' then Bonded(structure, index) else nextIndex;
        assert Visits(structure, index, hi, nextIndex) == Prepend([index], Visits(structure, index + 1, hi, next'));
        assert forall w :: visited + ([index] + w) == (visited + [index]) + w;
        inLoop := inLoop + [sequence[index], structure[index]];
        visited := visited + [index];
        if structure[index] == '(' {
          nextIndex := GetIndexOfBonded(structure, index);
        }
      }
      index := index + 1;
    }
    assert visited + [] == visited;
    return Some(inLoop);
  }

  // ---------------------------------------------------------------------------
  // Both loops

  /** Loop `i` spans `sequence.find(part i) + len(part i) + m` up to, not including, `sequence.find(part i + 1) - m`. */
  function LoopLo(sequence: string, structure: string, parts: seq<Part>, i: nat, m: int): int
    requires WellPlaced(sequence, structure, parts) && i < 2
  {
    Locate(sequence, parts[i]) + |parts[i].sequence| + m
  }

  function LoopHi(sequence: string, structure: string, parts: seq<Part>, i: nat, m: int): int
    requires WellPlaced(sequence, structure, parts) && i < 2
  {
    Locate(sequence, parts[i + 1]) - m
  }

  /** The window of loop `i` with modification `m` lies inside the structure and is not reversed. */
  predicate InWindow(sequence: string, structure: string, parts: seq<Part>, i: nat, m: int)
    requires WellPlaced(sequence, structure, parts) && i < 2
  {
    0 < LoopLo(sequence, structure, parts, i, m) <= LoopHi(sequence, structure, parts, i, m) <= |structure|
  }

  /** In a measured candidate both loop windows are in range. */
  lemma WindowsInRange(sequence: string, structure: string, parts: seq<Part>, i: nat)
    requires WellPlaced(sequence, structure, parts) && i < 2
    requires Analysis(sequence, structure, parts).Measured?
    ensures InWindow(sequence, structure, parts, i, Analysis(sequence, structure, parts).modifications[i])
  {
    var a := Analysis(sequence, structure, parts);
    assert WithinTolerance(sequence, structure, parts, i, a.stemLengths[i], a.modifications[i]);
    assert a.stemLengths[i] <= |parts[i].structure|;
  }

  /** Loop `i`, read over its window for modification `m`. */
  function WindowWalk(sequence: string, structure: string, parts: seq<Part>, i: nat, m: int): (r: Option<string>)
    requires WellPlaced(sequence, structure, parts) && i < 2 && InWindow(sequence, structure, parts, i, m)
    ensures Balanced(structure) ==> r.Some?
    ensures var lo := LoopLo(sequence, structure, parts, i, m);
      r.Some? && lo < LoopHi(sequence, structure, parts, i, m) ==> |r.value| >= 2 && r.value[0] == sequence[lo] && r.value[1] == structure[lo]
  {
    OpensPartneredIfBalanced(structure);
    LoopWalk(sequence, structure, LoopLo(sequence, structure, parts, i, m), LoopHi(sequence, structure, parts, i, m))
  }

  /** What `get_ribozyme_loops(sequence, structure, ribozyme_parts)` returns. */
  function RibozymeLoops(sequence: string, structure: string, parts: seq<Part>): (r: Extraction)
    requires WellPlaced(sequence, structure, parts)
    ensures r == Extracted(["", ""], [0, 0]) <==> StemTotals(Analysis(sequence, structure, parts)) == [0, 0]
    ensures r.Extracted? ==> r.stemLengths == StemTotals(Analysis(sequence, structure, parts)) && |r.loops| == 2
    ensures r.Extracted? && r.stemLengths != [0, 0] ==>
      var a := Analysis(sequence, structure, parts);
      && a.Measured? && |a.modifications| == 2
      && InWindow(sequence, structure, parts, 0, a.modifications[0])
      && InWindow(sequence, structure, parts, 1, a.modifications[1])
      && WindowLoops(sequence, structure, parts, a.modifications) == Some(r.loops)
  {
    var a := Analysis(sequence, structure, parts);
    var t := StemTotals(a);
    if t == [0, 0] then Extracted(["", ""], [0, 0])
    else
      WindowsInRange(sequence, structure, parts, 0);
      WindowsInRange(sequence, structure, parts, 1);
      var loops := WindowLoops(sequence, structure, parts, a.modifications);
      if loops.None? then Malformed else Extracted(loops.value, t)
  }

  /** The walks over both windows, or None when either of them fails. */
  function WindowLoops(sequence: string, structure: string, parts: seq<Part>, mods: seq<int>): (r: Option<seq<string>>)
    requires WellPlaced(sequence, structure, parts) && |mods| == 2
    requires InWindow(sequence, structure, parts, 0, mods[0]) && InWindow(sequence, structure, parts, 1, mods[1])
    ensures r.Some? ==> |r.value| == 2
    ensures r.Some? ==> forall i :: 0 <= i < 2 ==> Some(r.value[i]) == WindowWalk(sequence, structure, parts, i, mods[i])
  {
    var w0, w1 := WindowWalk(sequence, structure, parts, 0, mods[0]),
                  WindowWalk(sequence, structure, parts, 1, mods[1]);
    if w0.None? || w1.None? then None else Some([w0.value, w1.value])
  }

  /** One pass of the source's loop over the two windows: the window of loop `i` and its walk. */
  method ReadLoop(sequence: string, structure: string, parts: seq<Part>, i: nat, m: int) returns (r: Option<string>)
    requires WellPlaced(sequence, structure, parts) && i < 2 && InWindow(sequence, structure, parts, i, m)
    ensures r == WindowWalk(sequence, structure, parts, i, m)
  {
    var lo := Locate(sequence, parts[i]) + |parts[i].sequence| + m;
    var hi := Locate(sequence, parts[i + 1]) - m;
    r := WalkLoop(sequence, structure, lo, hi);
  }

  /** `get_ribozyme_loops(sequence, structure, ribozyme_parts)` */
  method GetRibozymeLoops(sequence: string, structure: string, parts: seq<Part>) returns (r: Extraction)
    requires WellPlaced(sequence, structure, parts)
    ensures r == RibozymeLoops(sequence, structure, parts)
  {
    var measure := GetRibozymeStemLength(sequence, structure, parts);
    var totals := StemTotals(measure);
    if totals[0] == 0 && totals[1] == 0 {
      return Extracted(["", ""], [0, 0]);
    }
    WindowsInRange(sequence, structure, parts, 0);
    WindowsInRange(sequence, structure, parts, 1);
    var loops := ReadLoops(sequence, structure, parts, measure.modifications);
    if loops.None? {
      return Malformed;
    }
    return Extracted(loops.value, totals);
  }

  /** The source's `for` loop over the two windows, stopping at the first walk that fails. */
  method ReadLoops(sequence: string, structure: string, parts: seq<Part>, mods: seq<int>) returns (r: Option<seq<string>>)
    requires WellPlaced(sequence, structure, parts) && |mods| == 2
    requires InWindow(sequence, structure, parts, 0, mods[0]) && InWindow(sequence, structure, parts, 1, mods[1])
    ensures r == WindowLoops(sequence, structure, parts, mods)
  {
    ghost var walks := [WindowWalk(sequence, structure, parts, 0, mods[0]), WindowWalk(sequence, structure, parts, 1, mods[1])];
    var outLoops: seq<string> := [];
    for i := 0 to 2
      invariant |outLoops| == i
      invariant forall k :: 0 <= k < i ==> Some(outLoops[k]) == walks[k]
    {
      var inLoop := ReadLoop(sequence, structure, parts, i, mods[i]);
      assert inLoop == walks[i];
      if inLoop.None? {
        return None;
      }
      outLoops := outLoops + [inLoop.value];
    }
    assert outLoops == [outLoops[0], outLoops[1]];
    return Some(outLoops);
  }

  // ---------------------------------------------------------------------------
  // Properties of the extraction

  /**
   * `loop` is read along the walk `v` over the window `lo..hi`: it alternates
   * the sequence and structure symbols of the indices of `v`, which start at
   * `lo`, pass from a `(` straight to its partner and otherwise to the next
   * index, and stop where the next step would leave the window.
   */
  ghost predicate WalkShaped(sequence: string, structure: string, lo: nat, hi: int, loop: string, v: seq<nat>)
    requires |sequence| == |structure| && hi <= |structure|
  {
    && |loop| == 2 * |v|
    && (forall k :: 0 <= k < |v| ==> lo <= v[k] < hi && loop[2 * k] == sequence[v[k]] && loop[2 * k + 1] == structure[v[k]])
    && (|v| > 0 <==> lo < hi)
    && (|v| > 0 ==> v[0] == lo)
    && (forall k :: 0 <= k < |v| - 1 ==> Successor(structure, v[k], v[k + 1]))
    && (|v| > 0 ==> Final(structure, v[|v| - 1], hi))
  }

  /** Every loop the walk produces is read along the indices it visits. */
  lemma LoopWalkShaped(sequence: string, structure: string, lo: nat, hi: int)
    requires |sequence| == |structure| && hi <= |structure|
    requires LoopWalk(sequence, structure, lo, hi).Some?
    ensures WalkShaped(sequence, structure, lo, hi, LoopWalk(sequence, structure, lo, hi).value,
                       Visits(structure, lo, hi, Some(-1)).value)
  {
    VisitsStart(structure, lo, hi, Some(-1));
    VisitsSuccessor(structure, lo, hi, Some(-1));
    VisitsFinal(structure, lo, hi, Some(-1));
    assert Max(lo, -1) == lo;
  }

  /** Each extracted loop is read along the walk over its window. */
  lemma LoopsFollowTheWalk(sequence: string, structure: string, parts: seq<Part>, i: nat)
    requires WellPlaced(sequence, structure, parts) && i < 2
    requires RibozymeLoops(sequence, structure, parts).Extracted?
    requires RibozymeLoops(sequence, structure, parts).stemLengths != [0, 0]
    ensures Analysis(sequence, structure, parts).Measured?
    ensures var m := Analysis(sequence, structure, parts).modifications[i];
      InWindow(sequence, structure, parts, i, m) &&
      exists v :: WalkShaped(sequence, structure, LoopLo(sequence, structure, parts, i, m),
                             LoopHi(sequence, structure, parts, i, m), RibozymeLoops(sequence, structure, parts).loops[i], v)
  {
    var m := Analysis(sequence, structure, parts).modifications[i];
    LoopWalkShaped(sequence, structure, LoopLo(sequence, structure, parts, i, m), LoopHi(sequence, structure, parts, i, m));
  }

  /** In a balanced structure every `(` has a partner. */
  lemma OpensPartneredIfBalanced(structure: string)
    ensures Balanced(structure) ==>
      forall k :: 0 <= k < |structure| && structure[k] == '(' ==> Bonded(structure, k).Some?
  {
    if Balanced(structure) {
      forall k | 0 <= k < |structure| && structure[k] == '('
        ensures Bonded(structure, k).Some?
      {
        BalancedHasPartner(structure, k);
      }
    }
  }

  /** On a balanced structure the walk always completes: the TypeError cannot occur. */
  lemma BalancedNeverMalformed(sequence: string, structure: string, parts: seq<Part>)
    requires WellPlaced(sequence, structure, parts) && Balanced(structure)
    ensures RibozymeLoops(sequence, structure, parts).Extracted?
  {
    OpensPartneredIfBalanced(structure);
    var a := Analysis(sequence, structure, parts);
    if StemTotals(a) != [0, 0] {
      WindowsInRange(sequence, structure, parts, 0);
      WindowsInRange(sequence, structure, parts, 1);
      VisitsDefined(structure, LoopLo(sequence, structure, parts, 0, a.modifications[0]),
                    LoopHi(sequence, structure, parts, 0, a.modifications[0]), Some(-1));
      VisitsDefined(structure, LoopLo(sequence, structure, parts, 1, a.modifications[1]),
                    LoopHi(sequence, structure, parts, 1, a.modifications[1]), Some(-1));
    }
  }
}
