/**
 * Stem-length measurement with flank validation (`get_ribozyme_stem_length`).
 *
 * For each of the two stems the reference's own length is read off the
 * parts; the candidate's stem may then be shorter (a `.` where the reference
 * closes the stem) or longer (further pairs grown into the loop). Everything
 * outside those tolerance windows must match the reference parts symbol by
 * symbol, or the candidate is Unformed.
 */
module StemLengthAnalyzer {
  import opened Strings
  import opened BracketMatcher
  import opened Scaffold

  /** The source's `[[0, 0], [0, 0]]` is Unformed; otherwise `[stem_lengths, modifications]`. */
  datatype StemMeasure = Unformed | Measured(stemLengths: seq<nat>, modifications: seq<int>)

  // ---------------------------------------------------------------------------
  // Base stem lengths

  /** Position `k` from the loop: `five` read backwards holds `(`, `three` read forwards holds `)`. */
  predicate Stacked(five: string, three: string, k: nat)
    requires k < |five| && k < |three|
  {
    five[|five| - 1 - k] == '(' && three[k] == ')'
  }

  function StackedRun(five: string, three: string, m: nat): (r: nat)
    requires m <= |five| && m <= |three|
    requires forall k :: 0 <= k < m ==> Stacked(five, three, k)
    decreases |three| - m
    ensures m <= r <= |five| && r <= |three|
    ensures forall k :: 0 <= k < r ==> Stacked(five, three, k)
    ensures r < |five| && r < |three| ==> !Stacked(five, three, r)
  {
    if m < |five| && m < |three| && Stacked(five, three, m)
    then StackedRun(five, three, m + 1)
    else m
  }

  /**
   * The base length of the stem between two parts: the number of leading
   * positions where the structure of `five`, reversed, reads `(` and that of
   * `three` reads `)`.
   */
  function BaseStemLength(five: string, three: string): (r: nat)
    ensures r <= |five| && r <= |three|
    ensures forall k :: 0 <= k < r ==> Stacked(five, three, k)
    ensures r < |five| && r < |three| ==> !Stacked(five, three, r)
  {
    StackedRun(five, three, 0)
  }

  /** The counting loop over `zip(reversed(five), three)`. */
  method CountStem(five: string, three: string) returns (n: nat)
    ensures n == BaseStemLength(five, three)
  {
    n := 0;
    while n < |five| && n < |three|
      invariant n <= |five| && n <= |three|
      invariant forall k :: 0 <= k < n ==> Stacked(five, three, k)
      invariant StackedRun(five, three, n) == BaseStemLength(five, three)
    {
      if five[|five| - 1 - n] != '(' || three[n] != ')' {
        break;
      }
      n := n + 1;
    }
  }

  /** Both stem lengths of the reference; they depend on the parts alone. */
  function BaseStems(parts: seq<Part>): (r: seq<nat>)
    requires |parts| == 3
    ensures |r| == 2
    ensures forall i :: 0 <= i < 2 ==>
      r[i] <= |parts[i].structure| && r[i] <= |parts[i + 1].structure|
  {
    [BaseStemLength(parts[0].structure, parts[1].structure),
     BaseStemLength(parts[1].structure, parts[2].structure)]
  }

  // ---------------------------------------------------------------------------
  // Reduced stems: the candidate has a `.` where the reference closes the stem

  /** Step `j` of the inward walk finds both sides unpaired. */
  predicate Unpaired(st: string, ls: nat, le: nat, j: nat)
    requires j <= ls < |st| && le + j < |st|
  {
    st[ls - j] == '.' && st[le + j] == '.'
  }

  /** Step `j` of the inward walk finds the stem again: `(` and `)` that bond to each other. */
  predicate Rejoins(st: string, ls: nat, le: nat, j: nat)
    requires j <= ls < |st| && le + j < |st|
  {
    st[ls - j] == '(' && st[le + j] == ')' && Bonded(st, ls - j) == Some(le + j)
  }

  /** The positions the reduced walk may read, for a stem of length `len`. */
  predicate ReducedInRange(st: string, ls: nat, le: nat, len: nat)
  {
    ls < |st| && le < |st| && (len <= 1 || (len - 1 <= ls && le + len - 1 < |st|))
  }

  /**
   * The walk of the source from step `j`: stops at the first step that is not
   * unpaired on both sides, with `Some(-k)` when step `k` rejoins the stem and
   * None (Unformed) otherwise; `Some(0)` when every step below `len` is unpaired.
   */
  function ReducedWalk(st: string, ls: nat, le: nat, len: nat, j: nat): (r: Option<int>)
    requires 1 <= j && ReducedInRange(st, ls, le, len)
    decreases len - j
    ensures r.Some? ==> r.value <= 0 && (r.value < 0 ==> j <= -r.value < len)
  {
    if j >= len then Some(0)
    else if st[ls - j] == '(' && st[le + j] == ')' then
      if Bonded(st, ls - j) == Some(le + j) then Some(-(j as int)) else None
    else if st[ls - j] == '.' && st[le + j] == '.' then ReducedWalk(st, ls, le, len, j + 1)
    else None
  }

  /** Every step from `lo` up to, not including, `hi` is unpaired on both sides. */
  ghost predicate UnpairedSteps(st: string, ls: nat, le: nat, lo: nat, hi: nat)
  {
    forall m :: lo <= m < hi ==> m <= ls < |st| && le + m < |st| && Unpaired(st, ls, le, m)
  }

  /**
   * The walk finds the first step `k` that is not unpaired: it reports `-k`
   * exactly when that step rejoins the stem, and 0 exactly when there is no
   * such step.
   */
  lemma {:induction false} ReducedWalkCharacterized(st: string, ls: nat, le: nat, len: nat, j: nat)
    requires 1 <= j && ReducedInRange(st, ls, le, len)
    decreases len - j
    ensures ReducedWalk(st, ls, le, len, j) == Some(0) <==> UnpairedSteps(st, ls, le, j, len)
    ensures forall k :: j <= k < len ==>
      (ReducedWalk(st, ls, le, len, j) == Some(-k) <==>
        UnpairedSteps(st, ls, le, j, k) && Rejoins(st, ls, le, k))
  {
    if j < len {
      if st[ls - j] == '.' && st[le + j] == '.' {
        ReducedWalkCharacterized(st, ls, le, len, j + 1);
        assert Unpaired(st, ls, le, j) && !Rejoins(st, ls, le, j);
        forall k | j < k <= len
          ensures UnpairedSteps(st, ls, le, j, k) == UnpairedSteps(st, ls, le, j + 1, k)
        {
        }
      } else {
        assert !Unpaired(st, ls, le, j);
      }
    }
  }

  /** The `for j in range(1, stem_lengths[i])` loop of the source. */
  method ReducedModification(st: string, ls: nat, le: nat, len: nat) returns (r: Option<int>)
    requires ReducedInRange(st, ls, le, len)
    ensures r == ReducedWalk(st, ls, le, len, 1)
  {
    var j := 1;
    while j < len
      invariant 1 <= j
      invariant ReducedWalk(st, ls, le, len, j) == ReducedWalk(st, ls, le, len, 1)
    {
      if st[ls - j] == '(' && st[le + j] == ')' {
        var partner := GetIndexOfBonded(st, ls - j);
        if partner == Some(le + j) {
          return Some(-j);
        } else {
          return None;
        }
      } else if !(st[ls - j] == '.' && st[le + j] == '.') {
        return None;
      }
      j := j + 1;
    }
    return Some(0);
  }

  // ---------------------------------------------------------------------------
  // Extended stems: further pairs grown into the loop

  /**
   * Step `a` of the outward walk continues: the next pair of positions into
   * the loop holds `(` and `)`, and position `ls + a` bonds to `le - a`.
   */
  predicate Grows(st: string, ls: nat, le: nat, a: nat)
    requires ls + a < le - a < |st|
  {
    st[ls + a + 1] == '(' && st[le - a - 1] == ')' && Bonded(st, ls + a) == Some(le - a)
  }

  /** The `while True` walk of the source from step `a`: the first step that does not grow. */
  function ExtendedWalk(st: string, ls: nat, le: nat, a: nat): (r: nat)
    requires ls + a < le - a < |st|
    decreases le - ls - 2 * a
    ensures a <= r && ls + r < le - r
    ensures forall b :: a <= b < r ==> Grows(st, ls, le, b)
    ensures !Grows(st, ls, le, r)
  {
    if Grows(st, ls, le, a) then ExtendedWalk(st, ls, le, a + 1) else a
  }

  method ExtendedModification(st: string, ls: nat, le: nat) returns (r: nat)
    requires ls < le < |st|
    ensures r == ExtendedWalk(st, ls, le, 0)
  {
    var added: nat := 0;
    while true
      invariant ls + added < le - added
      invariant ExtendedWalk(st, ls, le, added) == ExtendedWalk(st, ls, le, 0)
      decreases le - ls - 2 * added
    {
      if st[ls + added + 1] == '(' && st[le - added - 1] == ')' {
        var partner := GetIndexOfBonded(st, ls + added);
        if partner == Some(le - added) {
          added := added + 1;
        } else {
          return added;
        }
      } else {
        return added;
      }
    }
  }

  // ---------------------------------------------------------------------------
  // One stem, and the flanks

  /** The modification of stem `i`, or None when the candidate is Unformed there. */
  function Modification(sequence: string, structure: string, parts: seq<Part>, i: nat): (r: Option<int>)
    requires WellPlaced(sequence, structure, parts) && i < 2
    ensures r.Some? && r.value < 0 ==> -r.value < BaseStems(parts)[i]
    ensures structure[LoopStart(sequence, structure, parts, i)] == '.' ==> r.None? || r.value <= 0
    ensures structure[LoopStart(sequence, structure, parts, i)] != '.' ==> r.Some? && r.value >= 0
  {
    var ls, le := LoopStart(sequence, structure, parts, i), LoopEnd(sequence, structure, parts, i);
    var len := BaseStems(parts)[i];
    if structure[ls] == '.' then ReducedWalk(structure, ls, le, len, 1)
    else Some(ExtendedWalk(structure, ls, le, 0))
  }

  /** One pass of the source's `for i in range(2)` loop: the walk chosen by the symbol at the loop start. */
  method MeasureStem(sequence: string, structure: string, parts: seq<Part>, i: nat, len: nat) returns (m: Option<int>)
    requires WellPlaced(sequence, structure, parts) && i < 2 && len == BaseStems(parts)[i]
    ensures m == Modification(sequence, structure, parts, i)
  {
    var loopStart := Locate(sequence, parts[i]) + |parts[i].sequence| - 1;
    var loopEnd := Locate(sequence, parts[i + 1]);
    assert loopStart == LoopStart(sequence, structure, parts, i);
    if structure[loopStart] == '.' {
      m := ReducedModification(structure, loopStart, loopEnd, len);
    } else {
      var added := ExtendedModification(structure, loopStart, loopEnd);
      m := Some(added);
    }
  }

  /**
   * What stem `i` may look like in a measured candidate. Reduced by `-m`:
   * the steps `1..-m-1` inward from the loop are unpaired on both sides and
   * step `-m` is a pair that bonds across the loop (with `m == 0`, every step
   * below the base length is unpaired). Extended by `m`: `m` further pairs
   * grow into the loop, and the next does not.
   */
  ghost predicate WithinTolerance(sequence: string, structure: string, parts: seq<Part>, i: nat, stem: nat, m: int)
    requires WellPlaced(sequence, structure, parts) && i < 2
  {
    var ls, le := LoopStart(sequence, structure, parts, i), LoopEnd(sequence, structure, parts, i);
    if structure[ls] == '.' then
      && m <= 0
      && (m < 0 ==> -m < stem && -m <= ls && le - m < |structure| && Rejoins(structure, ls, le, -m))
      && UnpairedSteps(structure, ls, le, 1, if m < 0 then -m else stem)
    else
      && 0 <= m && ls + m < le - m
      && (forall b :: 0 <= b < m ==> Grows(structure, ls, le, b))
      && !Grows(structure, ls, le, m)
  }

  /** Whatever modification a stem walk returns lies within the tolerance. */
  lemma ModificationWithinTolerance(sequence: string, structure: string, parts: seq<Part>, i: nat)
    requires WellPlaced(sequence, structure, parts) && i < 2
    ensures var m := Modification(sequence, structure, parts, i);
      m.Some? ==> WithinTolerance(sequence, structure, parts, i, BaseStems(parts)[i], m.value)
  {
    var ls, le := LoopStart(sequence, structure, parts, i), LoopEnd(sequence, structure, parts, i);
    var len := BaseStems(parts)[i];
    if structure[ls] == '.' {
      var r := ReducedWalk(structure, ls, le, len, 1);
      ReducedWalkCharacterized(structure, ls, le, len, 1);
      if r.Some? && r.value < 0 {
        var k := -r.value;
        assert r == Some(-k);
        assert Rejoins(structure, ls, le, k);
      }
    }
  }

  /**
   * Positions `lo..hi` (both included) that lie inside the part located at
   * `loc` hold the part's structure symbol at the same offset.
   */
  predicate WindowMatches(st: string, p: string, loc: nat, lo: int, hi: int)
  {
    forall i :: lo <= i <= hi && loc <= i < loc + |p| && i < |st| ==> st[i] == p[i - loc]
  }

  /**
   * The three flank checks of the source. Part 0 is compared from its start
   * up to the stem-1 window; part 1 between the two stem windows; part 2 from
   * the stem-2 window to its end. The first symbol of parts 1 and 2 is never
   * compared.
   */
  predicate FlanksMatch(sequence: string, structure: string, parts: seq<Part>, m0: int, m1: int)
    requires WellPlaced(sequence, structure, parts)
  {
    FlanksMatchAt(structure, parts, Locate(sequence, parts[0]), Locate(sequence, parts[1]), Locate(sequence, parts[2]), m0, m1)
  }

  /** The flank checks for parts located at `loc0`, `loc1` and `loc2`. */
  predicate FlanksMatchAt(structure: string, parts: seq<Part>, loc0: nat, loc1: nat, loc2: nat, m0: int, m1: int)
    requires |parts| == 3
  {
    var end0, end1, end2 := loc0 + |parts[0].sequence| - 1, loc1 + |parts[1].sequence| - 1, loc2 + |parts[2].sequence| - 1;
    && WindowMatches(structure, parts[0].structure, loc0, loc0, end0 + m0)
    && WindowMatches(structure, parts[1].structure, loc1, Max(loc1 + 1, loc1 - m0), end1 + m1)
    && WindowMatches(structure, parts[2].structure, loc2, Max(loc2 + 1, loc2 - m1), end2)
  }

  function Max(a: int, b: int): int { if a < b then b else a }

  /**
   * One flank loop of the source: `for i in range(top, stop, -1)`, comparing
   * positions no later than the end of the part (and, when `guardFirst`,
   * after its first symbol) against the part's structure.
   */
  method CheckFlank(st: string, p: string, loc: nat, top: int, stop: int, guardFirst: bool) returns (ok: bool)
    requires 0 < |p| && loc + |p| <= |st|
    requires guardFirst || stop >= loc - 1
    ensures ok <==> WindowMatches(st, p, loc, Max(stop + 1, if guardFirst then loc + 1 else loc), top)
  {
    var end := loc + |p| - 1;
    var first := if guardFirst then loc + 1 else loc;
    var i := top;
    while i > stop
      invariant i <= Max(top, stop)
      invariant WindowMatches(st, p, loc, Max(i + 1, first), top)
    {
      if i <= end && (!guardFirst || end - i + 1 < |p|) {
        if st[i] != p[|p| - (end - i + 1)] {
          return false;
        }
      }
      i := i - 1;
    }
    return true;
  }

  /** The three flank loops of the source, in order. */
  method CheckFlanks(sequence: string, structure: string, parts: seq<Part>, m0: int, m1: int) returns (ok: bool)
    requires WellPlaced(sequence, structure, parts)
    ensures ok == FlanksMatch(sequence, structure, parts, m0, m1)
  {
    var loc0 := Locate(sequence, parts[0]);
    var end0 := loc0 + |parts[0].sequence| - 1;
    ok := CheckFlank(structure, parts[0].structure, loc0, end0 + m0, loc0 - 1, false);
    if !ok {
      return;
    }
    var loc1 := Locate(sequence, parts[1]);
    var end1 := loc1 + |parts[1].sequence| - 1;
    ok := CheckFlank(structure, parts[1].structure, loc1, end1 + m1, loc1 - 1 - m0, true);
    if !ok {
      return;
    }
    var loc2 := Locate(sequence, parts[2]);
    var end2 := loc2 + |parts[2].sequence| - 1;
    ok := CheckFlank(structure, parts[2].structure, loc2, end2, loc2 - 1 - m1, true);
  }

  // ---------------------------------------------------------------------------
  // The whole measurement

  /** What `get_ribozyme_stem_length(sequence, structure, parts)` returns. */
  function Analysis(sequence: string, structure: string, parts: seq<Part>): (r: StemMeasure)
    requires WellPlaced(sequence, structure, parts)
    ensures r.Measured? ==> r.stemLengths == BaseStems(parts) && |r.modifications| == 2
    ensures r.Measured? ==>
      WithinTolerance(sequence, structure, parts, 0, r.stemLengths[0], r.modifications[0]) &&
      WithinTolerance(sequence, structure, parts, 1, r.stemLengths[1], r.modifications[1])
    ensures r.Measured? <==>
      Modification(sequence, structure, parts, 0).Some? && Modification(sequence, structure, parts, 1).Some? &&
      FlanksMatch(sequence, structure, parts,
                  Modification(sequence, structure, parts, 0).value, Modification(sequence, structure, parts, 1).value)
  {
    ModificationWithinTolerance(sequence, structure, parts, 0);
    ModificationWithinTolerance(sequence, structure, parts, 1);
    var m0, m1 := Modification(sequence, structure, parts, 0), Modification(sequence, structure, parts, 1);
    if m0.None? || m1.None? then Unformed
    else if !FlanksMatch(sequence, structure, parts, m0.value, m1.value) then Unformed
    else Measured(BaseStems(parts), [m0.value, m1.value])
  }

  /** `get_ribozyme_stem_length(sequence, structure, ribozyme_parts)` */
  method GetRibozymeStemLength(sequence: string, structure: string, parts: seq<Part>) returns (r: StemMeasure)
    requires WellPlaced(sequence, structure, parts)
    ensures r == Analysis(sequence, structure, parts)
  {
    var stem1 := CountStem(parts[0].structure, parts[1].structure);
    var stem2 := CountStem(parts[1].structure, parts[2].structure);
    var stemLengths := [stem1, stem2];
    assert stemLengths == BaseStems(parts);
    var modifications: seq<int> := [];

    for i := 0 to 2
      invariant |modifications| == i
      invariant forall k :: 0 <= k < i ==> Modification(sequence, structure, parts, k) == Some(modifications[k])
    {
      var modification := MeasureStem(sequence, structure, parts, i, stemLengths[i]);
      if modification.None? {
        return Unformed;
      }
      modifications := modifications + [modification.value];
    }

    var ok := CheckFlanks(sequence, structure, parts, modifications[0], modifications[1]);
    if !ok {
      return Unformed;
    }
    return Measured(stemLengths, modifications);
  }

  /** A change of the structure at `k` is invisible to a window that does not cover `k`. */
  lemma WindowIgnores(st: string, p: string, loc: nat, lo: int, hi: int, k: nat, c: char)
    requires k < |st|
    requires k < lo || k < loc || loc + |p| <= k || hi < k
    ensures WindowMatches(st, p, loc, lo, hi) == WindowMatches(st[k := c], p, loc, lo, hi)
  {
    var st' := st[k := c];
    forall i | lo <= i <= hi && loc <= i < loc + |p| && i < |st|
      ensures st'[i] == st[i]
    {
    }
  }

  /** FirstSymbolsNotCompared for given locations of the parts. */
  lemma FlanksIgnore(structure: string, parts: seq<Part>, loc0: nat, loc1: nat, loc2: nat, m0: int, m1: int, k: nat, c: char)
    requires |parts| == 3 && k < |structure|
    requires |parts[0].structure| == |parts[0].sequence| && |parts[1].structure| == |parts[1].sequence|
    requires loc0 + |parts[0].sequence| <= loc1 && loc1 + |parts[1].sequence| <= loc2
    requires k == loc1 || k == loc2
    ensures FlanksMatchAt(structure, parts, loc0, loc1, loc2, m0, m1) == FlanksMatchAt(structure[k := c], parts, loc0, loc1, loc2, m0, m1)
  {
    var end0, end1, end2 := loc0 + |parts[0].sequence| - 1, loc1 + |parts[1].sequence| - 1, loc2 + |parts[2].sequence| - 1;
    WindowIgnores(structure, parts[0].structure, loc0, loc0, end0 + m0, k, c);
    WindowIgnores(structure, parts[1].structure, loc1, Max(loc1 + 1, loc1 - m0), end1 + m1, k, c);
    WindowIgnores(structure, parts[2].structure, loc2, Max(loc2 + 1, loc2 - m1), end2, k, c);
  }

  /**
   * The first symbol of parts 1 and 2 is never compared: changing the
   * candidate's structure there leaves the flank verdict as it is.
   */
  lemma FirstSymbolsNotCompared(sequence: string, structure: string, parts: seq<Part>, m0: int, m1: int, k: nat, c: char)
    requires WellPlaced(sequence, structure, parts)
    requires k == Locate(sequence, parts[1]) || k == Locate(sequence, parts[2])
    ensures WellPlaced(sequence, structure[k := c], parts)
    ensures FlanksMatch(sequence, structure, parts, m0, m1) == FlanksMatch(sequence, structure[k := c], parts, m0, m1)
  {
    FlanksIgnore(structure, parts, Locate(sequence, parts[0]), Locate(sequence, parts[1]), Locate(sequence, parts[2]), m0, m1, k, c);
  }
}
