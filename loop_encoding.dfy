/**
 * The loop encoder of the activity models (`loop_one_hot_encode`, identical in
 * Train_additional_models.py and Predict_activities.py) and the slicing that
 * cuts the two loops out of a folded candidate by its flank markers
 * (`struct_dict_to_array`).
 *
 * The encoding is a 2 x 1 x 15 x 8 grid: column 0 reads the loop from its 5'
 * end, column 1 from its 3' end, one row per position, and the channel says
 * which nucleotide sits there and whether it is paired.
 */
module LoopEncoding {
  import opened Strings
  import opened Scaffold

  // ---------------------------------------------------------------------------
  // Channels

  /** `loop_codes`: each nucleotide twice, unpaired then paired. */
  const LoopCodes: string := "AAUUCCGG"

  /** The nucleotides in channel order. */
  const Nucleotides: string := "AUCG"

  predicate IsBond(b: char)
  {
    b == '(' || b == ')'
  }

  /** `loop_codes.index(x)`, -1 standing for the ValueError. */
  lemma CodeIndex(x: char)
    ensures FindChar(LoopCodes, x, 0) ==
      if x == 'A' then 0 else if x == 'U' then 2 else if x == 'C' then 4 else if x == 'G' then 6 else -1
  {
    var r := FindChar(LoopCodes, x, 0);
    assert LoopCodes[0] == 'A' && LoopCodes[2] == 'U' && LoopCodes[4] == 'C' && LoopCodes[6] == 'G';
    if r != -1 {
      assert LoopCodes[r] == x;
    }
  }

  /** Python's `s[k]` for an index that may count from the end; None for an IndexError. */
  function PyAt(s: string, k: int): (r: Option<char>)
    ensures r.Some? <==> -|s| <= k < |s|
  {
    if 0 <= k < |s| then Some(s[k])
    else if -|s| <= k < 0 then Some(s[|s| + k])
    else None
  }

  /** The index column `c` reads in row `row`: `i` from the 5' end, `-(i + 1)` from the 3' end. */
  function ReadIndex(c: nat, row: nat): int
  {
    if c == 0 then row else -(row + 1)
  }

  /**
   * The channel set in row `row` of column `c`: twice the nucleotide's place
   * in `loop_codes`, plus one when its structure symbol is a bracket. None
   * when the source raises: a nucleotide outside A, C, G, U, or an index past
   * either string.
   */
  function Channel(loopSeq: string, loopStruct: string, c: nat, row: nat): (r: Option<nat>)
    ensures r.Some? ==> r.value < 8
  {
    var k := ReadIndex(c, row);
    match PyAt(loopSeq, k)
    case None => None
    case Some(x) =>
      CodeIndex(x);
      var code := FindChar(LoopCodes, x, 0);
      if code < 0 then None
      else match PyAt(loopStruct, k)
        case None => None
        case Some(b) => Some(code + if IsBond(b) then 1 else 0)
  }

  /** A channel names the nucleotide read and whether it is paired; it is missing exactly on an error. */
  lemma ChannelMeaning(loopSeq: string, loopStruct: string, c: nat, row: nat)
    ensures var k := ReadIndex(c, row);
      var ch := Channel(loopSeq, loopStruct, c, row);
      && (ch.None? <==>
            PyAt(loopSeq, k).None? || PyAt(loopSeq, k).value !in Nucleotides || PyAt(loopStruct, k).None?)
      && (ch.Some? ==>
            && Nucleotides[ch.value / 2] == PyAt(loopSeq, k).value
            && (ch.value % 2 == 1 <==> IsBond(PyAt(loopStruct, k).value)))
  {
    var k := ReadIndex(c, row);
    if PyAt(loopSeq, k).Some? {
      CodeIndex(PyAt(loopSeq, k).value);
    }
  }

  // ---------------------------------------------------------------------------
  // The grid

  /** The rows of column `c` that an `n`-long loop fills. */
  predicate Filled(n: nat, c: nat, row: nat)
  {
    if n <= 30 then row < n / 2 || (c == 0 && n % 2 == 1 && row == n / 2)
    else row < 15
  }

  /** The source finishes without raising. */
  predicate Encodable(loopSeq: string, loopStruct: string)
  {
    forall c: nat, row: nat :: c < 2 && row < 15 && Filled(|loopSeq|, c, row) ==>
      Channel(loopSeq, loopStruct, c, row).Some?
  }

  /** The value of one cell of the encoding (the singleton axis left out). */
  function Cell(loopSeq: string, loopStruct: string, c: nat, row: nat, ch: nat): int
  {
    if Filled(|loopSeq|, c, row) && Channel(loopSeq, loopStruct, c, row) == Some(ch) then 1 else 0
  }

  /** The grid has the source's shape. */
  predicate Shaped(grid: array4<int>)
  {
    grid.Length0 == 2 && grid.Length1 == 1 && grid.Length2 == 15 && grid.Length3 == 8
  }

  /**
   * The cells set so far: rows below `upTo` in both columns, and row `upTo`
   * of column 0 too when `apex` holds.
   */
  ghost predicate Marked(grid: array4<int>, loopSeq: string, loopStruct: string, upTo: nat, apex: bool)
    reads grid
  {
    && Shaped(grid)
    && forall c: nat, row: nat, ch: nat :: c < 2 && row < 15 && ch < 8 ==>
         grid[c, 0, row, ch] ==
           if (row < upTo || (apex && c == 0 && row == upTo)) && Channel(loopSeq, loopStruct, c, row) == Some(ch)
           then 1 else 0
  }

  /**
   * One step of the source's loops: marks row `i` of column 0 and then of
   * column 1; `ok` is false where the source would raise.
   */
  method MarkRow(grid: array4<int>, loopSeq: string, loopStruct: string, i: nat) returns (ok: bool)
    requires i < 15 && Marked(grid, loopSeq, loopStruct, i, false)
    modifies grid
    ensures ok <==> Channel(loopSeq, loopStruct, 0, i).Some? && Channel(loopSeq, loopStruct, 1, i).Some?
    ensures ok ==> Marked(grid, loopSeq, loopStruct, i + 1, false)
  {
    var front := Channel(loopSeq, loopStruct, 0, i);
    if front.None? {
      return false;
    }
    grid[0, 0, i, front.value] := 1;
    var back := Channel(loopSeq, loopStruct, 1, i);
    if back.None? {
      return false;
    }
    grid[1, 0, i, back.value] := 1;
    return true;
  }

  /**
   * The source's `for i in range(rows)` loop: marks rows `0..rows-1` of both
   * columns, stopping (`ok` false) at the first row that raises.
   */
  method MarkRows(grid: array4<int>, loopSeq: string, loopStruct: string, rows: nat) returns (ok: bool)
    requires rows <= 15 && Marked(grid, loopSeq, loopStruct, 0, false)
    modifies grid
    ensures ok <==> forall c: nat, row: nat :: c < 2 && row < rows ==> Channel(loopSeq, loopStruct, c, row).Some?
    ensures ok ==> Marked(grid, loopSeq, loopStruct, rows, false)
  {
    for i := 0 to rows
      invariant forall c: nat, row: nat :: c < 2 && row < i ==> Channel(loopSeq, loopStruct, c, row).Some?
      invariant Marked(grid, loopSeq, loopStruct, i, false)
    {
      ok := MarkRow(grid, loopSeq, loopStruct, i);
      if !ok {
        return;
      }
    }
    return true;
  }

  /** Marks the apex of an odd loop, in column 0 only; `ok` is false where the source would raise. */
  method MarkApex(grid: array4<int>, loopSeq: string, loopStruct: string, i: nat) returns (ok: bool)
    requires i < 15 && Marked(grid, loopSeq, loopStruct, i, false)
    modifies grid
    ensures ok <==> Channel(loopSeq, loopStruct, 0, i).Some?
    ensures ok ==> Marked(grid, loopSeq, loopStruct, i, true)
  {
    var apex := Channel(loopSeq, loopStruct, 0, i);
    if apex.None? {
      return false;
    }
    grid[0, 0, i, apex.value] := 1;
    return true;
  }

  /**
   * `loop_one_hot_encode(loop_seq, loop_struct)`: a fresh all-zero grid in
   * which the mirrored rows (or, past 30 symbols, the first and last 15) are
   * marked; None where the source raises.
   */
  method LoopOneHotEncode(loopSeq: string, loopStruct: string) returns (r: Option<array4<int>>)
    ensures r.Some? <==> Encodable(loopSeq, loopStruct)
    ensures r.Some? ==> fresh(r.value) && Shaped(r.value)
    ensures r.Some? ==> forall c: nat, row: nat, ch: nat :: c < 2 && row < 15 && ch < 8 ==>
      r.value[c, 0, row, ch] == Cell(loopSeq, loopStruct, c, row, ch)
  {
    var grid := new int[2, 1, 15, 8]((c, h, row, ch) => 0);
    var n := |loopSeq|;
    if n <= 30 {
      var ok := MarkRows(grid, loopSeq, loopStruct, n / 2);
      if !ok {
        return None;
      }
      if n % 2 == 1 {
        ok := MarkApex(grid, loopSeq, loopStruct, n / 2);
        if !ok {
          assert Filled(n, 0, n / 2);
          return None;
        }
      }
    } else {
      var ok := MarkRows(grid, loopSeq, loopStruct, 15);
      if !ok {
        return None;
      }
    }
    return Some(grid);
  }

  // ---------------------------------------------------------------------------
  // Properties of the encoding

  /** Each row holds at most one mark, and rows the loop does not reach hold none. */
  lemma RowsHoldOneMark(loopSeq: string, loopStruct: string, c: nat, row: nat, ch1: nat, ch2: nat)
    ensures Cell(loopSeq, loopStruct, c, row, ch1) == 1 && Cell(loopSeq, loopStruct, c, row, ch2) == 1 ==> ch1 == ch2
    ensures !Filled(|loopSeq|, c, row) ==> Cell(loopSeq, loopStruct, c, row, ch1) == 0
    ensures Encodable(loopSeq, loopStruct) && c < 2 && row < 15 && Filled(|loopSeq|, c, row) ==>
      exists ch: nat :: ch < 8 && Cell(loopSeq, loopStruct, c, row, ch) == 1
  {
    if Encodable(loopSeq, loopStruct) && c < 2 && row < 15 && Filled(|loopSeq|, c, row) {
      var ch := Channel(loopSeq, loopStruct, c, row).value;
      assert Cell(loopSeq, loopStruct, c, row, ch) == 1;
    }
  }

  /** Where position `k` of an `n`-long loop (n <= 30) is encoded: the front half in column 0, the back half mirrored in column 1. */
  function Position(n: nat, k: nat): (p: (nat, nat))
    requires k < n <= 30
    ensures p.0 < 2 && p.1 < 15 && Filled(n, p.0, p.1)
    ensures ReadIndex(p.0, p.1) == k || ReadIndex(p.0, p.1) == k - n
  {
    if k < (n + 1) / 2 then (0, k) else (1, n - 1 - k)
  }

  /**
   * A loop of at most 30 symbols, with a structure of the same length, is
   * encoded symbol by symbol: position `k` sets exactly the channel of its
   * nucleotide and pairing in the cell `Position(n, k)`.
   */
  lemma ShortLoopMarksEverySymbol(loopSeq: string, loopStruct: string, k: nat)
    requires |loopStruct| == |loopSeq| <= 30 && k < |loopSeq|
    requires loopSeq[k] in Nucleotides
    ensures var p := Position(|loopSeq|, k);
      var ch := Channel(loopSeq, loopStruct, p.0, p.1);
      && ch.Some?
      && Nucleotides[ch.value / 2] == loopSeq[k]
      && (ch.value % 2 == 1 <==> IsBond(loopStruct[k]))
      && Cell(loopSeq, loopStruct, p.0, p.1, ch.value) == 1
  {
    var p := Position(|loopSeq|, k);
    ChannelMeaning(loopSeq, loopStruct, p.0, p.1);
  }

  /** An encodable short loop has only nucleotides. */
  lemma EncodableShortLoop(loopSeq: string, loopStruct: string, k: nat)
    requires |loopStruct| == |loopSeq| <= 30 && k < |loopSeq|
    requires Encodable(loopSeq, loopStruct)
    ensures loopSeq[k] in Nucleotides
  {
    var p := Position(|loopSeq|, k);
    assert Channel(loopSeq, loopStruct, p.0, p.1).Some?;
    ChannelMeaning(loopSeq, loopStruct, p.0, p.1);
  }

  /**
   * The encoding of a loop of at most 30 symbols can be read back: two such
   * loops with the same grid have the same sequence and the same paired
   * positions.
   */
  lemma ShortLoopDecodes(s1: string, t1: string, s2: string, t2: string)
    requires |t1| == |s1| <= 30 && |t2| == |s2| <= 30
    requires Encodable(s1, t1) && Encodable(s2, t2)
    requires forall c: nat, row: nat, ch: nat :: c < 2 && row < 15 && ch < 8 ==> Cell(s1, t1, c, row, ch) == Cell(s2, t2, c, row, ch)
    ensures s1 == s2
    ensures forall k :: 0 <= k < |s1| ==> (IsBond(t1[k]) <==> IsBond(t2[k]))
  {
    SameLength(s1, t1, s2, t2);
    forall k | 0 <= k < |s1|
      ensures s1[k] == s2[k] && (IsBond(t1[k]) <==> IsBond(t2[k]))
    {
      var p := Position(|s1|, k);
      EncodableShortLoop(s1, t1, k);
      ShortLoopMarksEverySymbol(s1, t1, k);
      var ch := Channel(s1, t1, p.0, p.1).value;
      assert Cell(s2, t2, p.0, p.1, ch) == 1;
      ChannelMeaning(s2, t2, p.0, p.1);
    }
  }

  /** Two encodable short loops with the same grid have the same length. */
  lemma SameLength(s1: string, t1: string, s2: string, t2: string)
    requires |t1| == |s1| <= 30 && |t2| == |s2| <= 30
    requires Encodable(s1, t1) && Encodable(s2, t2)
    requires forall c: nat, row: nat, ch: nat :: c < 2 && row < 15 && ch < 8 ==> Cell(s1, t1, c, row, ch) == Cell(s2, t2, c, row, ch)
    ensures |s1| == |s2|
  {
    if |s1| < |s2| {
      UnfilledCell(s1, t1, s2, t2);
    } else if |s2| < |s1| {
      UnfilledCell(s2, t2, s1, t1);
    }
  }

  /** A longer short loop fills a cell the shorter one leaves empty. */
  lemma UnfilledCell(s1: string, t1: string, s2: string, t2: string)
    requires |s1| < |s2| <= 30 && Encodable(s2, t2)
    ensures exists c: nat, row: nat, ch: nat :: c < 2 && row < 15 && ch < 8 && Cell(s1, t1, c, row, ch) != Cell(s2, t2, c, row, ch)
  {
    var n1, n2 := |s1|, |s2|;
    var c: nat, row: nat := if (n1 + 1) / 2 < (n2 + 1) / 2 then 0 else 1, if (n1 + 1) / 2 < (n2 + 1) / 2 then (n1 + 1) / 2 else n1 / 2;
    assert Filled(n2, c, row) && !Filled(n1, c, row);
    var ch := Channel(s2, t2, c, row).value;
    assert Cell(s1, t1, c, row, ch) != Cell(s2, t2, c, row, ch);
  }

  /** The first 15 and the last 15 symbols of a long loop. */
  function Ends(s: string): (r: string)
    requires |s| > 30
    ensures |r| == 30
  {
    s[..15] + s[|s| - 15..]
  }

  /**
   * A loop longer than 30 symbols is encoded as the 30-symbol loop made of
   * its first 15 and last 15 symbols: the middle plays no part.
   */
  lemma LongLoopKeepsEnds(loopSeq: string, loopStruct: string)
    requires |loopSeq| > 30 && |loopStruct| == |loopSeq|
    ensures Encodable(loopSeq, loopStruct) <==> Encodable(Ends(loopSeq), Ends(loopStruct))
    ensures forall c: nat, row: nat, ch: nat :: c < 2 && row < 15 ==>
      Cell(loopSeq, loopStruct, c, row, ch) == Cell(Ends(loopSeq), Ends(loopStruct), c, row, ch)
  {
    forall c: nat, row: nat | c < 2 && row < 15
      ensures Channel(loopSeq, loopStruct, c, row) == Channel(Ends(loopSeq), Ends(loopStruct), c, row)
      ensures Filled(|loopSeq|, c, row) == Filled(30, c, row)
    {
      var k := ReadIndex(c, row);
      assert PyAt(loopSeq, k) == PyAt(Ends(loopSeq), k);
      assert PyAt(loopStruct, k) == PyAt(Ends(loopStruct), k);
    }
  }

  // ---------------------------------------------------------------------------
  // Cutting the loops out of a candidate

  /** The marker ending the 5' stem of loop 1, the one between the loops, and the one starting the 3' stem of loop 2. */
  const FirstMarker: string := "GCUGUC"
  const MidMarker: string := "CUGAUGA"
  const LastMarker: string := "GAAACAGC"

  /**
   * `seq[seq.find(open) + len(open):seq.find(close)]` together with the
   * structure sliced at the same indices (Python's slice semantics, so an
   * absent marker's -1 counts from the end).
   */
  function LoopBetween(testSeq: string, testStruct: string, open: string, close: string): (r: Part)
    ensures |r.sequence| <= |testSeq|
    ensures |testSeq| == |testStruct| ==> |r.sequence| == |r.structure|
  {
    var a, b := FindSub(testSeq, open) + |open|, FindSub(testSeq, close);
    Part(Slice(testSeq, a, b), Slice(testStruct, a, b))
  }

  /** The two loops of a folded candidate, each with its structure. */
  function LoopSlices(testSeq: string, testStruct: string): (r: (Part, Part))
    ensures |testSeq| == |testStruct| ==>
      |r.0.sequence| == |r.0.structure| && |r.1.sequence| == |r.1.structure|
  {
    (LoopBetween(testSeq, testStruct, FirstMarker, MidMarker),
     LoopBetween(testSeq, testStruct, MidMarker, LastMarker))
  }

  /**
   * When `open` occurs, and `close` first occurs after the end of its first
   * occurrence, the loop is the stretch strictly between the two markers:
   * `open` ends right before it, `close` starts right after it, neither
   * occurs earlier, and the structure slice is aligned with the sequence.
   */
  lemma LoopBetweenMarkers(testSeq: string, testStruct: string, open: string, close: string)
    requires |testStruct| == |testSeq|
    requires 0 <= FindSub(testSeq, open) && FindSub(testSeq, open) + |open| <= FindSub(testSeq, close)
    ensures var r := LoopBetween(testSeq, testStruct, open, close);
      var a := FindSub(testSeq, open) + |open|;
      && |r.sequence| == |r.structure|
      && testSeq[a - |open|..a] == open
      && testSeq[a + |r.sequence|..a + |r.sequence| + |close|] == close
      && (forall k :: 0 <= k < a - |open| ==> !OccursAt(testSeq, open, k))
      && (forall k :: 0 <= k < a + |r.sequence| ==> !OccursAt(testSeq, close, k))
      && forall k :: 0 <= k < |r.sequence| ==>
           r.sequence[k] == testSeq[a + k] && r.structure[k] == testStruct[a + k]
  {
  }

  /**
   * When a marker is missing, `find` gives -1 and the slice bound counts from
   * the end: with `close` absent the loop runs up to, but not including, the
   * last symbol.
   */
  lemma MissingCloseMarker(testSeq: string, testStruct: string, open: string, close: string)
    requires |testStruct| == |testSeq|
    requires 0 <= FindSub(testSeq, open) && FindSub(testSeq, close) == -1
    requires FindSub(testSeq, open) + |open| < |testSeq|
    ensures LoopBetween(testSeq, testStruct, open, close).sequence ==
      testSeq[FindSub(testSeq, open) + |open|..|testSeq| - 1]
  {
  }
}
