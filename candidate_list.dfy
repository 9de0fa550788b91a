/**
 * Candidate-sequence enumeration (Generate_candidate_list.py). Every number
 * below `5^high_N` is written in base 5 and its digits are read as
 * nucleotides (0 = S, a placeholder that rules the loop out; 1..4 = A, U, C,
 * G); the loops that survive are placed, together with the aptamer, into
 * either loop of the hammerhead ribozyme between fixed insulators.
 */
module CandidateList {

  // ---------------------------------------------------------------------------
  // Base 5

  predicate IsDigit(c: char)
  {
    '0' <= c <= '4'
  }

  predicate AllDigits(s: string)
  {
    forall k :: 0 <= k < |s| ==> IsDigit(s[k])
  }

  function DigitChar(d: nat): (c: char)
    requires d < 5
    ensures IsDigit(c) && DigitValue(c) == d
  {
    ('0' as int + d) as char
  }

  function DigitValue(c: char): (d: nat)
    requires IsDigit(c)
    ensures d < 5
  {
    c as int - '0' as int
  }

  function Pow5(k: nat): nat
  {
    if k == 0 then 1 else 5 * Pow5(k - 1)
  }

  /** The digits `to_base_5(n)` produces: most significant first, none at all for 0. */
  function Base5(n: nat): (r: string)
    ensures AllDigits(r)
  {
    if n == 0 then "" else Base5(n / 5) + [DigitChar(n % 5)]
  }

  /** The number a string of base-5 digits denotes. */
  function FromBase5(s: string): nat
    requires AllDigits(s)
  {
    if s == [] then 0 else 5 * FromBase5(s[..|s| - 1]) + DigitValue(s[|s| - 1])
  }

  /** `s[::-1]` */
  function Reversed(s: string): (r: string)
    ensures |r| == |s|
    ensures forall i :: 0 <= i < |s| ==> r[i] == s[|s| - 1 - i]
  {
    if s == [] then [] else [s[|s| - 1]] + Reversed(s[..|s| - 1])
  }

  /** `to_base_5(n)`: collects the digits least significant first, then reverses them. */
  method ToBase5(n: nat) returns (r: string)
    ensures r == Base5(n)
  {
    var s: string := [];
    var m := n;
    while m != 0
      invariant Base5(n) == Base5(m) + Reversed(s)
    {
      assert Reversed(s + [DigitChar(m % 5)]) == [DigitChar(m % 5)] + Reversed(s) by {
        assert (s + [DigitChar(m % 5)])[..|s|] == s;
      }
      s := s + [DigitChar(m % 5)];
      m := m / 5;
    }
    r := Reversed(s);
  }

  /** Reading the digits back gives the number. */
  lemma {:induction false} Base5RoundTrip(n: nat)
    ensures FromBase5(Base5(n)) == n
  {
    if n > 0 {
      Base5RoundTrip(n / 5);
      var s := Base5(n);
      assert s[..|s| - 1] == Base5(n / 5);
    }
  }

  /** The digits have no leading zero; 0 has no digits at all. */
  lemma {:induction false} Base5Canonical(n: nat)
    ensures n == 0 <==> Base5(n) == ""
    ensures n > 0 ==> Base5(n)[0] != '0'
  {
    if n > 0 && n / 5 > 0 {
      Base5Canonical(n / 5);
    }
  }

  /** A digit string without leading zero is the digits of the number it denotes. */
  lemma {:induction false} FromBase5RoundTrip(s: string)
    requires AllDigits(s) && (s == [] || s[0] != '0')
    ensures Base5(FromBase5(s)) == s
    decreases |s|
  {
    if s != [] {
      var init := s[..|s| - 1];
      var n := FromBase5(s);
      assert n / 5 == FromBase5(init) && n % 5 == DigitValue(s[|s| - 1]);
      if init != [] {
        FromBase5RoundTrip(init);
        FromBase5Positive(init);
      }
      assert DigitChar(n % 5) == s[|s| - 1];
      assert s == init + [s[|s| - 1]];
    }
  }

  /** A digit string that starts with a non-zero digit denotes a positive number. */
  lemma {:induction false} FromBase5Positive(s: string)
    requires AllDigits(s) && s != [] && s[0] != '0'
    ensures FromBase5(s) > 0
    decreases |s|
  {
    if |s| > 1 {
      FromBase5Positive(s[..|s| - 1]);
    }
  }

  /** A number has at most `k` digits exactly when it is below `5^k`. */
  lemma {:induction false} Base5Length(n: nat, k: nat)
    ensures |Base5(n)| <= k <==> n < Pow5(k)
  {
    if k > 0 {
      Base5Length(n / 5, k - 1);
    }
  }

  // ---------------------------------------------------------------------------
  // Digits to nucleotides

  const Bases: string := "SAUCG"

  /** The nucleotide a digit stands for. */
  function Nucleotide(c: char): char
    requires IsDigit(c)
  {
    Bases[DigitValue(c)]
  }

  /** `new_N.replace(str(num), base)` for single characters. */
  function ReplaceChar(s: string, from: char, to: char): (r: string)
    ensures |r| == |s|
    ensures forall k :: 0 <= k < |s| ==> r[k] == if s[k] == from then to else s[k]
  {
    if s == [] then [] else ReplaceChar(s[..|s| - 1], from, to) + [if s[|s| - 1] == from then to else s[|s| - 1]]
  }

  /** The loop the digits of `i` stand for. */
  function LoopOf(i: nat): (r: string)
    ensures |r| == |Base5(i)|
    ensures forall k :: 0 <= k < |r| ==> r[k] == Nucleotide(Base5(i)[k])
  {
    var d := Base5(i);
    seq(|d|, k requires 0 <= k < |d| => Nucleotide(d[k]))
  }

  /** `N_replace(num_N, iteration)`: five replacements in turn; `num_N` plays no part. */
  method NReplace(numN: int, iteration: nat) returns (r: string)
    ensures r == LoopOf(iteration)
  {
    var d := ToBase5(iteration);
    var newN := d;
    for num := 0 to 5
      invariant |newN| == |d|
      invariant forall k :: 0 <= k < |d| ==>
        newN[k] == if DigitValue(d[k]) < num then Nucleotide(d[k]) else d[k]
    {
      newN := ReplaceChar(newN, DigitChar(num), Bases[num]);
    }
    r := newN;
  }

  /** Distinct numbers stand for distinct loops. */
  lemma LoopOfInjective(i: nat, j: nat)
    requires LoopOf(i) == LoopOf(j)
    ensures i == j
  {
    var di, dj := Base5(i), Base5(j);
    forall k | 0 <= k < |di|
      ensures di[k] == dj[k]
    {
      assert Nucleotide(di[k]) == Nucleotide(dj[k]);
    }
    assert di == dj;
    Base5RoundTrip(i);
    Base5RoundTrip(j);
  }

  // ---------------------------------------------------------------------------
  // The loop list

  /** A loop of A, U, C and G only. */
  predicate IsNucleotideLoop(w: string)
  {
    forall k :: 0 <= k < |w| ==> w[k] in "AUCG"
  }

  /** The filter of the source: no placeholder `S`, and at least `low_N` long. */
  predicate Kept(loop: string, lowN: int)
  {
    'S' !in loop && |loop| > lowN - 1
  }

  /** `loop_list` after the iterations `0..n-1`. */
  function KeptLoops(lowN: int, n: nat): (r: seq<string>)
    ensures |r| <= n
    ensures forall k :: 0 <= k < |r| ==> Kept(r[k], lowN)
  {
    if n == 0 then []
    else KeptLoops(lowN, n - 1) + (if Kept(LoopOf(n - 1), lowN) then [LoopOf(n - 1)] else [])
  }

  /** The loop list of the script for `low_N` and `high_N`. */
  method LoopList(lowN: int, highN: nat) returns (loops: seq<string>)
    ensures loops == KeptLoops(lowN, Pow5(highN))
  {
    loops := [];
    for i := 0 to Pow5(highN)
      invariant loops == KeptLoops(lowN, i)
    {
      var loop := NReplace(highN, i);
      if 'S' !in loop && |loop| > lowN - 1 {
        loops := loops + [loop];
      }
    }
  }

  /** Membership in the list, by the number each loop comes from. */
  lemma {:induction false} KeptLoopsMembers(lowN: int, n: nat, w: string)
    ensures w in KeptLoops(lowN, n) <==> exists i :: 0 <= i < n && LoopOf(i) == w && Kept(w, lowN)
  {
    if n > 0 {
      KeptLoopsMembers(lowN, n - 1, w);
      if LoopOf(n - 1) == w && Kept(w, lowN) {
        assert w in KeptLoops(lowN, n);
      }
    }
  }

  /** Every kept loop is made of A, U, C, G and is between `low_N` and `high_N` long. */
  lemma KeptLoopsSound(lowN: int, highN: nat, w: string)
    requires w in KeptLoops(lowN, Pow5(highN))
    ensures IsNucleotideLoop(w) && lowN <= |w| <= highN
  {
    KeptLoopsMembers(lowN, Pow5(highN), w);
    var i :| 0 <= i < Pow5(highN) && LoopOf(i) == w && Kept(w, lowN);
    Base5Length(i, highN);
    forall k | 0 <= k < |w|
      ensures w[k] in "AUCG"
    {
      assert w[k] != 'S';
    }
  }

  /** The digit each nucleotide stands for. */
  function DigitOf(c: char): (d: char)
    requires c in "AUCG"
    ensures IsDigit(d) && d != '0' && Nucleotide(d) == c
  {
    DigitChar(if c == 'A' then 1 else if c == 'U' then 2 else if c == 'C' then 3 else 4)
  }

  /** Every loop of A, U, C and G is the loop of some number. */
  lemma LoopOfDigits(w: string)
    requires IsNucleotideLoop(w)
    ensures LoopOf(FromBase5(seq(|w|, k requires 0 <= k < |w| => DigitOf(w[k])))) == w
  {
    var d := seq(|w|, k requires 0 <= k < |w| => DigitOf(w[k]));
    FromBase5RoundTrip(d);
    assert Base5(FromBase5(d)) == d;
  }

  /** Every loop of A, U, C, G between `low_N` and `high_N` long is in the list. */
  lemma KeptLoopsComplete(lowN: int, highN: nat, w: string)
    requires IsNucleotideLoop(w) && lowN <= |w| <= highN
    ensures w in KeptLoops(lowN, Pow5(highN))
  {
    var i := FromBase5(seq(|w|, k requires 0 <= k < |w| => DigitOf(w[k])));
    LoopOfDigits(w);
    Base5Length(i, highN);
    KeptLoopsMembers(lowN, Pow5(highN), w);
  }

  /** No loop is listed twice. */
  lemma {:induction false} KeptLoopsDistinct(lowN: int, n: nat)
    ensures forall a, b :: 0 <= a < b < |KeptLoops(lowN, n)| ==> KeptLoops(lowN, n)[a] != KeptLoops(lowN, n)[b]
  {
    if n > 0 {
      KeptLoopsDistinct(lowN, n - 1);
      var prev := KeptLoops(lowN, n - 1);
      if Kept(LoopOf(n - 1), lowN) {
        forall a | 0 <= a < |prev|
          ensures prev[a] != LoopOf(n - 1)
        {
          KeptLoopsMembers(lowN, n - 1, prev[a]);
          if prev[a] == LoopOf(n - 1) {
            var i :| 0 <= i < n - 1 && LoopOf(i) == prev[a] && Kept(prev[a], lowN);
            LoopOfInjective(i, n - 1);
          }
        }
      }
    }
  }

  // ---------------------------------------------------------------------------
  // Candidate sequences

  const FiveInsulator: string := "GGGAAACAAACAAA"
  const FiveHHRz: string := "GCUGUCACCGGA"
  const MidHHRz: string := "UCCGGUCUGAUGAGUCC"
  const ThreeHHRz: string := "GGACGAAACAGC"
  const ThreeInsulator: string := "AAAAAGAAAAAUAAAAA"

  /** The ribozyme with `loop1` in its first loop and `loop2` in its second, between the insulators. */
  function Candidate(loop1: string, loop2: string): (c: string)
    ensures |c| == |loop1| + |loop2| + |FiveInsulator + FiveHHRz + MidHHRz + ThreeHHRz + ThreeInsulator|
    ensures c[..|FiveInsulator + FiveHHRz|] == FiveInsulator + FiveHHRz
    ensures c[|c| - |ThreeHHRz + ThreeInsulator|..] == ThreeHHRz + ThreeInsulator
  {
    FiveInsulator + FiveHHRz + loop1 + MidHHRz + loop2 + ThreeHHRz + ThreeInsulator
  }

  /** Where loop 1 starts in a candidate: after the 5' insulator and the 5' ribozyme arm. */
  const Loop1Start: nat := |FiveInsulator| + |FiveHHRz|

  /** The two loops can be read back from a candidate at fixed offsets. */
  lemma CandidateLoops(loop1: string, loop2: string)
    ensures var c := Candidate(loop1, loop2);
      var start2 := Loop1Start + |loop1| + |MidHHRz|;
      && |c| == Loop1Start + |loop1| + |MidHHRz| + |loop2| + |ThreeHHRz| + |ThreeInsulator|
      && c[..Loop1Start] == FiveInsulator + FiveHHRz
      && c[Loop1Start..Loop1Start + |loop1|] == loop1
      && c[Loop1Start + |loop1|..start2] == MidHHRz
      && c[start2..start2 + |loop2|] == loop2
      && c[start2 + |loop2|..] == ThreeHHRz + ThreeInsulator
  {
    var c := Candidate(loop1, loop2);
    var start2 := Loop1Start + |loop1| + |MidHHRz|;
    assert c == (FiveInsulator + FiveHHRz) + loop1 + MidHHRz + loop2 + (ThreeHHRz + ThreeInsulator);
  }

  /** `rbz_list`: for each loop, the loop in slot 1 with the aptamer in slot 2, then the swap. */
  function Candidates(loops: seq<string>, apt: string): (r: seq<string>)
    ensures |r| == 2 * |loops|
    ensures forall k :: 0 <= k < |loops| ==>
      r[2 * k] == Candidate(loops[k], apt) && r[2 * k + 1] == Candidate(apt, loops[k])
  {
    if loops == [] then []
    else Candidates(loops[..|loops| - 1], apt) + [Candidate(loops[|loops| - 1], apt), Candidate(apt, loops[|loops| - 1])]
  }

  /** The candidate loop of the script. */
  method CandidateSequences(loops: seq<string>, apt: string) returns (rbz: seq<string>)
    ensures rbz == Candidates(loops, apt)
  {
    rbz := [];
    for j := 0 to |loops|
      invariant rbz == Candidates(loops[..j], apt)
    {
      assert loops[..j + 1][..j] == loops[..j];
      rbz := rbz + [FiveInsulator + FiveHHRz + loops[j] + MidHHRz + apt + ThreeHHRz + ThreeInsulator];
      rbz := rbz + [FiveInsulator + FiveHHRz + apt + MidHHRz + loops[j] + ThreeHHRz + ThreeInsulator];
    }
    assert loops[..|loops|] == loops;
  }
}
