/**
 * Partner resolution in dot-bracket notation (`get_index_of_bonded`).
 *
 * The result follows the source: `Some(-1)` for an unpaired `.`, `Some(j)`
 * for the partner index `j`, and `None` where the source falls off the end of
 * its scan without returning (no partner, or a symbol that is neither a
 * bracket nor a dot).
 */
module BracketMatcher {
  import opened Strings

  /** Contribution of one symbol to the nesting depth. */
  function Delta(c: char): int
  {
    if c == '(' then 1 else if c == ')' then -1 else 0
  }

  /** Net nesting depth of `s[lo..hi]`: opening minus closing brackets. */
  function Depth(s: string, lo: nat, hi: nat): int
    requires lo <= hi <= |s|
    decreases hi - lo
  {
    if hi == lo then 0 else Depth(s, lo, hi - 1) + Delta(s[hi - 1])
  }

  lemma {:induction false} DepthSplit(s: string, lo: nat, mid: nat, hi: nat)
    requires lo <= mid <= hi <= |s|
    ensures Depth(s, lo, hi) == Depth(s, lo, mid) + Depth(s, mid, hi)
    decreases hi - mid
  {
    if hi > mid {
      DepthSplit(s, lo, mid, hi - 1);
    }
  }

  /** A structure every prefix of which closes no more brackets than it opens, and which closes them all. */
  ghost predicate Balanced(s: string)
  {
    Depth(s, 0, |s|) == 0 && PrefixesAtLeast(s, 0, |s|, 0)
  }

  /** Every prefix `s[lo..m]` of `s[lo..hi]` has depth at least `level`. */
  ghost predicate PrefixesAtLeast(s: string, lo: nat, hi: nat, level: int)
    requires lo <= hi <= |s|
  {
    forall m :: lo <= m <= hi ==> Depth(s, lo, m) >= level
  }

  /** Every suffix `s[m..hi]` of `s[lo..hi]` has depth at most `level`. */
  ghost predicate SuffixesAtMost(s: string, lo: nat, hi: nat, level: int)
    requires lo <= hi <= |s|
  {
    forall m :: lo <= m <= hi ==> Depth(s, m, hi) <= level
  }

  /**
   * `j` closes the `(` at `i`: the brackets strictly between them are
   * balanced and never close below the level of `i`.
   */
  ghost predicate ClosesForward(s: string, i: nat, j: nat)
  {
    i < j < |s| && s[i] == '(' && s[j] == ')' && Depth(s, i + 1, j) == 0 &&
    PrefixesAtLeast(s, i + 1, j, 0)
  }

  /** `i` opens the `)` at `j`: the mirror image of ClosesForward. */
  ghost predicate OpensBackward(s: string, j: nat, i: nat)
  {
    i < j < |s| && s[i] == '(' && s[j] == ')' && Depth(s, i + 1, j) == 0 &&
    SuffixesAtMost(s, i + 1, j, 0)
  }

  /** The forward scan of the source, `pending` being its `bonds_to_go`. */
  function ForwardScan(s: string, k: nat, pending: nat): (r: Option<int>)
    decreases |s| - k
    ensures r.Some? ==> k <= r.value < |s| && s[r.value] == ')'
  {
    if k >= |s| then None
    else if s[k] == ')' && pending == 0 then Some(k)
    else if s[k] == '(' then ForwardScan(s, k + 1, pending + 1)
    else if s[k] == ')' then ForwardScan(s, k + 1, pending - 1)
    else ForwardScan(s, k + 1, pending)
  }

  /** The backward scan of the source, from index `k` down to 0. */
  function BackwardScan(s: string, k: int, pending: nat): (r: Option<int>)
    requires k < |s|
    decreases k + 1
    ensures r.Some? ==> 0 <= r.value <= k && s[r.value] == '('
  {
    if k < 0 then None
    else if s[k] == '(' && pending == 0 then Some(k)
    else if s[k] == ')' then BackwardScan(s, k - 1, pending + 1)
    else if s[k] == '(' then BackwardScan(s, k - 1, pending - 1)
    else BackwardScan(s, k - 1, pending)
  }

  /** What `get_index_of_bonded(s, i)` returns. */
  function Bonded(s: string, i: nat): (r: Option<int>)
    requires i < |s|
    ensures r == Some(-1) <==> s[i] == '.'
    ensures r.Some? && r.value != -1 ==> 0 <= r.value < |s| && r.value != i
    ensures r.Some? && r.value > i ==> s[i] == '(' && s[r.value] == ')'
    ensures r.Some? && 0 <= r.value < i ==> s[i] == ')' && s[r.value] == '('
  {
    if s[i] == '.' then Some(-1)
    else if s[i] == '(' then ForwardScan(s, i + 1, 0)
    else if s[i] == ')' then BackwardScan(s, i - 1, 0)
    else None
  }

  /** The scan loop of the source; it agrees with Bonded on every input. */
  method GetIndexOfBonded(s: string, i: nat) returns (r: Option<int>)
    requires i < |s|
    ensures r == Bonded(s, i)
  {
    if s[i] == '.' {
      return Some(-1);
    }
    if s[i] == '(' {
      var pending: nat := 0;
      for index := i + 1 to |s|
        invariant ForwardScan(s, index, pending) == ForwardScan(s, i + 1, 0)
      {
        if s[index] == ')' && pending == 0 {
          return Some(index);
        } else if s[index] == '(' {
          pending := pending + 1;
        } else if s[index] == ')' {
          pending := pending - 1;
        }
      }
    }
    if s[i] == ')' {
      var pending: nat := 0;
      for index := i downto 0
        invariant BackwardScan(s, index - 1, pending) == BackwardScan(s, i - 1, 0)
      {
        if s[index] == '(' && pending == 0 {
          return Some(index);
        } else if s[index] == ')' {
          pending := pending + 1;
        } else if s[index] == '(' {
          pending := pending - 1;
        }
      }
    }
    return None;
  }

  /**
   * What the forward scan from `k` with `pending` open brackets finds: the
   * first position where the running depth drops below zero, or nothing when
   * it never does.
   */
  lemma {:induction false} ForwardScanCharacterized(s: string, k: nat, pending: nat)
    requires k <= |s|
    ensures ForwardScan(s, k, pending).Some? ==>
      var j := ForwardScan(s, k, pending).value;
      pending + Depth(s, k, j) == 0 && PrefixesAtLeast(s, k, j, -(pending as int))
    ensures ForwardScan(s, k, pending).None? ==> PrefixesAtLeast(s, k, |s|, -(pending as int))
    decreases |s| - k
  {
    if k < |s| && !(s[k] == ')' && pending == 0) {
      var p' := if s[k] == '(' then pending + 1 else if s[k] == ')' then pending - 1 else pending;
      ForwardScanCharacterized(s, k + 1, p');
      assert p' == pending + Delta(s[k]);
      var hi := if ForwardScan(s, k, pending).Some? then ForwardScan(s, k, pending).value else |s|;
      forall m | k <= m <= hi
        ensures Depth(s, k, m) >= -(pending as int)
      {
        if m > k {
          DepthSplit(s, k, k + 1, m);
        }
      }
      if ForwardScan(s, k, pending).Some? {
        DepthSplit(s, k, k + 1, hi);
      }
    }
  }

  /** Mirror image of ForwardScanCharacterized for the backward scan. */
  lemma {:induction false} BackwardScanCharacterized(s: string, k: int, pending: nat)
    requires -1 <= k < |s|
    ensures BackwardScan(s, k, pending).Some? ==>
      var i := BackwardScan(s, k, pending).value;
      Depth(s, i + 1, k + 1) == pending && SuffixesAtMost(s, i + 1, k + 1, pending)
    ensures BackwardScan(s, k, pending).None? ==> SuffixesAtMost(s, 0, k + 1, pending)
    decreases k + 1
  {
    if k >= 0 && !(s[k] == '(' && pending == 0) {
      var p' := if s[k] == ')' then pending + 1 else if s[k] == '(' then pending - 1 else pending;
      BackwardScanCharacterized(s, k - 1, p');
      assert p' == pending - Delta(s[k]);
      var lo := if BackwardScan(s, k, pending).Some? then BackwardScan(s, k, pending).value + 1 else 0;
      var hi := k + 1;
      forall m | lo <= m <= hi
        ensures Depth(s, m, hi) <= pending
      {
      }
    }
  }

  /**
   * For an opening bracket, Bonded finds exactly the bracket that closes it:
   * the result is `Some(j)` if and only if `j` closes `i`.
   */
  lemma ForwardPartnerIff(s: string, i: nat, j: nat)
    requires i < |s| && s[i] == '('
    ensures Bonded(s, i) == Some(j) <==> ClosesForward(s, i, j)
  {
    ForwardScanCharacterized(s, i + 1, 0);
    var r := Bonded(s, i);
    if ClosesForward(s, i, j) {
      DepthSplit(s, i + 1, j, j + 1);
      assert Depth(s, i + 1, j + 1) == -1;
      if r.Some? {
        var j' := r.value;
        DepthSplit(s, i + 1, j', j' + 1);
      }
    }
  }

  /** For a closing bracket, Bonded finds exactly the bracket that opens it. */
  lemma BackwardPartnerIff(s: string, j: nat, i: nat)
    requires j < |s| && s[j] == ')'
    ensures Bonded(s, j) == Some(i) <==> OpensBackward(s, j, i)
  {
    BackwardScanCharacterized(s, j - 1, 0);
    var r := Bonded(s, j);
    if OpensBackward(s, j, i) {
      DepthSplit(s, i, i + 1, j);
      assert Depth(s, i, j) == 1;
      if r.Some? {
        var i' := r.value;
        DepthSplit(s, i', i' + 1, j);
      }
    }
  }

  /** A bracket that closes `i` is one that `i` opens, and the other way round. */
  lemma ClosesIffOpens(s: string, i: nat, j: nat)
    ensures ClosesForward(s, i, j) <==> OpensBackward(s, j, i)
  {
    if i < j < |s| {
      var lo := i + 1;
      forall m | lo <= m <= j
        ensures Depth(s, lo, j) == Depth(s, lo, m) + Depth(s, m, j)
      {
        DepthSplit(s, lo, m, j);
      }
    }
  }

  /**
   * Partner resolution is an involution: whenever a partner is found, the
   * partner's partner is the starting index.
   */
  lemma PartnerInvolution(s: string, i: nat)
    requires i < |s|
    requires Bonded(s, i).Some? && Bonded(s, i).value >= 0
    ensures var j := Bonded(s, i).value; j < |s| && Bonded(s, j) == Some(i)
  {
    var j := Bonded(s, i).value;
    if s[i] == '(' {
      ForwardPartnerIff(s, i, j);
      ClosesIffOpens(s, i, j);
      BackwardPartnerIff(s, j, i);
    } else {
      BackwardPartnerIff(s, i, j);
      ClosesIffOpens(s, j, i);
      ForwardPartnerIff(s, j, i);
    }
  }

  /** On a balanced structure every bracket has a partner. */
  lemma BalancedHasPartner(s: string, i: nat)
    requires i < |s| && Balanced(s)
    requires s[i] == '(' || s[i] == ')'
    ensures Bonded(s, i).Some? && Bonded(s, i).value >= 0
  {
    if s[i] == '(' {
      ForwardScanCharacterized(s, i + 1, 0);
      DepthSplit(s, 0, i, |s|);
      DepthSplit(s, i, i + 1, |s|);
      assert Depth(s, 0, i) >= 0;
      assert Depth(s, i + 1, |s|) < 0;
    } else {
      BackwardScanCharacterized(s, i - 1, 0);
      DepthSplit(s, 0, i, i + 1);
      DepthSplit(s, 0, i + 1, |s|);
      assert Depth(s, 0, i + 1) >= 0;
      assert Depth(s, i + 1, |s|) <= 0;
      assert Depth(s, 0, i) > 0;
    }
  }
}
