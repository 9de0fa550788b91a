/**
 * Hairpin detection (`find_hairpins`): every `(` that is followed by a `)`
 * before any further `(` is reported, together with the first `)` after it.
 * One physical hairpin therefore yields one entry; a `(` with no `)` after it
 * is reported with an end of -1.
 */
module HairpinFinder {
  import opened Strings

  /** The two parallel lists the source returns. */
  datatype Hairpins = Hairpins(starts: seq<int>, ends: seq<int>)

  /** The test the source applies at index `i`. */
  predicate IsHairpinStart(s: string, i: nat): (r: bool)
    requires i < |s|
    ensures r ==> s[i] == '('
    ensures r ==> forall k :: i < k < |s| && s[k] == '(' ==> FindChar(s, ')', i + 1) < k
  {
    var nextClose, nextOpen := FindChar(s, ')', i + 1), FindChar(s, '(', i + 1);
    s[i] == '(' && (nextClose < nextOpen || nextOpen < 0)
  }

  /** The hairpins among the first `n` positions, in ascending order. */
  function HairpinsUpTo(s: string, n: nat): (h: Hairpins)
    requires n <= |s|
    ensures |h.starts| == |h.ends|
    ensures forall k :: 0 <= k < |h.starts| ==>
      0 <= h.starts[k] < n && IsHairpinStart(s, h.starts[k]) &&
      h.ends[k] == FindChar(s, ')', h.starts[k] + 1)
    ensures forall k, l :: 0 <= k < l < |h.starts| ==> h.starts[k] < h.starts[l]
  {
    if n == 0 then Hairpins([], [])
    else
      var h := HairpinsUpTo(s, n - 1);
      if IsHairpinStart(s, n - 1)
      then Hairpins(h.starts + [n - 1], h.ends + [FindChar(s, ')', n)])
      else h
  }

  /** No hairpin is missed: every position passing the test is listed. */
  lemma {:induction false} HairpinsComplete(s: string, n: nat)
    requires n <= |s|
    ensures forall i :: 0 <= i < n && IsHairpinStart(s, i) ==> i in HairpinsUpTo(s, n).starts
  {
    if n > 0 {
      HairpinsComplete(s, n - 1);
    }
  }

  /** `find_hairpins(structure)` */
  method FindHairpins(structure: string) returns (starts: seq<int>, ends: seq<int>)
    ensures Hairpins(starts, ends) == HairpinsUpTo(structure, |structure|)
  {
    starts, ends := [], [];
    for index := 0 to |structure|
      invariant Hairpins(starts, ends) == HairpinsUpTo(structure, index)
    {
      var nextClose := FindChar(structure, ')', index + 1);
      var nextOpen := FindChar(structure, '(', index + 1);
      if structure[index] == '(' && (nextClose < nextOpen || nextOpen < 0) {
        starts := starts + [index];
        ends := ends + [nextClose];
      }
    }
  }

  /**
   * The test of the source, restated: `i` starts a hairpin exactly when it
   * holds `(` and either no `)` follows it at all, or no `(` lies between it
   * and the first `)` after it.
   */
  lemma HairpinStartIff(s: string, i: nat)
    requires i < |s|
    ensures IsHairpinStart(s, i) <==>
      s[i] == '(' &&
      (FindChar(s, ')', i + 1) == -1 ||
       forall k :: i < k < FindChar(s, ')', i + 1) ==> s[k] != '(')
  {
    var nextClose, nextOpen := FindChar(s, ')', i + 1), FindChar(s, '(', i + 1);
    if nextClose != -1 && nextOpen != -1 && nextOpen < nextClose {
      assert s[nextOpen] == '(';
    }
  }

  /**
   * The quirk of the source: a `(` followed by no `)` is reported with the
   * end -1, whatever follows it.
   */
  lemma UnclosedEndIsMinusOne(s: string, i: nat)
    requires i < |s| && s[i] == '('
    requires forall k :: i < k < |s| ==> s[k] != ')'
    ensures i in HairpinsUpTo(s, |s|).starts
    ensures var h := HairpinsUpTo(s, |s|);
      forall k :: 0 <= k < |h.starts| && h.starts[k] == i ==> h.ends[k] == -1
  {
    assert FindChar(s, ')', i + 1) == -1;
    HairpinsComplete(s, |s|);
  }
}
