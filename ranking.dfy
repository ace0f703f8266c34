/** The ranking stage of `DetectLanguage::detect`: the candidate record, the comparator handed to
    `usort` and the order it imposes. */
module Ranking {

  /** One candidate language. `probability` is the engine's integer percentage: the source stores
      percentage / 100, and dividing every value by the same positive constant keeps their order,
      so the comparator behaves the same on either. */
  datatype DetectionResult = DetectionResult(
    languageCode: string,
    languageName: string,
    confidence: bool,
    probability: int)

  /** The ordering key as a single integer: probability first, reliability as the tie-break.
      This is an independent statement of the order that `Compare` spells out branch by branch. */
  function Weight(d: DetectionResult): int
  {
    2 * d.probability + (if d.confidence then 1 else 0)
  }

  /** The comparator passed to `usort`: -1 when `a` must come first, 1 when `b` must, 0 on a tie. */
  function Compare(a: DetectionResult, b: DetectionResult): (r: int)
    ensures -1 <= r <= 1
    ensures r == -1 <==> Weight(a) > Weight(b)
    ensures r == 1 <==> Weight(a) < Weight(b)
    ensures r == 0 <==> a.probability == b.probability && a.confidence == b.confidence
  {
    if a.probability > b.probability then -1
    else if a.probability < b.probability then 1
    else if a.confidence && !b.confidence then -1
    else if !a.confidence && b.confidence then 1
    else 0
  }

  /** The comparator is antisymmetric and transitive, so `usort` has a consistent order to reach. */
  lemma CompareIsConsistent(a: DetectionResult, b: DetectionResult, c: DetectionResult)
    ensures Compare(a, b) == -Compare(b, a)
    ensures Compare(a, b) <= 0 && Compare(b, c) <= 0 ==> Compare(a, c) <= 0
    ensures Compare(a, b) < 0 && Compare(b, c) <= 0 ==> Compare(a, c) < 0
  {
  }

  /** No element is placed after one that the comparator says should follow it. */
  ghost predicate Sorted(s: seq<DetectionResult>)
  {
    forall i, j :: 0 <= i < j < |s| ==> Compare(s[i], s[j]) <= 0
  }

  /** What a sorted list means for the caller: probability never increases along it, and among equal
      probabilities a reliable result never follows an unreliable one. */
  lemma SortedMeansMostProbableFirst(s: seq<DetectionResult>)
    requires Sorted(s)
    ensures forall i, j :: 0 <= i < j < |s| ==> s[i].probability >= s[j].probability
    ensures forall i, j :: 0 <= i < j < |s| && s[i].probability == s[j].probability ==>
              s[i].confidence || !s[j].confidence
  {
    forall i, j | 0 <= i < j < |s|
      ensures s[i].probability >= s[j].probability
      ensures s[i].probability == s[j].probability ==> s[i].confidence || !s[j].confidence
    {
      assert Compare(s[i], s[j]) <= 0;
    }
  }

  /** Sortedness only needs checking between neighbours, since the comparator is transitive. */
  lemma SortedCons(d: DetectionResult, s: seq<DetectionResult>)
    requires Sorted(s)
    requires s != [] ==> Compare(d, s[0]) <= 0
    ensures Sorted([d] + s)
  {
    var t := [d] + s;
    forall i, j | 0 <= i < j < |t| ensures Compare(t[i], t[j]) <= 0 {
      if i == 0 {
        assert t[j] == s[j - 1];
        if j > 1 {
          assert Compare(s[0], s[j - 1]) <= 0;
        }
      } else {
        assert t[i] == s[i - 1] && t[j] == s[j - 1];
      }
    }
  }

  lemma SortedTail(s: seq<DetectionResult>)
    requires Sorted(s) && s != []
    ensures Sorted(s[1..])
  {
    forall i, j | 0 <= i < j < |s[1..]| ensures Compare(s[1..][i], s[1..][j]) <= 0 {
      assert s[1..][i] == s[i + 1] && s[1..][j] == s[j + 1];
    }
  }

  /** One step of the insertion sort: `x` goes in front of the first element it strictly precedes. */
  function Insert(s: seq<DetectionResult>, x: DetectionResult): (r: seq<DetectionResult>)
    requires Sorted(s)
    ensures Sorted(r)
    ensures multiset(r) == multiset(s) + multiset{x}
    ensures r != [] && (r[0] == x || (s != [] && r[0] == s[0]))
  {
    if s == [] then
      [x]
    else if Compare(x, s[0]) < 0 then
      SortedCons(x, s);
      [x] + s
    else
      SortedTail(s);
      var rest := Insert(s[1..], x);
      assert |s| > 1 ==> Compare(s[0], s[1]) <= 0;
      SortedCons(s[0], rest);
      assert s == [s[0]] + s[1..];
      [s[0]] + rest
  }

  /** The `usort` call at the end of `detect`: the result is a permutation of the input in which no
      element follows one the comparator puts after it. */
  method Rank(s: seq<DetectionResult>) returns (r: seq<DetectionResult>)
    ensures Sorted(r)
    ensures multiset(r) == multiset(s)
  {
    r := [];
    var i := 0;
    while i < |s|
      invariant i <= |s|
      invariant Sorted(r)
      invariant multiset(r) == multiset(s[..i])
    {
      assert s[..i + 1] == s[..i] + [s[i]];
      r := Insert(r, s[i]);
      i := i + 1;
    }
    assert s[..i] == s;
  }

  /** A list of at most one element has only itself as a permutation, so ranking it changes
      nothing. */
  lemma ShortListPermutationIsItself(s: seq<DetectionResult>, r: seq<DetectionResult>)
    requires |s| <= 1 && multiset(r) == multiset(s)
    ensures r == s
  {
    assert |r| == |multiset(r)| == |multiset(s)| == |s|;
    if |s| == 1 {
      assert r[0] in multiset(s);
    }
  }

  /** Removing one element keeps a list sorted. */
  lemma SortedWithout(s: seq<DetectionResult>, j: nat)
    requires Sorted(s) && j < |s|
    ensures Sorted(s[..j] + s[j + 1..])
  {
    var c := s[..j] + s[j + 1..];
    forall p, q | 0 <= p < q < |c| ensures Compare(c[p], c[q]) <= 0 {
      var p' := if p < j then p else p + 1;
      var q' := if q < j then q else q + 1;
      assert c[p] == s[p'] && c[q] == s[q'];
    }
  }

  /** The first elements of two sorted permutations of one list tie. */
  lemma SortedHeadsTie(a: seq<DetectionResult>, b: seq<DetectionResult>)
    requires Sorted(a) && Sorted(b) && multiset(a) == multiset(b) && a != []
    ensures b != [] && Weight(a[0]) == Weight(b[0])
  {
    assert a[0] in multiset(b);
    assert b[0] in multiset(a);
    var j :| 0 <= j < |b| && b[j] == a[0];
    var i :| 0 <= i < |a| && a[i] == b[0];
    if i > 0 {
      assert Compare(a[0], a[i]) <= 0;
    }
    if j > 0 {
      assert Compare(b[0], b[j]) <= 0;
    }
  }

  /** In a sorted list, everything between two tied elements ties with them. */
  lemma SortedTiedBetween(s: seq<DetectionResult>, j: nat)
    requires Sorted(s) && j < |s| && Weight(s[0]) == Weight(s[j])
    ensures forall k :: 0 <= k <= j ==> Weight(s[k]) == Weight(s[0])
  {
    forall k | 0 < k < j ensures Weight(s[k]) == Weight(s[0]) {
      assert Compare(s[0], s[k]) <= 0 && Compare(s[k], s[j]) <= 0;
    }
  }

  /** Taking the same element out of two permutations of one list leaves two permutations. */
  lemma MultisetRemoveMatching(a: seq<DetectionResult>, b: seq<DetectionResult>, j: nat)
    requires multiset(a) == multiset(b) && a != [] && j < |b| && b[j] == a[0]
    ensures multiset(b[..j] + b[j + 1..]) == multiset(a[1..])
  {
    var c := b[..j] + b[j + 1..];
    assert b == b[..j] + [b[j]] + b[j + 1..];
    assert multiset(b) == multiset(c) + multiset{a[0]};
    assert a == [a[0]] + a[1..];
    assert multiset(a) == multiset(a[1..]) + multiset{a[0]};
    forall y ensures multiset(c)[y] == multiset(a[1..])[y] {
      assert multiset(b)[y] == multiset(a)[y];
    }
  }

  lemma SameWeightSameKey(x: DetectionResult, y: DetectionResult)
    requires Weight(x) == Weight(y)
    ensures x.probability == y.probability && x.confidence == y.confidence
  {
    assert Compare(x, y) == 0;
  }

  /** Putting back a tied head: if `b` ties on its first `j + 1` places and, with place `j` taken
      out, matches `a` without its head, then `b` matches `a` place by place. */
  lemma TiedHeadShift(a: seq<DetectionResult>, b: seq<DetectionResult>, j: nat)
    requires |a| == |b| && j < |b| && Weight(a[0]) == Weight(b[0])
    requires forall k :: 0 <= k <= j ==> Weight(b[k]) == Weight(b[0])
    requires forall k :: 0 <= k < |a| - 1 ==> Weight(a[1..][k]) == Weight((b[..j] + b[j + 1..])[k])
    ensures forall k :: 0 <= k < |a| ==> Weight(a[k]) == Weight(b[k])
  {
    var c := b[..j] + b[j + 1..];
    forall k | 0 < k < |a| ensures Weight(a[k]) == Weight(b[k]) {
      assert a[1..][k - 1] == a[k];
      if k <= j {
        assert c[k - 1] == b[k - 1];
      } else {
        assert c[k - 1] == b[k];
      }
    }
  }

  /** Two sorted permutations of one list carry the same weight at every place. */
  lemma {:induction false} SortedPermutationsWeighAlike(a: seq<DetectionResult>, b: seq<DetectionResult>)
    requires Sorted(a) && Sorted(b) && multiset(a) == multiset(b)
    ensures |a| == |b|
    ensures forall k :: 0 <= k < |a| ==> Weight(a[k]) == Weight(b[k])
    decreases |a|
  {
    assert |a| == |multiset(a)| == |multiset(b)| == |b|;
    if a != [] {
      SortedHeadsTie(a, b);
      assert a[0] in multiset(b);
      var j :| 0 <= j < |b| && b[j] == a[0];
      SortedTiedBetween(b, j);
      MultisetRemoveMatching(a, b, j);
      SortedTail(a);
      SortedWithout(b, j);
      SortedPermutationsWeighAlike(a[1..], b[..j] + b[j + 1..]);
      TiedHeadShift(a, b, j);
    }
  }

  /** `usort` is stable only from PHP 8.0 on, and the code does not rely on the order among tied
      elements. Nothing else is left open: two sorted permutations of one list agree, position by position, on probability and
      reliability. In particular re-ranking a ranked list leaves every key where it was. */
  lemma SortedPermutationsAgree(a: seq<DetectionResult>, b: seq<DetectionResult>)
    requires Sorted(a) && Sorted(b) && multiset(a) == multiset(b)
    ensures |a| == |b|
    ensures forall k :: 0 <= k < |a| ==>
              a[k].probability == b[k].probability && a[k].confidence == b[k].confidence
  {
    SortedPermutationsWeighAlike(a, b);
    forall k | 0 <= k < |a|
      ensures a[k].probability == b[k].probability && a[k].confidence == b[k].confidence
    {
      SameWeightSameKey(a[k], b[k]);
    }
  }
}
