/** Ordering the unresolved cases. The original program collects them row after
    row and sorts the list with Python's stable sort on one key (the entropy, or
    the distance from the corner). A stable sort of a list in row-major order is
    exactly the order by key, then row, then column, and that order is unique. */
module Ranking {
  import opened Grid

  /** `a` comes before `b` when the board is read row after row. */
  predicate RowMajorBefore(a: Case, b: Case) {
    a.y < b.y || (a.y == b.y && a.x < b.x)
  }

  predicate InRowMajorOrder(s: seq<Case>) {
    forall i, j :: 0 <= i < j < |s| ==> RowMajorBefore(s[i], s[j])
  }

  /** Every case of `s` comes before position `(x, y)` in reading order. */
  predicate ListedBefore(s: seq<Case>, x: int, y: int) {
    forall d :: d in s ==> d.y < y || (d.y == y && d.x < x)
  }

  /** Appending a case that comes after every listed case keeps reading order. */
  lemma AppendInOrder(s: seq<Case>, c: Case)
    requires InRowMajorOrder(s) && ListedBefore(s, c.x, c.y)
    ensures InRowMajorOrder(s + [c]) && ListedBefore(s + [c], c.x + 1, c.y)
  {
    forall i | 0 <= i < |s| ensures RowMajorBefore(s[i], c) {
      assert s[i] in s;
    }
  }

  /** `a` is ranked before `b`: a smaller key, or the same key and earlier in
      reading order. */
  predicate RankedBefore(key: Case -> int, a: Case, b: Case) {
    key(a) < key(b) || (key(a) == key(b) && RowMajorBefore(a, b))
  }

  predicate RankedBy(key: Case -> int, s: seq<Case>) {
    forall i, j :: 0 <= i < j < |s| ==> RankedBefore(key, s[i], s[j])
  }

  /** The sort key of `getCaseByEntropy`. */
  function EntropyKey(c: Case): int {
    c.entropy
  }

  /** The sort key of `getCaseByCenterDist`: the square of `r = sqrt(x² + y²)`,
      which orders the cases the same way. */
  function CenterKey(c: Case): int {
    c.x * c.x + c.y * c.y
  }

  /** `list.sort(key=...)` on a list in reading order: insert each case after
      every case already placed whose key is not larger. */
  method SortByKey(s: seq<Case>, key: Case -> int) returns (r: seq<Case>)
    requires InRowMajorOrder(s)
    ensures multiset(r) == multiset(s)
    ensures RankedBy(key, r)
  {
    r := [];
    for i := 0 to |s|
      invariant multiset(r) == multiset(s[..i])
      invariant RankedBy(key, r)
    {
      var c := s[i];
      var k := InsertionPoint(r, key, c);
      PlacedComeBefore(s, i, r);
      InsertKeepsRanking(key, r, k, c);
      InsertAddsCase(r, k, c);
      assert s[..i + 1] == s[..i] + [c];
      r := r[..k] + [c] + r[k..];
    }
    assert s[..|s|] == s;
  }

  /** The first position whose key is larger than that of `c`, or the end. */
  method InsertionPoint(r: seq<Case>, key: Case -> int, c: Case) returns (k: int)
    ensures 0 <= k <= |r|
    ensures forall j :: 0 <= j < k ==> key(r[j]) <= key(c)
    ensures k < |r| ==> key(c) < key(r[k])
  {
    k := 0;
    while k < |r| && key(r[k]) <= key(c)
      invariant 0 <= k <= |r|
      invariant forall j :: 0 <= j < k ==> key(r[j]) <= key(c)
    {
      k := k + 1;
    }
  }

  /** Inserting a case that comes later in reading order than every ranked case,
      after exactly the cases whose key is not larger, keeps the ranking and
      adds just that case. */
  lemma InsertKeepsRanking(key: Case -> int, r: seq<Case>, k: int, c: Case)
    requires RankedBy(key, r) && 0 <= k <= |r|
    requires forall j :: 0 <= j < k ==> key(r[j]) <= key(c)
    requires k < |r| ==> key(c) < key(r[k])
    requires forall j :: 0 <= j < |r| ==> RowMajorBefore(r[j], c)
    ensures RankedBy(key, r[..k] + [c] + r[k..])
  {
    var r' := r[..k] + [c] + r[k..];
    assert |r'| == |r| + 1;
    assert forall m :: 0 <= m < k ==> r'[m] == r[m];
    assert r'[k] == c;
    assert forall m :: k < m < |r'| ==> r'[m] == r[m - 1];
    forall j | k <= j < |r| ensures key(c) < key(r[j]) {
      if j > k {
        assert RankedBefore(key, r[k], r[j]);
      }
    }
    forall i, j | 0 <= i < j < |r'| ensures RankedBefore(key, r'[i], r'[j]) {
      if j < k {
        assert RankedBefore(key, r[i], r[j]);
      } else if j == k {
        assert RowMajorBefore(r[i], c);
      } else if i < k {
        assert RankedBefore(key, r[i], r[j - 1]);
      } else if i == k {
        assert key(c) < key(r[j - 1]);
      } else {
        assert RankedBefore(key, r[i - 1], r[j - 1]);
      }
    }
  }

  /** The cases taken from the first `i` of a list in reading order all come
      before its case `i`. */
  lemma PlacedComeBefore(s: seq<Case>, i: int, r: seq<Case>)
    requires InRowMajorOrder(s) && 0 <= i < |s| && multiset(r) == multiset(s[..i])
    ensures forall j :: 0 <= j < |r| ==> RowMajorBefore(r[j], s[i])
  {
    forall j | 0 <= j < |r| ensures RowMajorBefore(r[j], s[i]) {
      assert r[j] in multiset(s[..i]);
      var m :| 0 <= m < i && s[m] == r[j];
    }
  }

  /** Inserting a case anywhere adds just that case. */
  lemma InsertAddsCase(r: seq<Case>, k: int, c: Case)
    requires 0 <= k <= |r|
    ensures multiset(r[..k] + [c] + r[k..]) == multiset(r) + multiset{c}
  {
    assert r == r[..k] + r[k..];
  }

  lemma RankedBeforeAsymmetric(key: Case -> int, a: Case, b: Case)
    requires RankedBefore(key, a, b)
    ensures !RankedBefore(key, b, a)
  {
  }

  /** Two rankings of the same cases are the same list: the order by key, then
      row, then column, leaves no choice. */
  lemma {:induction false} RankingUnique(key: Case -> int, r1: seq<Case>, r2: seq<Case>)
    requires RankedBy(key, r1) && RankedBy(key, r2)
    requires multiset(r1) == multiset(r2)
    ensures r1 == r2
  {
    if r1 != [] {
      assert r2 != [] by {
        assert r1[0] in multiset(r2);
      }
      RankedSameFirst(key, r1, r2);
      RankedTail(key, r1);
      RankedTail(key, r2);
      MultisetTail(r1, r2);
      RankingUnique(key, r1[1..], r2[1..]);
      assert r1 == [r1[0]] + r1[1..] && r2 == [r2[0]] + r2[1..];
    } else {
      assert |multiset(r2)| == 0;
    }
  }

  /** Two rankings of the same cases start with the same case. */
  lemma RankedSameFirst(key: Case -> int, r1: seq<Case>, r2: seq<Case>)
    requires RankedBy(key, r1) && RankedBy(key, r2) && r1 != [] && r2 != []
    requires multiset(r1) == multiset(r2)
    ensures r1[0] == r2[0]
  {
    assert r1[0] in multiset(r2) && r2[0] in multiset(r1);
    var j :| 0 <= j < |r2| && r2[j] == r1[0];
    var k :| 0 <= k < |r1| && r1[k] == r2[0];
    if j != 0 && k != 0 {
      RankedBeforeAsymmetric(key, r2[0], r2[j]);
    }
  }

  lemma RankedTail(key: Case -> int, r: seq<Case>)
    requires RankedBy(key, r) && r != []
    ensures RankedBy(key, r[1..])
  {
    forall i, j | 0 <= i < j < |r| - 1 ensures RankedBefore(key, r[1..][i], r[1..][j]) {
      assert r[1..][i] == r[i + 1] && r[1..][j] == r[j + 1];
    }
  }

  lemma MultisetTail(r1: seq<Case>, r2: seq<Case>)
    requires r1 != [] && r2 != [] && r1[0] == r2[0] && multiset(r1) == multiset(r2)
    ensures multiset(r1[1..]) == multiset(r2[1..])
  {
    assert r1 == [r1[0]] + r1[1..] && r2 == [r2[0]] + r2[1..];
    assert multiset(r1[1..]) == multiset(r1) - multiset{r1[0]};
    assert multiset(r2[1..]) == multiset(r2) - multiset{r2[0]};
  }

  /** The first case of a ranking has the smallest key. */
  lemma RankedFirstIsLeast(key: Case -> int, r: seq<Case>, c: Case)
    requires RankedBy(key, r) && c in r
    ensures key(r[0]) <= key(c)
  {
  }
}
