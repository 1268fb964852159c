/**
 * `DataFrame.drop_duplicates()` with its default `keep="first"`: a row is
 * dropped when an equal row occurs earlier, and the survivors keep their
 * order. Rows are compared by value, so two missing cells in the same
 * position are equal.
 */
module Deduplication {

  /** No element occurs twice. */
  predicate NoDuplicates<T(==, !new)>(s: seq<T>)
  {
    forall i, j :: 0 <= i < j < |s| ==> s[i] != s[j]
  }

  /** The position of the first occurrence of `x` in `s`. */
  function FirstIndex<T(==, !new)>(s: seq<T>, x: T): (k: nat)
    requires x in s
    ensures k < |s| && s[k] == x && x !in s[..k]
  {
    if s[0] == x then 0
    else
      var k := 1 + FirstIndex(s[1..], x);
      assert s[..k] == [s[0]] + s[1..][..k - 1];
      k
  }

  /** The first occurrence is the only position that holds `x` with no `x` before it. */
  lemma FirstIndexUnique<T(!new)>(s: seq<T>, x: T, k: nat)
    requires k < |s| && s[k] == x && x !in s[..k]
    ensures FirstIndex(s, x) == k
  {
  }

  /** Appending an element does not move the first occurrence of anything already present. */
  lemma FirstIndexOfPrefix<T(!new)>(s: seq<T>, x: T, y: T)
    requires y in s
    ensures FirstIndex(s + [x], y) == FirstIndex(s, y)
  {
    var k := FirstIndex(s, y);
    assert (s + [x])[..k] == s[..k];
    FirstIndexUnique(s + [x], y, k);
  }

  /**
   * Keeps each element the first time it occurs. The result holds every
   * element of `s` exactly once and nothing else.
   */
  function DropDuplicates<T(==, !new)>(s: seq<T>): (r: seq<T>)
    ensures |r| <= |s|
    ensures forall x :: x in r <==> x in s
    ensures NoDuplicates(r)
  {
    if s == [] then []
    else
      var x := s[|s| - 1];
      var d := DropDuplicates(s[..|s| - 1]);
      assert s == s[..|s| - 1] + [x];
      if x in d then d else d + [x]
  }

  /** Appending an element keeps it exactly when it is new. */
  lemma DropDuplicatesSnoc<T(!new)>(s: seq<T>, x: T)
    ensures DropDuplicates(s + [x]) == if x in s then DropDuplicates(s) else DropDuplicates(s) + [x]
  {
  }

  /** A repeat of an element that already occurred earlier does not affect the result. */
  lemma {:induction false} DropDuplicatesSkipsRepeat<T(!new)>(p: seq<T>, x: T, q: seq<T>)
    requires x in p
    ensures DropDuplicates(p + [x] + q) == DropDuplicates(p + q)
  {
    if q == [] {
      assert p + [x] + q == p + [x] && p + q == p;
      DropDuplicatesSnoc(p, x);
    } else {
      var q', y := q[..|q| - 1], q[|q| - 1];
      DropDuplicatesSkipsRepeat(p, x, q');
      assert p + [x] + q == (p + [x] + q') + [y];
      assert p + q == (p + q') + [y];
      DropDuplicatesSnoc(p + [x] + q', y);
      DropDuplicatesSnoc(p + q', y);
    }
  }

  /** The elements of `r` come from `s`, in the order of their first occurrences in `s`. */
  predicate InFirstOccurrenceOrder<T(==, !new)>(s: seq<T>, r: seq<T>)
  {
    (forall x :: x in r ==> x in s) &&
    forall i, j :: 0 <= i < j < |r| ==> FirstIndex(s, r[i]) < FirstIndex(s, r[j])
  }

  /**
   * The survivors are first occurrences, in their original relative order:
   * the i-th kept element is the one at position FirstIndex(s, r[i]) of `s`,
   * and those positions increase.
   */
  lemma {:induction false} DropDuplicatesInOrder<T(!new)>(s: seq<T>)
    ensures InFirstOccurrenceOrder(s, DropDuplicates(s))
  {
    if s != [] {
      var p, x := s[..|s| - 1], s[|s| - 1];
      assert s == p + [x];
      var d := DropDuplicates(p);
      DropDuplicatesInOrder(p);
      forall y | y in p
        ensures FirstIndex(s, y) == FirstIndex(p, y)
      {
        FirstIndexOfPrefix(p, x, y);
      }
      if x !in d {
        FirstIndexUnique(s, x, |p|);
        var r := d + [x];
        forall i, j | 0 <= i < j < |r|
          ensures FirstIndex(s, r[i]) < FirstIndex(s, r[j])
        {
          assert r[i] in d;
          if j < |d| {
            assert r[j] in d;
          }
        }
      }
    }
  }

  /** Counting: the result is as long as the input exactly when the input has no duplicates. */
  lemma {:induction false} DropDuplicatesLength<T(!new)>(s: seq<T>)
    ensures |DropDuplicates(s)| == |s| <==> NoDuplicates(s)
  {
    if s != [] {
      var p, x := s[..|s| - 1], s[|s| - 1];
      assert s == p + [x];
      DropDuplicatesLength(p);
      if x in p {
        var k :| 0 <= k < |p| && p[k] == x;
        assert s[k] == s[|s| - 1];
      } else if NoDuplicates(p) {
        forall i, j | 0 <= i < j < |s|
          ensures s[i] != s[j]
        {
          if j == |p| {
            assert s[i] in p;
          }
        }
      } else {
        var i, j :| 0 <= i < j < |p| && p[i] == p[j];
        assert s[i] == s[j];
      }
    }
  }

  lemma NoMembersMeansEmpty<T>(r: seq<T>)
    ensures (forall x :: x !in r) ==> r == []
  {
    if r != [] {
      assert r[0] in r;
    }
  }

  /** When the last element of `p + [x]` is new, it must also come last in `r`. */
  lemma NewElementComesLast<T(!new)>(p: seq<T>, x: T, r: seq<T>)
    requires x !in p
    requires forall y :: y in r <==> y in p + [x]
    requires InFirstOccurrenceOrder(p + [x], r)
    ensures |r| > 0 && r[|r| - 1] == x
  {
    var s := p + [x];
    assert x in r;
    FirstIndexUnique(s, x, |p|);
    var k :| 0 <= k < |r| && r[k] == x;
    assert FirstIndex(s, r[|r| - 1]) <= |p|;
    assert k == |r| - 1;
  }

  /** Removing that last element leaves a valid candidate for `p`. */
  lemma DropNewElement<T(!new)>(p: seq<T>, x: T, r: seq<T>)
    requires x !in p
    requires NoDuplicates(r)
    requires forall y :: y in r <==> y in p + [x]
    requires InFirstOccurrenceOrder(p + [x], r)
    requires |r| > 0 && r[|r| - 1] == x
    ensures NoDuplicates(r[..|r| - 1])
    ensures forall y :: y in r[..|r| - 1] <==> y in p
    ensures InFirstOccurrenceOrder(p, r[..|r| - 1])
  {
    var r' := r[..|r| - 1];
    assert r == r' + [x];
    forall y
      ensures y in r' <==> y in p
    {
      if y in r' {
        var i :| 0 <= i < |r'| && r'[i] == y;
        assert r[i] == y && i < |r| - 1;
      }
      if y in p {
        assert y in r && y != x;
      }
    }
    forall i, j | 0 <= i < j < |r'|
      ensures FirstIndex(p, r'[i]) < FirstIndex(p, r'[j])
    {
      assert r'[i] == r[i] && r'[j] == r[j];
      FirstIndexOfPrefix(p, x, r[i]);
      FirstIndexOfPrefix(p, x, r[j]);
    }
  }

  /**
   * The three properties pin the result down: any duplicate-free sequence
   * with the same elements as `s`, in first-occurrence order, is
   * DropDuplicates(s).
   */
  lemma {:induction false} DropDuplicatesUnique<T(!new)>(s: seq<T>, r: seq<T>)
    requires NoDuplicates(r)
    requires forall x :: x in r <==> x in s
    requires InFirstOccurrenceOrder(s, r)
    ensures r == DropDuplicates(s)
  {
    if s == [] {
      NoMembersMeansEmpty(r);
    } else {
      var p, x := s[..|s| - 1], s[|s| - 1];
      assert s == p + [x];
      if x in p {
        assert forall y :: y in r ==> y in p;
        forall i, j | 0 <= i < j < |r|
          ensures FirstIndex(p, r[i]) < FirstIndex(p, r[j])
        {
          FirstIndexOfPrefix(p, x, r[i]);
          FirstIndexOfPrefix(p, x, r[j]);
        }
        DropDuplicatesUnique(p, r);
      } else {
        NewElementComesLast(p, x, r);
        DropNewElement(p, x, r);
        DropDuplicatesUnique(p, r[..|r| - 1]);
        assert r == r[..|r| - 1] + [x];
      }
    }
  }

  /** On a sequence without duplicates, DropDuplicates changes nothing. */
  lemma DropDuplicatesOfDistinct<T(!new)>(s: seq<T>)
    requires NoDuplicates(s)
    ensures DropDuplicates(s) == s
  {
  }

  /** Dropping duplicates twice is the same as dropping them once. */
  lemma DropDuplicatesIdempotent<T(!new)>(s: seq<T>)
    ensures DropDuplicates(DropDuplicates(s)) == DropDuplicates(s)
  {
  }
}
