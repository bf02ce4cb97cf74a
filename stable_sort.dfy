/**
 * `Array.prototype.sort` with a comparator `(a, b) => key(b) - key(a)`:
 * a stable sort into descending key order (stability is required of the
 * sort since the 10th edition of ECMA-262). Every stable sort produces the
 * same output, so the functional insertion sort SortDesc is its reference
 * definition, and SortInPlace performs it on an array.
 */
module StableSort {

  /** Inserts x after every element whose key is at least key(x). */
  function Insert<T>(t: seq<T>, x: T, key: T -> int): (r: seq<T>)
    ensures |r| == |t| + 1
  {
    if t == [] || key(t[|t| - 1]) >= key(x) then t + [x]
    else Insert(t[..|t| - 1], x, key) + [t[|t| - 1]]
  }

  function SortDesc<T>(s: seq<T>, key: T -> int): (r: seq<T>)
    ensures |r| == |s|
  {
    if s == [] then []
    else Insert(SortDesc(s[..|s| - 1], key), s[|s| - 1], key)
  }

  lemma {:induction false} InsertPermutation<T>(t: seq<T>, x: T, key: T -> int)
    ensures multiset(Insert(t, x, key)) == multiset(t) + multiset{x}
  {
    if t != [] && key(t[|t| - 1]) < key(x) {
      InsertPermutation(t[..|t| - 1], x, key);
      assert t == t[..|t| - 1] + [t[|t| - 1]];
    }
  }

  /** The sort is a permutation of its input. */
  lemma {:induction false} SortDescPermutation<T>(s: seq<T>, key: T -> int)
    ensures multiset(SortDesc(s, key)) == multiset(s)
  {
    if s != [] {
      SortDescPermutation(s[..|s| - 1], key);
      InsertPermutation(SortDesc(s[..|s| - 1], key), s[|s| - 1], key);
      assert s == s[..|s| - 1] + [s[|s| - 1]];
    }
  }

  ghost predicate SortedDesc<T>(s: seq<T>, key: T -> int) {
    forall i, j :: 0 <= i < j < |s| ==> key(s[i]) >= key(s[j])
  }

  /** The position of the first element of maximal key. */
  function FirstMaxIndex<T>(s: seq<T>, key: T -> int): (k: nat)
    requires |s| > 0
    ensures k < |s|
    ensures forall j :: 0 <= j < |s| ==> key(s[j]) <= key(s[k])
    ensures forall j :: 0 <= j < k ==> key(s[j]) < key(s[k])
  {
    if |s| == 1 then 0
    else
      var m := FirstMaxIndex(s[..|s| - 1], key);
      if key(s[|s| - 1]) > key(s[m]) then |s| - 1 else m
  }

  lemma {:induction false} InsertSorted<T>(t: seq<T>, x: T, key: T -> int)
    requires SortedDesc(t, key)
    ensures SortedDesc(Insert(t, x, key), key)
  {
    if t != [] && key(t[|t| - 1]) < key(x) {
      var p, last := t[..|t| - 1], t[|t| - 1];
      var u := Insert(p, x, key);
      InsertSorted(p, x, key);
      InsertPermutation(p, x, key);
      forall i | 0 <= i < |u|
        ensures key(u[i]) >= key(last)
      {
        assert u[i] in multiset(u);
        if u[i] != x {
          assert u[i] in multiset(p);
          var k :| 0 <= k < |p| && p[k] == u[i];
          assert t[k] == p[k];
        }
      }
    }
  }

  /** The output of the sort is in descending key order. */
  lemma {:induction false} SortDescSorted<T>(s: seq<T>, key: T -> int)
    ensures SortedDesc(SortDesc(s, key), key)
  {
    if s != [] {
      SortDescSorted(s[..|s| - 1], key);
      InsertSorted(SortDesc(s[..|s| - 1], key), s[|s| - 1], key);
    }
  }

  lemma {:induction false} InsertHead<T>(t: seq<T>, x: T, key: T -> int)
    requires SortedDesc(t, key)
    ensures Insert(t, x, key)[0] == if t != [] && key(t[0]) >= key(x) then t[0] else x
  {
    if t != [] && key(t[|t| - 1]) < key(x) {
      var p := t[..|t| - 1];
      if p != [] {
        InsertHead(p, x, key);
        assert p[0] == t[0];
      }
    }
  }

  /**
   * Stability at the head: the first element of the sorted output is the
   * earliest element of maximal key in the input.
   */
  lemma {:induction false} SortDescHead<T>(s: seq<T>, key: T -> int)
    requires |s| > 0
    ensures SortDesc(s, key)[0] == s[FirstMaxIndex(s, key)]
  {
    var p := s[..|s| - 1];
    SortDescSorted(p, key);
    InsertHead(SortDesc(p, key), s[|s| - 1], key);
    if |s| > 1 {
      SortDescHead(p, key);
      assert p[FirstMaxIndex(p, key)] == s[FirstMaxIndex(p, key)];
    }
  }

  lemma {:induction false} InsertCongruent<T>(t: seq<T>, x: T, k1: T -> int, k2: T -> int)
    requires forall i :: 0 <= i < |t| ==> k1(t[i]) == k2(t[i])
    requires k1(x) == k2(x)
    ensures Insert(t, x, k1) == Insert(t, x, k2)
  {
    if t != [] {
      InsertCongruent(t[..|t| - 1], x, k1, k2);
    }
  }

  /** The sort only consults the key at the elements being sorted. */
  lemma {:induction false} SortDescCongruent<T>(s: seq<T>, k1: T -> int, k2: T -> int)
    requires forall i :: 0 <= i < |s| ==> k1(s[i]) == k2(s[i])
    ensures SortDesc(s, k1) == SortDesc(s, k2)
  {
    if s != [] {
      var p := s[..|s| - 1];
      SortDescCongruent(p, k1, k2);
      var t := SortDesc(p, k1);
      SortDescPermutation(p, k1);
      forall i | 0 <= i < |t|
        ensures k1(t[i]) == k2(t[i])
      {
        assert t[i] in multiset(p);
        var k :| 0 <= k < |p| && p[k] == t[i];
        assert s[k] == p[k];
      }
      InsertCongruent(t, s[|s| - 1], k1, k2);
    }
  }

  /**
   * Insert, read from the right: x lands at position j when every element
   * from j on has a smaller key and the one before j (if any) does not.
   */
  lemma {:induction false} InsertAt<T>(t: seq<T>, x: T, key: T -> int, j: nat)
    requires j <= |t|
    requires j == 0 || key(t[j - 1]) >= key(x)
    requires forall k :: j <= k < |t| ==> key(t[k]) < key(x)
    ensures Insert(t, x, key) == t[..j] + [x] + t[j..]
    decreases |t|
  {
    if j == |t| {
      assert t[..j] == t && t[j..] == [];
    } else {
      var p, last := t[..|t| - 1], t[|t| - 1];
      InsertAtStep(t, x, key, j);
      InsertAt(p, x, key, j);
      assert p[..j] == t[..j];
      assert t[j..] == p[j..] + [last];
    }
  }

  /** The inductive step of InsertAt: dropping the last element keeps its premises. */
  lemma InsertAtStep<T>(t: seq<T>, x: T, key: T -> int, j: nat)
    requires j < |t|
    requires j == 0 || key(t[j - 1]) >= key(x)
    requires forall k :: j <= k < |t| ==> key(t[k]) < key(x)
    ensures Insert(t, x, key) == Insert(t[..|t| - 1], x, key) + [t[|t| - 1]]
  {
  }

  /** Moves a[i] left past the elements of a[..i] with a smaller key. */
  method InsertInPlace<T>(a: array<T>, i: nat, key: T -> int)
    requires i < a.Length
    modifies a
    ensures a[..i + 1] == Insert(old(a[..i]), old(a[i]), key)
    ensures a[i + 1..] == old(a[i + 1..])
  {
    ghost var t := a[..i];
    var x := a[i];
    var j := i;
    while j > 0 && key(a[j - 1]) < key(x)
      invariant 0 <= j <= i
      invariant forall k :: 0 <= k < j ==> a[k] == t[k]
      invariant forall k :: j < k <= i ==> a[k] == t[k - 1]
      invariant forall k :: j <= k < i ==> key(t[k]) < key(x)
      invariant forall k :: i < k < a.Length ==> a[k] == old(a[k])
    {
      a[j] := a[j - 1];
      j := j - 1;
    }
    a[j] := x;
    InsertPlaced(a[..], t, x, key, j);
    assert a[i + 1..] == old(a[i + 1..]);
  }

  /** A sequence laid out as the inner loop of InsertInPlace leaves the array begins with Insert(t, x). */
  lemma InsertPlaced<T>(b: seq<T>, t: seq<T>, x: T, key: T -> int, j: nat)
    requires j <= |t| < |b|
    requires j == 0 || key(t[j - 1]) >= key(x)
    requires forall k :: j <= k < |t| ==> key(t[k]) < key(x)
    requires forall k :: 0 <= k < j ==> b[k] == t[k]
    requires b[j] == x
    requires forall k :: j < k <= |t| ==> b[k] == t[k - 1]
    ensures b[..|t| + 1] == Insert(t, x, key)
  {
    InsertAt(t, x, key, j);
    var lhs, rhs := b[..|t| + 1], t[..j] + [x] + t[j..];
    forall k | 0 <= k < |lhs|
      ensures lhs[k] == rhs[k]
    {
      if k < j {
        assert rhs[k] == t[k];
      } else if k > j {
        assert rhs[k] == t[k - 1];
      }
    }
    assert lhs == rhs;
  }

  /** Sorts a in place, stably, into descending key order. */
  method SortInPlace<T>(a: array<T>, key: T -> int)
    modifies a
    ensures a[..] == SortDesc(old(a[..]), key)
  {
    ghost var s := a[..];
    var i := 0;
    while i < a.Length
      invariant 0 <= i <= a.Length
      invariant a[..i] == SortDesc(s[..i], key)
      invariant a[i..] == s[i..]
    {
      ghost var before := a[..];
      assert before[i] == s[i] by {
        assert before[i..][0] == before[i] && s[i..][0] == s[i];
      }
      assert before[i + 1..] == s[i + 1..] by {
        assert before[i + 1..] == before[i..][1..] && s[i + 1..] == s[i..][1..];
      }
      InsertInPlace(a, i, key);
      assert SortDesc(s[..i + 1], key) == Insert(SortDesc(s[..i], key), s[i], key) by {
        assert s[..i + 1][..i] == s[..i] && s[..i + 1][i] == s[i];
      }
      i := i + 1;
    }
    assert a[..] == a[..a.Length];
    assert s == s[..a.Length];
  }
}
