/** `Array.prototype.sort` with a comparator: a stable sort (ECMAScript 2019 on).
    The specification is a functional insertion sort; `SortInPlace` runs the same
    insertion sort on an array and is proved to produce exactly that sequence. */
module StableSort {

  /** What the sort expects of its comparator: the sign flips when the arguments are
      swapped, and "not after" is transitive. Ties are then an equivalence. */
  ghost predicate IsComparator<T(!new)>(cmp: (T, T) -> int) {
    (forall a, b :: cmp(a, b) < 0 <==> cmp(b, a) > 0) &&
    (forall a, b, c :: cmp(a, b) <= 0 && cmp(b, c) <= 0 ==> cmp(a, c) <= 0)
  }

  /** No element is placed after one that the comparator puts behind it. */
  ghost predicate Sorted<T>(cmp: (T, T) -> int, s: seq<T>) {
    forall i, j :: 0 <= i < j < |s| ==> cmp(s[i], s[j]) <= 0
  }

  /** The elements of `s` that tie with `x`, in the order `s` holds them. */
  function Tied<T>(cmp: (T, T) -> int, s: seq<T>, x: T): seq<T>
  {
    if s == [] then []
    else Tied(cmp, s[..|s| - 1], x) + (if cmp(s[|s| - 1], x) == 0 then [s[|s| - 1]] else [])
  }

  /** Ties keep their relative order: for every element, the run of elements tied with
      it is the same in `r` as in `s`. */
  ghost predicate Stable<T(!new)>(cmp: (T, T) -> int, s: seq<T>, r: seq<T>) {
    forall x :: Tied(cmp, r, x) == Tied(cmp, s, x)
  }

  /** Inserts `x` behind every element of `s` that does not compare greater than it,
      scanning from the right as the array version does. */
  function Insert<T>(cmp: (T, T) -> int, x: T, s: seq<T>): seq<T>
  {
    if s == [] then [x]
    else if cmp(s[|s| - 1], x) > 0 then Insert(cmp, x, s[..|s| - 1]) + [s[|s| - 1]]
    else s + [x]
  }

  /** Insertion sort: each element, from left to right, is inserted into the sorted prefix. */
  function InsertionSort<T>(cmp: (T, T) -> int, s: seq<T>): seq<T>
  {
    if s == [] then []
    else Insert(cmp, s[|s| - 1], InsertionSort(cmp, s[..|s| - 1]))
  }

  lemma {:induction false} InsertPermutes<T>(cmp: (T, T) -> int, x: T, s: seq<T>)
    ensures multiset(Insert(cmp, x, s)) == multiset(s) + multiset{x}
    ensures |Insert(cmp, x, s)| == |s| + 1
  {
    if s != [] && cmp(s[|s| - 1], x) > 0 {
      InsertPermutes(cmp, x, s[..|s| - 1]);
      assert s == s[..|s| - 1] + [s[|s| - 1]];
    }
  }

  /** The sort only rearranges: the output is a permutation of the input. */
  lemma {:induction false} InsertionSortPermutes<T>(cmp: (T, T) -> int, s: seq<T>)
    ensures multiset(InsertionSort(cmp, s)) == multiset(s)
    ensures |InsertionSort(cmp, s)| == |s|
  {
    if s != [] {
      var init, last := s[..|s| - 1], s[|s| - 1];
      InsertionSortPermutes(cmp, init);
      InsertPermutes(cmp, last, InsertionSort(cmp, init));
      assert s == init + [last];
      assert multiset(s) == multiset(init) + multiset{last};
    }
  }

  /** No element of `s` compares greater than `y`. */
  ghost predicate NoneAfter<T>(cmp: (T, T) -> int, s: seq<T>, y: T) {
    forall i :: 0 <= i < |s| ==> cmp(s[i], y) <= 0
  }

  lemma SortedAppend<T>(cmp: (T, T) -> int, s: seq<T>, y: T)
    requires Sorted(cmp, s) && NoneAfter(cmp, s, y)
    ensures Sorted(cmp, s + [y])
  {
  }

  lemma InsertKeepsBound<T>(cmp: (T, T) -> int, x: T, s: seq<T>, y: T)
    requires NoneAfter(cmp, s, y) && cmp(x, y) <= 0
    ensures NoneAfter(cmp, Insert(cmp, x, s), y)
  {
    InsertPermutes(cmp, x, s);
    var t := Insert(cmp, x, s);
    forall i | 0 <= i < |t|
      ensures cmp(t[i], y) <= 0
    {
      assert t[i] in multiset(s) + multiset{x} by {
        assert t[i] in multiset(t);
      }
      if t[i] != x {
        var k :| 0 <= k < |s| && s[k] == t[i];
      }
    }
  }

  lemma {:induction false} InsertSorted<T(!new)>(cmp: (T, T) -> int, x: T, s: seq<T>)
    requires IsComparator(cmp)
    requires Sorted(cmp, s)
    ensures Sorted(cmp, Insert(cmp, x, s))
  {
    if s != [] {
      var init, last := s[..|s| - 1], s[|s| - 1];
      assert NoneAfter(cmp, init, last);
      if cmp(last, x) > 0 {
        assert Sorted(cmp, init);
        InsertSorted(cmp, x, init);
        InsertKeepsBound(cmp, x, init, last);
        SortedAppend(cmp, Insert(cmp, x, init), last);
      } else {
        assert NoneAfter(cmp, s, x) by {
          forall i | 0 <= i < |s|
            ensures cmp(s[i], x) <= 0
          {
            if i < |s| - 1 {
              assert cmp(s[i], last) <= 0;
            }
          }
        }
        SortedAppend(cmp, s, x);
      }
    }
  }

  /** The sort's output is sorted under any comparator. */
  lemma {:induction false} InsertionSortSorted<T(!new)>(cmp: (T, T) -> int, s: seq<T>)
    requires IsComparator(cmp)
    ensures Sorted(cmp, InsertionSort(cmp, s))
  {
    if s != [] {
      InsertionSortSorted(cmp, s[..|s| - 1]);
      InsertSorted(cmp, s[|s| - 1], InsertionSort(cmp, s[..|s| - 1]));
    }
  }

  lemma {:induction false} TiedAppend<T>(cmp: (T, T) -> int, s: seq<T>, t: seq<T>, x: T)
    ensures Tied(cmp, s + t, x) == Tied(cmp, s, x) + Tied(cmp, t, x)
    decreases |t|
  {
    if t == [] {
      assert s + t == s;
    } else {
      TiedAppend(cmp, s, t[..|t| - 1], x);
      assert (s + t)[..|s + t| - 1] == s + t[..|t| - 1];
    }
  }

  /** Two elements that do not tie with each other cannot both tie with a third. */
  lemma TiedSwap<T(!new)>(cmp: (T, T) -> int, a: T, b: T, y: T)
    requires IsComparator(cmp)
    requires cmp(a, b) != 0
    ensures Tied(cmp, [a], y) + Tied(cmp, [b], y) == Tied(cmp, [b], y) + Tied(cmp, [a], y)
  {
    assert cmp(a, y) == 0 && cmp(b, y) == 0 ==> cmp(y, b) == 0 && cmp(y, a) == 0;
  }

  lemma {:induction false} InsertStable<T(!new)>(cmp: (T, T) -> int, x: T, s: seq<T>, y: T)
    requires IsComparator(cmp)
    ensures Tied(cmp, Insert(cmp, x, s), y) == Tied(cmp, s + [x], y)
  {
    if s != [] && cmp(s[|s| - 1], x) > 0 {
      var init, last := s[..|s| - 1], s[|s| - 1];
      assert s == init + [last];
      calc {
        Tied(cmp, Insert(cmp, x, s), y);
        Tied(cmp, Insert(cmp, x, init) + [last], y);
        { TiedAppend(cmp, Insert(cmp, x, init), [last], y); }
        Tied(cmp, Insert(cmp, x, init), y) + Tied(cmp, [last], y);
        { InsertStable(cmp, x, init, y); TiedAppend(cmp, init, [x], y); }
        Tied(cmp, init, y) + Tied(cmp, [x], y) + Tied(cmp, [last], y);
        { TiedSwap(cmp, x, last, y); }
        Tied(cmp, init, y) + Tied(cmp, [last], y) + Tied(cmp, [x], y);
        { TiedAppend(cmp, init, [last], y); TiedAppend(cmp, s, [x], y); }
        Tied(cmp, s + [x], y);
      }
    }
  }

  /** The sort is stable: elements that tie keep their input order. */
  lemma {:induction false} InsertionSortStable<T(!new)>(cmp: (T, T) -> int, s: seq<T>)
    requires IsComparator(cmp)
    ensures Stable(cmp, s, InsertionSort(cmp, s))
  {
    if s != [] {
      var init, last := s[..|s| - 1], s[|s| - 1];
      InsertionSortStable(cmp, init);
      assert s == init + [last];
      forall y
        ensures Tied(cmp, InsertionSort(cmp, s), y) == Tied(cmp, s, y)
      {
        calc {
          Tied(cmp, InsertionSort(cmp, s), y);
          Tied(cmp, Insert(cmp, last, InsertionSort(cmp, init)), y);
          { InsertStable(cmp, last, InsertionSort(cmp, init), y); }
          Tied(cmp, InsertionSort(cmp, init) + [last], y);
          { TiedAppend(cmp, InsertionSort(cmp, init), [last], y); }
          Tied(cmp, InsertionSort(cmp, init), y) + Tied(cmp, [last], y);
          Tied(cmp, init, y) + Tied(cmp, [last], y);
          { TiedAppend(cmp, init, [last], y); }
          Tied(cmp, s, y);
        }
      }
    }
  }

  /** `Insert` places `x` right after the last element that does not compare greater. */
  lemma {:induction false} InsertSplits<T>(cmp: (T, T) -> int, x: T, s: seq<T>, j: int)
    requires 0 <= j <= |s|
    requires j == 0 || cmp(s[j - 1], x) <= 0
    requires forall k :: j <= k < |s| ==> cmp(s[k], x) > 0
    ensures Insert(cmp, x, s) == s[..j] + [x] + s[j..]
    decreases |s|
  {
    if j < |s| {
      var init := s[..|s| - 1];
      InsertSplits(cmp, x, init, j);
      assert init[..j] == s[..j];
      assert init[j..] + [s[|s| - 1]] == s[j..];
    } else {
      assert s[..j] == s;
    }
  }

  /** One step of the array sort: moves `a[i]` left past every larger element of the
      prefix `a[..i]`, shifting those one slot right. */
  method InsertInPlace<T>(a: array<T>, i: int, cmp: (T, T) -> int)
    requires 0 <= i < a.Length
    modifies a
    ensures a[..i + 1] == Insert(cmp, old(a[i]), old(a[..i]))
    ensures a[i + 1..] == old(a[i + 1..])
  {
    var x := a[i];
    ghost var done := a[..i];
    var j := i;
    while j > 0 && cmp(a[j - 1], x) > 0
      invariant 0 <= j <= i
      invariant forall k :: 0 <= k < j ==> a[k] == done[k]
      invariant forall k :: j < k <= i ==> a[k] == done[k - 1]
      invariant forall k :: i < k < a.Length ==> a[k] == old(a[k])
      invariant forall k :: j <= k < i ==> cmp(done[k], x) > 0
    {
      a[j] := a[j - 1];
      j := j - 1;
    }
    a[j] := x;
    InsertSplits(cmp, x, done, j);
    assert a[..i + 1] == done[..j] + [x] + done[j..];
  }

  /** Sorts `a` in place by insertion, left to right. */
  method SortInPlace<T>(a: array<T>, cmp: (T, T) -> int)
    modifies a
    ensures a[..] == InsertionSort(cmp, old(a[..]))
  {
    ghost var input := a[..];
    var i := 0;
    while i < a.Length
      invariant 0 <= i <= a.Length
      invariant a[..i] == InsertionSort(cmp, input[..i])
      invariant a[i..] == input[i..]
    {
      assert input[..i + 1][..i] == input[..i];
      InsertInPlace(a, i, cmp);
      i := i + 1;
    }
    assert input[..a.Length] == input;
  }
}
