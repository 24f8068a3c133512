/** Python's `list.sort(key=key, reverse=True)`: a stable sort into descending
    key order. Any stable sort gives the same result (SortUnique), so the model
    uses insertion sort in place of CPython's Timsort. */
module StableSort {
  import opened Seqs

  /** Keys never increase from left to right. */
  ghost predicate SortedDesc<T>(s: seq<T>, key: T -> int) {
    forall i, j :: 0 <= i < j < |s| ==> key(s[i]) >= key(s[j])
  }

  /** The elements of s whose key is k, in their order in s. */
  function WithKey<T>(s: seq<T>, key: T -> int, k: int): (r: seq<T>)
    ensures |r| <= |s|
  {
    if |s| == 0 then []
    else WithKey(s[..|s| - 1], key, k) + (if key(s[|s| - 1]) == k then [s[|s| - 1]] else [])
  }

  /** For every key, the elements with that key keep their relative order. */
  ghost predicate StableFor<T>(r: seq<T>, s: seq<T>, key: T -> int) {
    forall k :: WithKey(r, key, k) == WithKey(s, key, k)
  }

  /** Places x after every element whose key is at least key(x). */
  function Insert<T>(t: seq<T>, x: T, key: T -> int): (r: seq<T>)
    ensures |r| == |t| + 1
  {
    if |t| == 0 then [x]
    else if key(t[0]) >= key(x) then [t[0]] + Insert(t[1..], x, key)
    else [x] + t
  }

  function SortDesc<T>(s: seq<T>, key: T -> int): (r: seq<T>)
    ensures |r| == |s|
  {
    if |s| == 0 then [] else Insert(SortDesc(s[..|s| - 1], key), s[|s| - 1], key)
  }

  lemma {:induction false} WithKeyFront<T>(x: T, t: seq<T>, key: T -> int, k: int)
    ensures WithKey([x] + t, key, k) == (if key(x) == k then [x] else []) + WithKey(t, key, k)
    decreases |t|
  {
    if |t| > 0 {
      var s := [x] + t;
      TakeAllButLastAppend([x], t);
      assert s[|s| - 1] == t[|t| - 1];
      WithKeyFront(x, t[..|t| - 1], key, k);
    } else {
      assert [x] + t == [x];
      assert [x][..0] == [];
    }
  }

  lemma {:induction false} InsertMultiset<T>(t: seq<T>, x: T, key: T -> int)
    ensures multiset(Insert(t, x, key)) == multiset(t) + multiset{x}
  {
    if |t| > 0 && key(t[0]) >= key(x) {
      InsertMultiset(t[1..], x, key);
      SplitFirst(t);
    }
  }

  /** The result is a rearrangement of the input. */
  lemma {:induction false} SortDescPermutation<T>(s: seq<T>, key: T -> int)
    ensures multiset(SortDesc(s, key)) == multiset(s)
  {
    if |s| > 0 {
      SortDescPermutation(s[..|s| - 1], key);
      InsertMultiset(SortDesc(s[..|s| - 1], key), s[|s| - 1], key);
      SplitLast(s);
    }
  }

  lemma {:induction false} InsertDistinct<T>(t: seq<T>, x: T, key: T -> int)
    requires Distinct(t) && x !in t
    ensures Distinct(Insert(t, x, key))
    decreases |t|
  {
    if |t| > 0 {
      if key(t[0]) >= key(x) {
        var r := Insert(t[1..], x, key);
        assert Distinct(t[1..]) && t[0] !in t[1..] && x !in t[1..];
        InsertDistinct(t[1..], x, key);
        InsertMultiset(t[1..], x, key);
        assert t[0] !in multiset(r);
        DistinctConcat([t[0]], r);
      } else {
        DistinctConcat([x], t);
      }
    }
  }

  /** Sorting a repetition-free sequence gives a repetition-free sequence. */
  lemma {:induction false} SortDescDistinct<T>(s: seq<T>, key: T -> int)
    requires Distinct(s)
    ensures Distinct(SortDesc(s, key))
  {
    if |s| > 0 {
      var front := s[..|s| - 1];
      DistinctLast(s);
      SortDescDistinct(front, key);
      SortDescPermutation(front, key);
      assert s[|s| - 1] !in multiset(SortDesc(front, key));
      InsertDistinct(SortDesc(front, key), s[|s| - 1], key);
    }
  }

  lemma {:induction false} InsertSorted<T>(t: seq<T>, x: T, key: T -> int)
    requires SortedDesc(t, key)
    ensures SortedDesc(Insert(t, x, key), key)
    ensures |Insert(t, x, key)| > 0 && (key(Insert(t, x, key)[0]) == key(x) || (|t| > 0 && key(Insert(t, x, key)[0]) == key(t[0])))
  {
    if |t| > 0 && key(t[0]) >= key(x) {
      InsertSorted(t[1..], x, key);
      var r := Insert(t[1..], x, key);
      assert forall j :: 0 <= j < |r| ==> key(t[0]) >= key(r[j]) by {
        InsertMultiset(t[1..], x, key);
        forall j | 0 <= j < |r| ensures key(t[0]) >= key(r[j]) {
          assert r[j] in multiset(r);
          assert r[j] == x || r[j] in multiset(t[1..]);
        }
      }
    }
  }

  /** The result is in descending key order. */
  lemma {:induction false} SortDescSorted<T>(s: seq<T>, key: T -> int)
    ensures SortedDesc(SortDesc(s, key), key)
  {
    if |s| > 0 {
      SortDescSorted(s[..|s| - 1], key);
      InsertSorted(SortDesc(s[..|s| - 1], key), s[|s| - 1], key);
    }
  }

  lemma {:induction false} InsertWithKey<T>(t: seq<T>, x: T, key: T -> int, k: int)
    requires SortedDesc(t, key)
    ensures WithKey(Insert(t, x, key), key, k) == WithKey(t, key, k) + (if key(x) == k then [x] else [])
    decreases |t|
  {
    if |t| == 0 {
      assert [x][..0] == [];
    } else if key(t[0]) >= key(x) {
      SortedTail(t, key);
      InsertWithKey(t[1..], x, key, k);
      InsertWithKeyAfterFirst(t, x, key, k);
    } else {
      InsertWithKeyBeforeAll(t, x, key, k);
    }
  }

  /** The suffix of a sequence in descending order is in descending order. */
  lemma SortedTail<T>(t: seq<T>, key: T -> int)
    requires |t| > 0 && SortedDesc(t, key)
    ensures SortedDesc(t[1..], key)
  {
  }

  /** Every key of a sequence in descending order is at most its first key. */
  lemma SortedBelowFirst<T>(t: seq<T>, key: T -> int)
    requires |t| > 0 && SortedDesc(t, key)
    ensures forall i :: 0 <= i < |t| ==> key(t[i]) <= key(t[0])
  {
  }

  lemma InsertWithKeyAfterFirst<T>(t: seq<T>, x: T, key: T -> int, k: int)
    requires |t| > 0 && key(t[0]) >= key(x)
    requires WithKey(Insert(t[1..], x, key), key, k) == WithKey(t[1..], key, k) + (if key(x) == k then [x] else [])
    ensures WithKey(Insert(t, x, key), key, k) == WithKey(t, key, k) + (if key(x) == k then [x] else [])
  {
    WithKeyFront(t[0], Insert(t[1..], x, key), key, k);
    WithKeyFront(t[0], t[1..], key, k);
    SplitFirst(t);
  }

  lemma InsertWithKeyBeforeAll<T>(t: seq<T>, x: T, key: T -> int, k: int)
    requires |t| > 0 && SortedDesc(t, key) && key(t[0]) < key(x)
    ensures WithKey(Insert(t, x, key), key, k) == WithKey(t, key, k) + (if key(x) == k then [x] else [])
  {
    // every element of t has a key below key(x), so none of them has key k when key(x) == k
    WithKeyFront(x, t, key, k);
    if key(x) == k {
      SortedBelowFirst(t, key);
      WithKeyNone(t, key, k);
    }
  }

  lemma {:induction false} WithKeyNone<T>(t: seq<T>, key: T -> int, k: int)
    requires forall i :: 0 <= i < |t| ==> key(t[i]) != k
    ensures |WithKey(t, key, k)| == 0
  {
    if |t| > 0 {
      WithKeyNone(t[..|t| - 1], key, k);
    }
  }

  /** Elements with equal keys keep their input order: the sort is stable. */
  lemma {:induction false} SortDescStable<T>(s: seq<T>, key: T -> int)
    ensures StableFor(SortDesc(s, key), s, key)
  {
    forall k ensures WithKey(SortDesc(s, key), key, k) == WithKey(s, key, k) {
      SortDescStableAt(s, key, k);
    }
  }

  lemma {:induction false} SortDescStableAt<T>(s: seq<T>, key: T -> int, k: int)
    ensures WithKey(SortDesc(s, key), key, k) == WithKey(s, key, k)
  {
    if |s| > 0 {
      SortDescStableAt(s[..|s| - 1], key, k);
      SortDescSorted(s[..|s| - 1], key);
      InsertWithKey(SortDesc(s[..|s| - 1], key), s[|s| - 1], key, k);
    }
  }

  lemma {:induction false} WithKeyEmpty<T>(s: seq<T>, key: T -> int, k: int, i: nat)
    requires i < |s| && key(s[i]) == k
    ensures |WithKey(s, key, k)| > 0
  {
    if i < |s| - 1 {
      WithKeyEmpty(s[..|s| - 1], key, k, i);
    }
  }

  lemma {:induction false} WithKeyDropLast<T>(s: seq<T>, key: T -> int, k: int)
    requires |s| > 0
    ensures WithKey(s[..|s| - 1], key, k) == (if key(s[|s| - 1]) == k then WithKey(s, key, k)[..|WithKey(s, key, k)| - 1] else WithKey(s, key, k))
  {
  }

  /** Sorting is determined by its two promises: a sequence that is in descending
      key order and keeps every key's elements in the order of s is equal to
      SortDesc(s, key) when it is a rearrangement of s. */
  lemma {:induction false} SortUnique<T>(r1: seq<T>, r2: seq<T>, key: T -> int)
    requires SortedDesc(r1, key) && SortedDesc(r2, key)
    requires StableFor(r1, r2, key)
    ensures r1 == r2
    decreases |r1| + |r2|
  {
    if |r1| == 0 || |r2| == 0 {
      if |r1| > 0 {
        WithKeyEmpty(r1, key, key(r1[0]), 0);
      } else if |r2| > 0 {
        WithKeyEmpty(r2, key, key(r2[0]), 0);
      }
    } else {
      SortUniqueStep(r1, r2, key);
      SortUnique(r1[..|r1| - 1], r2[..|r2| - 1], key);
      SplitLast(r1);
      SplitLast(r2);
    }
  }

  /** Two non-empty sorted sequences with the same per-key order end alike, and
      what precedes their last elements is again sorted with the same per-key order. */
  lemma SortUniqueStep<T>(r1: seq<T>, r2: seq<T>, key: T -> int)
    requires |r1| > 0 && |r2| > 0
    requires SortedDesc(r1, key) && SortedDesc(r2, key)
    requires StableFor(r1, r2, key)
    ensures r1[|r1| - 1] == r2[|r2| - 1]
    ensures SortedDesc(r1[..|r1| - 1], key) && SortedDesc(r2[..|r2| - 1], key)
    ensures StableFor(r1[..|r1| - 1], r2[..|r2| - 1], key)
  {
    LastKeyLeast(r1, r2, key);
    LastKeyLeast(r2, r1, key);
    LastWithKey(r1, key);
    LastWithKey(r2, key);
    var f1, f2 := r1[..|r1| - 1], r2[..|r2| - 1];
    forall k ensures WithKey(f1, key, k) == WithKey(f2, key, k) {
      WithKeyDropLast(r1, key, k);
      WithKeyDropLast(r2, key, k);
    }
  }

  /** The last element of a sequence in descending order carries its least key. */
  lemma LastKeyLeast<T>(r1: seq<T>, r2: seq<T>, key: T -> int)
    requires |r1| > 0 && |r2| > 0
    requires SortedDesc(r2, key) && StableFor(r1, r2, key)
    ensures key(r1[|r1| - 1]) >= key(r2[|r2| - 1])
  {
    var k := key(r1[|r1| - 1]);
    WithKeyEmpty(r1, key, k, |r1| - 1);
    assert |WithKey(r2, key, k)| > 0;
    KeyOccurs(r2, key, k);
  }

  lemma LastWithKey<T>(s: seq<T>, key: T -> int)
    requires |s| > 0
    ensures |WithKey(s, key, key(s[|s| - 1]))| > 0
    ensures WithKey(s, key, key(s[|s| - 1]))[|WithKey(s, key, key(s[|s| - 1]))| - 1] == s[|s| - 1]
  {
  }

  lemma {:induction false} KeyOccurs<T>(s: seq<T>, key: T -> int, k: int)
    requires |WithKey(s, key, k)| > 0
    ensures exists i :: 0 <= i < |s| && key(s[i]) == k
  {
    if key(s[|s| - 1]) != k {
      KeyOccurs(s[..|s| - 1], key, k);
      var i :| 0 <= i < |s| - 1 && key(s[..|s| - 1][i]) == k;
      assert key(s[i]) == k;
    }
  }

  /** Hence SortDesc is the only stable descending sort. */
  lemma SortDescUnique<T>(s: seq<T>, r: seq<T>, key: T -> int)
    requires SortedDesc(r, key) && StableFor(r, s, key)
    ensures r == SortDesc(s, key)
  {
    SortDescSorted(s, key);
    SortDescStable(s, key);
    SortUnique(r, SortDesc(s, key), key);
  }
}
