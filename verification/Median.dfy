/** The median of up to eleven block times, and why a later block cannot pull it back. */
module Median {
  import opened Words

  const WINDOW := 11

  ghost predicate Sorted(s: seq<u32>) {
    forall i, j :: 0 <= i < j < |s| ==> s[i] <= s[j]
  }

  function Insert(x: u32, s: seq<u32>): (r: seq<u32>)
    ensures |r| == |s| + 1
    ensures multiset(r) == multiset(s) + multiset{x}
  {
    if s == [] || x <= s[0] then [x] + s
    else
      assert s == [s[0]] + s[1..];
      [s[0]] + Insert(x, s[1..])
  }

  /** What std::sort leaves: the one sorted arrangement. */
  function Sort(s: seq<u32>): (r: seq<u32>)
    ensures |r| == |s|
    ensures multiset(r) == multiset(s)
  {
    if s == [] then []
    else
      assert s == [s[0]] + s[1..];
      Insert(s[0], Sort(s[1..]))
  }

  lemma {:induction false} InsertSorted(x: u32, s: seq<u32>)
    requires Sorted(s)
    ensures Sorted(Insert(x, s))
    ensures forall y :: y in Insert(x, s) ==> y == x || y in s
  {
    if s == [] || x <= s[0] {
    } else {
      InsertSorted(x, s[1..]);
      var r := Insert(x, s[1..]);
      forall i | 0 <= i < |r|
        ensures s[0] <= r[i]
      {
        assert r[i] in r;
      }
    }
  }

  lemma {:induction false} SortSorts(s: seq<u32>)
    ensures Sorted(Sort(s))
  {
    if s != [] {
      SortSorts(s[1..]);
      InsertSorted(s[0], Sort(s[1..]));
    }
  }

  /** The element std::sort leaves at index size / 2. */
  function UpperMedian(s: seq<u32>): u32
    requires s != []
  {
    Sort(s)[|s| / 2]
  }

  /** How many elements are smaller than m. */
  function Below(s: seq<u32>, m: int): (n: nat)
    ensures n <= |s|
  {
    if s == [] then 0 else (if s[0] < m then 1 else 0) + Below(s[1..], m)
  }

  lemma {:induction false} BelowAppend(s: seq<u32>, t: seq<u32>, m: int)
    ensures Below(s + t, m) == Below(s, m) + Below(t, m)
  {
    if s == [] {
      assert s + t == t;
    } else {
      assert (s + t)[1..] == s[1..] + t;
      BelowAppend(s[1..], t, m);
    }
  }

  lemma {:induction false} BelowInsert(x: u32, s: seq<u32>, m: int)
    ensures Below(Insert(x, s), m) == (if x < m then 1 else 0) + Below(s, m)
  {
    if s == [] || x <= s[0] {
      assert ([x] + s)[1..] == s;
    } else {
      BelowInsert(x, s[1..], m);
      assert Insert(x, s)[1..] == Insert(x, s[1..]);
    }
  }

  lemma {:induction false} BelowSort(s: seq<u32>, m: int)
    ensures Below(Sort(s), m) == Below(s, m)
  {
    if s != [] {
      BelowSort(s[1..], m);
      BelowInsert(s[0], Sort(s[1..]), m);
    }
  }

  /** In a sorted sequence the elements below m come first. */
  lemma {:induction false} BelowOfSorted(s: seq<u32>, m: int, k: nat)
    requires Sorted(s) && k < |s|
    ensures s[k] >= m <==> Below(s, m) <= k
  {
    if k == 0 {
      if s[0] >= m { NoneBelow(s, m); }
    } else {
      BelowOfSorted(s[1..], m, k - 1);
      if s[0] >= m { NoneBelow(s, m); }
    }
  }

  lemma {:induction false} NoneBelow(s: seq<u32>, m: int)
    requires forall i :: 0 <= i < |s| ==> s[i] >= m
    ensures Below(s, m) == 0
  {
    if s != [] { NoneBelow(s[1..], m); }
  }

  /** The median is at least m exactly when at most half the elements are below m. */
  lemma MedianAtLeast(s: seq<u32>, m: int)
    requires s != []
    ensures UpperMedian(s) >= m <==> Below(s, m) <= |s| / 2
  {
    SortSorts(s);
    BelowSort(s, m);
    BelowOfSorted(Sort(s), m, |s| / 2);
  }

  /** Moving the window on: the new time enters, and the oldest leaves once there are eleven. */
  function Slide(times: seq<u32>, t: u32): seq<u32> {
    [t] + (if |times| < WINDOW then times else times[..WINDOW - 1])
  }

  /** A time not below the median cannot lower the median of the window it enters, whether the
      window is still filling or already full. */
  lemma SlideKeepsMedian(times: seq<u32>, t: u32)
    requires 1 <= |times| <= WINDOW && t >= UpperMedian(times)
    ensures UpperMedian(Slide(times, t)) >= UpperMedian(times)
  {
    var m := UpperMedian(times);
    MedianAtLeast(times, m);
    MedianAtLeast(Slide(times, t), m);
    var kept := if |times| < WINDOW then times else times[..WINDOW - 1];
    BelowAppend([t], kept, m);
    if |times| == WINDOW {
      assert times == kept + times[WINDOW - 1..];
      BelowAppend(kept, times[WINDOW - 1..], m);
    }
  }
}
