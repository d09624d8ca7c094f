/**
 * The JavaScript array built-ins the core relies on: `filter`, a stable `sort`
 * with a numeric comparator, `slice`, `findIndex` and `Math.max(0, ...xs)`.
 */
module JsArray {
  import opened Wrappers
  import opened JsMath

  /** `s.filter(p)`. */
  function Filter<T>(s: seq<T>, p: T -> bool): (r: seq<T>)
    ensures |r| <= |s|
    ensures forall x :: x in r ==> x in s && p(x)
    decreases |s|
  {
    if s == [] then [] else (if p(s[0]) then [s[0]] else []) + Filter(s[1..], p)
  }

  /** r is s with some elements left out, the rest in their original order. */
  ghost predicate IsSubsequence<T>(r: seq<T>, s: seq<T>)
    decreases |s|
  {
    r == [] || (s != [] && ((r[0] == s[0] && IsSubsequence(r[1..], s[1..])) || IsSubsequence(r, s[1..])))
  }

  /** Filtering keeps every element that satisfies the predicate, and keeps the order. */
  lemma {:induction false} FilterSpec<T>(s: seq<T>, p: T -> bool)
    ensures forall x :: x in Filter(s, p) <==> x in s && p(x)
    ensures IsSubsequence(Filter(s, p), s)
    decreases |s|
  {
    if s != [] {
      FilterSpec(s[1..], p);
      assert s == [s[0]] + s[1..];
      var r := Filter(s, p);
      if p(s[0]) {
        assert r[1..] == Filter(s[1..], p);
        assert r[0] == s[0] && IsSubsequence(r[1..], s[1..]);
      } else {
        assert r == Filter(s[1..], p);
      }
    }
  }

  /** Filtering distributes over concatenation. */
  lemma {:induction false} FilterAppend<T>(a: seq<T>, b: seq<T>, p: T -> bool)
    ensures Filter(a + b, p) == Filter(a, p) + Filter(b, p)
    decreases |a|
  {
    if a != [] {
      assert (a + b)[0] == a[0];
      assert (a + b)[1..] == a[1..] + b;
      FilterAppend(a[1..], b, p);
      var h := if p(a[0]) then [a[0]] else [];
      assert Filter(a + b, p) == h + (Filter(a[1..], p) + Filter(b, p));
      assert Filter(a, p) == h + Filter(a[1..], p);
    } else {
      assert a + b == b;
    }
  }

  /** A predicate that holds of every element removes nothing. */
  lemma {:induction false} FilterAll<T>(s: seq<T>, p: T -> bool)
    requires forall i :: 0 <= i < |s| ==> p(s[i])
    ensures Filter(s, p) == s
    decreases |s|
  {
    if s != [] {
      FilterAll(s[1..], p);
    }
  }

  /** A predicate that holds of no element removes everything. */
  lemma {:induction false} FilterNone<T>(s: seq<T>, p: T -> bool)
    requires forall i :: 0 <= i < |s| ==> !p(s[i])
    ensures Filter(s, p) == []
    decreases |s|
  {
    if s != [] {
      FilterNone(s[1..], p);
    }
  }

  /** Two predicates that agree on every element filter alike. */
  lemma {:induction false} FilterCongruent<T>(s: seq<T>, p: T -> bool, q: T -> bool)
    requires forall i :: 0 <= i < |s| ==> p(s[i]) == q(s[i])
    ensures Filter(s, p) == Filter(s, q)
    decreases |s|
  {
    if s != [] {
      FilterCongruent(s[1..], p, q);
    }
  }

  /** Comparator `(a, b) => ka - kb`: a goes first only when both keys are numbers and ka < kb
      (a NaN difference counts as "equal"). */
  predicate KeyLess(a: Option<int>, b: Option<int>) {
    a.Some? && b.Some? && a.value < b.value
  }

  /** No element has a strictly smaller key than one before it. */
  ghost predicate SortedBy<T>(r: seq<T>, key: T -> Option<int>) {
    forall i, j :: 0 <= i < j < |r| ==> !KeyLess(key(r[j]), key(r[i]))
  }

  /** Puts x before the first element whose key is strictly larger, so after equal keys. */
  function InsertBy<T>(x: T, r: seq<T>, key: T -> Option<int>): (r': seq<T>)
    requires SortedBy(r, key)
    ensures multiset(r') == multiset(r) + multiset{x}
    ensures SortedBy(r', key)
    decreases |r|
  {
    if r == [] then [x]
    else if KeyLess(key(x), key(r[0])) then
      InsertFirstSorted(x, r, key);
      [x] + r
    else
      var rest := InsertBy(x, r[1..], key);
      InsertAfterHeadSorted(x, r, rest, key);
      [r[0]] + rest
  }

  /** An element whose key is below the head's may go first. */
  lemma InsertFirstSorted<T>(x: T, r: seq<T>, key: T -> Option<int>)
    requires r != [] && SortedBy(r, key) && KeyLess(key(x), key(r[0]))
    ensures SortedBy([x] + r, key)
  {
    assert forall j :: 0 < j < |r| ==> !KeyLess(key(r[j]), key(r[0]));
  }

  /** The head followed by the insertion into the tail is sorted and holds x besides r. */
  lemma InsertAfterHeadSorted<T>(x: T, r: seq<T>, rest: seq<T>, key: T -> Option<int>)
    requires r != [] && SortedBy(r, key) && !KeyLess(key(x), key(r[0]))
    requires multiset(rest) == multiset(r[1..]) + multiset{x} && SortedBy(rest, key)
    ensures multiset([r[0]] + rest) == multiset(r) + multiset{x}
    ensures SortedBy([r[0]] + rest, key)
  {
    assert forall y :: y in rest ==> y == x || y in r[1..] by {
      forall y | y in rest ensures y == x || y in r[1..] {
        assert y in multiset(rest);
      }
    }
    assert forall j :: 0 <= j < |rest| ==> !KeyLess(key(rest[j]), key(r[0])) by {
      forall j | 0 <= j < |rest| ensures !KeyLess(key(rest[j]), key(r[0])) {
        assert rest[j] in rest;
        if rest[j] != x {
          var k :| 0 <= k < |r[1..]| && r[1..][k] == rest[j];
          assert r[k + 1] == rest[j];
        }
      }
    }
    assert r == [r[0]] + r[1..];
  }

  /** `s.slice().sort((a, b) => key(a) - key(b))`: a stable insertion sort, a permutation of s
      in which no element has a smaller key than one before it. */
  function SortBy<T>(s: seq<T>, key: T -> Option<int>): (r: seq<T>)
    ensures multiset(r) == multiset(s)
    ensures SortedBy(r, key)
    decreases |s|
  {
    if s == [] then []
    else
      assert s == s[..|s| - 1] + [s[|s| - 1]];
      InsertBy(s[|s| - 1], SortBy(s[..|s| - 1], key), key)
  }

  /** The elements with key k, in order. */
  function KeyRun<T>(s: seq<T>, key: T -> Option<int>, k: Option<int>): seq<T>
    decreases |s|
  {
    if s == [] then [] else (if key(s[0]) == k then [s[0]] else []) + KeyRun(s[1..], key, k)
  }

  lemma {:induction false} KeyRunAppend<T>(a: seq<T>, b: seq<T>, key: T -> Option<int>, k: Option<int>)
    ensures KeyRun(a + b, key, k) == KeyRun(a, key, k) + KeyRun(b, key, k)
    decreases |a|
  {
    if a != [] {
      assert (a + b)[0] == a[0];
      assert (a + b)[1..] == a[1..] + b;
      KeyRunAppend(a[1..], b, key, k);
      var h := if key(a[0]) == k then [a[0]] else [];
      assert KeyRun(a + b, key, k) == h + (KeyRun(a[1..], key, k) + KeyRun(b, key, k));
    } else {
      assert a + b == b;
    }
  }

  lemma {:induction false} KeyRunEmpty<T>(s: seq<T>, key: T -> Option<int>, k: Option<int>)
    requires forall i :: 0 <= i < |s| ==> key(s[i]) != k
    ensures KeyRun(s, key, k) == []
    decreases |s|
  {
    if s != [] {
      KeyRunEmpty(s[1..], key, k);
    }
  }

  lemma SortedTail<T>(r: seq<T>, key: T -> Option<int>)
    requires r != [] && SortedBy(r, key)
    ensures SortedBy(r[1..], key)
  {
    forall i, j | 0 <= i < j < |r| - 1 ensures !KeyLess(key(r[1..][j]), key(r[1..][i])) {
      assert r[1..][j] == r[j + 1] && r[1..][i] == r[i + 1];
    }
  }

  lemma {:induction false} InsertByRun<T>(x: T, r: seq<T>, key: T -> Option<int>, k: Option<int>)
    requires SortedBy(r, key)
    ensures KeyRun(InsertBy(x, r, key), key, k) == KeyRun(r, key, k) + (if key(x) == k then [x] else [])
    decreases |r|
  {
    if r == [] {
      assert InsertBy(x, r, key) == [x];
      assert KeyRun([x], key, k) == (if key(x) == k then [x] else []) + KeyRun([x][1..], key, k);
    } else if KeyLess(key(x), key(r[0])) {
      assert InsertBy(x, r, key) == [x] + r;
      RunWhenFirst(x, r, key, k);
    } else {
      SortedTail(r, key);
      var rest := InsertBy(x, r[1..], key);
      assert InsertBy(x, r, key) == [r[0]] + rest;
      InsertByRun(x, r[1..], key, k);
      RunAfterHead(x, r, rest, key, k);
    }
  }

  /** x goes first: no element of r shares its key, so its run is x alone after r's. */
  lemma RunWhenFirst<T>(x: T, r: seq<T>, key: T -> Option<int>, k: Option<int>)
    requires r != [] && SortedBy(r, key) && KeyLess(key(x), key(r[0]))
    ensures KeyRun([x] + r, key, k) == KeyRun(r, key, k) + (if key(x) == k then [x] else [])
  {
    if key(x) == k {
      forall i | 0 <= i < |r| ensures key(r[i]) != k {
        if i > 0 {
          assert !KeyLess(key(r[i]), key(r[0]));
        }
      }
      KeyRunEmpty(r, key, k);
    }
    assert ([x] + r)[1..] == r;
  }

  /** Putting the head back in front of the tail's insertion puts it back in front of the run. */
  lemma RunAfterHead<T>(x: T, r: seq<T>, rest: seq<T>, key: T -> Option<int>, k: Option<int>)
    requires r != []
    requires KeyRun(rest, key, k) == KeyRun(r[1..], key, k) + (if key(x) == k then [x] else [])
    ensures KeyRun([r[0]] + rest, key, k) == KeyRun(r, key, k) + (if key(x) == k then [x] else [])
  {
    assert ([r[0]] + rest)[1..] == rest;
  }

  lemma KeyRunSnoc<T>(s: seq<T>, key: T -> Option<int>, k: Option<int>)
    requires s != []
    ensures KeyRun(s, key, k) == KeyRun(s[..|s| - 1], key, k) + (if key(s[|s| - 1]) == k then [s[|s| - 1]] else [])
  {
    var init, last := s[..|s| - 1], s[|s| - 1];
    assert s == init + [last];
    KeyRunAppend(init, [last], key, k);
    assert [last][1..] == [];
  }

  /** Sorting is stable: the elements sharing any one key keep their relative order. */
  lemma {:induction false} SortByStable<T>(s: seq<T>, key: T -> Option<int>, k: Option<int>)
    ensures KeyRun(SortBy(s, key), key, k) == KeyRun(s, key, k)
    decreases |s|
  {
    if s != [] {
      var init, last := s[..|s| - 1], s[|s| - 1];
      SortByStable(init, key, k);
      InsertByRun(last, SortBy(init, key), key, k);
      KeyRunSnoc(s, key, k);
    }
  }

  /** With every key a number, sorting orders the keys ascending. */
  lemma SortByAscending<T>(s: seq<T>, key: T -> Option<int>)
    requires forall i :: 0 <= i < |s| ==> key(s[i]).Some?
    ensures forall i :: 0 <= i < |SortBy(s, key)| ==> key(SortBy(s, key)[i]).Some?
    ensures forall i, j :: 0 <= i < j < |SortBy(s, key)| ==> key(SortBy(s, key)[i]).value <= key(SortBy(s, key)[j]).value
  {
    var r := SortBy(s, key);
    forall i | 0 <= i < |r| ensures key(r[i]).Some? {
      assert r[i] in multiset(s);
    }
  }

  /** The first element of s with the least key, scanning left to right. */
  function FirstMin<T>(s: seq<T>, key: T -> Option<int>): T
    requires s != []
    decreases |s|
  {
    if |s| == 1 then s[0]
    else
      var m := FirstMin(s[..|s| - 1], key);
      if KeyLess(key(s[|s| - 1]), key(m)) then s[|s| - 1] else m
  }

  /** Index form of FirstMin. */
  function FirstMinIndex<T>(s: seq<T>, key: T -> Option<int>): (i: nat)
    requires s != []
    ensures i < |s| && s[i] == FirstMin(s, key)
    decreases |s|
  {
    if |s| == 1 then 0
    else
      var m := FirstMinIndex(s[..|s| - 1], key);
      if KeyLess(key(s[|s| - 1]), key(s[m])) then |s| - 1 else m
  }

  /** FirstMin has no element with a smaller key, and every element before it has a different key. */
  lemma {:induction false} FirstMinSpec<T>(s: seq<T>, key: T -> Option<int>)
    requires s != []
    ensures var i := FirstMinIndex(s, key);
      && (forall j :: 0 <= j < |s| ==> !KeyLess(key(s[j]), key(s[i])))
      && (forall j :: 0 <= j < i ==> key(s[j]) != key(s[i]))
    decreases |s|
  {
    if |s| > 1 {
      var init := s[..|s| - 1];
      FirstMinSpec(init, key);
      var m := FirstMinIndex(init, key);
      assert forall j :: 0 <= j < |init| ==> init[j] == s[j];
    }
  }

  lemma InsertByHead<T>(x: T, r: seq<T>, key: T -> Option<int>)
    requires SortedBy(r, key)
    ensures InsertBy(x, r, key)[0] == if r == [] || KeyLess(key(x), key(r[0])) then x else r[0]
  {
  }

  /** The head of the sorted sequence is FirstMin. */
  lemma {:induction false} SortByHead<T>(s: seq<T>, key: T -> Option<int>)
    requires s != []
    ensures SortBy(s, key)[0] == FirstMin(s, key)
    decreases |s|
  {
    var init, last := s[..|s| - 1], s[|s| - 1];
    InsertByHead(last, SortBy(init, key), key);
    if |s| > 1 {
      SortByHead(init, key);
    }
  }

  /** The index of the first element whose key is present and least, scanning left to right;
      -1 when no element has a key. */
  function LeastKeyIndex<T>(s: seq<T>, key: T -> Option<int>): (i: int)
    ensures -1 <= i < |s|
    ensures i >= 0 ==> key(s[i]).Some?
    decreases |s|
  {
    if s == [] then -1
    else
      var init, last := s[..|s| - 1], s[|s| - 1];
      var j := LeastKeyIndex(init, key);
      assert j >= 0 ==> init[j] == s[j];
      if key(last).None? then j
      else if j == -1 || key(last).value < key(s[j]).value then |s| - 1
      else j
  }

  /** LeastKeyIndex is -1 exactly when no key is present; otherwise no present key is smaller
      than the one it names, and no element before it has the same key. */
  lemma {:induction false} LeastKeyIndexSpec<T>(s: seq<T>, key: T -> Option<int>)
    ensures var i := LeastKeyIndex(s, key);
      (i == -1 <==> forall k :: 0 <= k < |s| ==> key(s[k]).None?)
      && (i >= 0 ==>
        (forall k :: 0 <= k < |s| && key(s[k]).Some? ==> key(s[i]).value <= key(s[k]).value)
        && (forall k :: 0 <= k < i && key(s[k]).Some? ==> key(s[k]).value != key(s[i]).value))
    decreases |s|
  {
    if s != [] {
      var init := s[..|s| - 1];
      LeastKeyIndexSpec(init, key);
      assert forall k :: 0 <= k < |init| ==> init[k] == s[k];
    }
  }

  /** Relative index of `slice`: negative counts from the end, then clamped into [0, len]. */
  function RelativeIndex(i: int, len: nat): (r: nat)
    ensures r <= len
  {
    if i < 0 then Max(len + i, 0) else Min(i, len)
  }

  /** `s.slice(start, end)`. */
  function Slice<T>(s: seq<T>, start: int, end: int): (r: seq<T>)
    ensures |r| <= |s|
    ensures 0 <= start <= end ==> |r| <= end - start
    ensures 0 <= start <= |s| && start <= end ==> r == s[start..Min(end, |s|)]
    ensures start >= |s| ==> r == []
  {
    var from, to := RelativeIndex(start, |s|), RelativeIndex(end, |s|);
    if from < to then s[from..to] else []
  }

  /** `Math.max(0, ...xs)` for counts: 0 when empty, otherwise the largest count. */
  function MaxOrZero(xs: seq<nat>): (m: nat)
    ensures forall i :: 0 <= i < |xs| ==> xs[i] <= m
    ensures xs == [] ==> m == 0
    ensures xs != [] ==> m in xs
    decreases |xs|
  {
    if xs == [] then 0
    else
      var m := MaxOrZero(xs[..|xs| - 1]);
      assert forall i :: 0 <= i < |xs| - 1 ==> xs[..|xs| - 1][i] == xs[i];
      if xs[|xs| - 1] > m then xs[|xs| - 1] else m
  }

  /** `xs.findIndex((c) => c === v)`: the first index holding v, or -1. */
  function FindIndex(xs: seq<nat>, v: nat): (i: int)
    ensures -1 <= i < |xs|
    ensures i == -1 <==> v !in xs
    ensures i >= 0 ==> xs[i] == v && v !in xs[..i]
    decreases |xs|
  {
    if xs == [] then -1
    else if xs[0] == v then 0
    else
      var j := FindIndex(xs[1..], v);
      assert xs == [xs[0]] + xs[1..];
      if j == -1 then -1
      else
        assert xs[..j + 1] == [xs[0]] + xs[1..][..j];
        j + 1
  }

  /** No index before the one found holds the value. */
  lemma FindIndexBefore(xs: seq<nat>, v: nat, k: int)
    requires 0 <= k < FindIndex(xs, v)
    ensures xs[k] != v
  {
    var i := FindIndex(xs, v);
    assert xs[..i][k] == xs[k];
  }

}
