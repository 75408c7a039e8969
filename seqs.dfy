/** The LINQ and List operations the controllers compose their queries from:
    `Where`, `Select`, `OrderBy`/`OrderByDescending`, `FirstOrDefault`, `Count`
    and `List.FindIndex`. Ordering is by an integer key; `OrderBy` is stable,
    as LINQ's is, so rows with equal keys keep their table order. */
module Seqs {
  import opened Wrappers

  predicate Sorted<T>(s: seq<T>, key: T -> int) {
    forall i, j :: 0 <= i < j < |s| ==> key(s[i]) <= key(s[j])
  }

  predicate UniqueBy<T>(s: seq<T>, key: T -> int) {
    forall i, j :: 0 <= i < j < |s| ==> key(s[i]) != key(s[j])
  }

  /** The predicate `x => key(x) == v`. */
  function KeyIs<T>(key: T -> int, v: int): T -> bool {
    x => key(x) == v
  }

  /** The predicate `x => key(x) != v`. */
  function KeyIsNot<T>(key: T -> int, v: int): T -> bool {
    x => key(x) != v
  }

  /** The predicate `x => key(x) < v`. */
  function KeyBelow<T>(key: T -> int, v: int): T -> bool {
    x => key(x) < v
  }

  /** The key `x => -key(x)`, which turns an ascending order into a descending one. */
  function Negate<T>(key: T -> int): T -> int {
    x => -key(x)
  }

  /** Where: the elements satisfying `p`, in their original order. */
  function Filter<T>(s: seq<T>, p: T -> bool): (r: seq<T>)
    ensures |r| <= |s|
    ensures forall x :: x in r ==> x in s && p(x)
    ensures forall x :: x in s && p(x) ==> x in r
  {
    if s == [] then []
    else if p(s[0]) then [s[0]] + Filter(s[1..], p)
    else Filter(s[1..], p)
  }

  /** `Where` keeps each satisfying element as often as it occurs, and drops
      every other element. */
  lemma {:induction false} FilterCount<T>(s: seq<T>, p: T -> bool)
    ensures forall x :: multiset(Filter(s, p))[x] == if p(x) then multiset(s)[x] else 0
  {
    if s != [] {
      FilterCount(s[1..], p);
      assert s == [s[0]] + s[1..];
    }
  }

  /** `r` is `s` with some elements left out, the rest in their order. */
  ghost predicate SubsequenceOf<T>(r: seq<T>, s: seq<T>)
    decreases |s|
  {
    if r == [] then true
    else if s == [] then false
    else (r[0] == s[0] && SubsequenceOf(r[1..], s[1..])) || SubsequenceOf(r, s[1..])
  }

  /** `Where` keeps the original order. */
  lemma {:induction false} FilterOrder<T>(s: seq<T>, p: T -> bool)
    ensures SubsequenceOf(Filter(s, p), s)
  {
    if s != [] {
      FilterOrder(s[1..], p);
      if p(s[0]) {
        assert ([s[0]] + Filter(s[1..], p))[1..] == Filter(s[1..], p);
      }
    }
  }

  /** `Where` over a table with one more row at the end. */
  lemma {:induction false} FilterAppend<T>(s: seq<T>, x: T, p: T -> bool)
    ensures Filter(s + [x], p) == Filter(s, p) + (if p(x) then [x] else [])
  {
    if s == [] {
      assert [] + [x] == [x];
      assert [x][1..] == [];
    } else {
      FilterAppend(s[1..], x, p);
      assert (s + [x])[1..] == s[1..] + [x];
      assert (s + [x])[0] == s[0];
    }
  }

  lemma {:induction false} FilterNone<T>(s: seq<T>, p: T -> bool)
    requires forall i :: 0 <= i < |s| ==> !p(s[i])
    ensures Filter(s, p) == []
  {
    if s != [] {
      FilterNone(s[1..], p);
    }
  }

  /** Select: `f` applied to every element, in order. */
  function Map<A, B>(s: seq<A>, f: A -> B): (r: seq<B>)
    ensures |r| == |s|
    ensures forall i :: 0 <= i < |s| ==> r[i] == f(s[i])
    ensures forall x :: x in s ==> f(x) in r
    ensures forall y :: y in r ==> exists x :: x in s && y == f(x)
  {
    if s == [] then [] else [f(s[0])] + Map(s[1..], f)
  }

  /** List.FindIndex: the first index whose element satisfies `p`, or -1. */
  function FindIndex<T>(s: seq<T>, p: T -> bool): (r: int)
    ensures -1 <= r < |s|
    ensures r == -1 <==> forall i :: 0 <= i < |s| ==> !p(s[i])
    ensures r >= 0 ==> p(s[r]) && forall i :: 0 <= i < r ==> !p(s[i])
  {
    if s == [] then -1
    else if p(s[0]) then 0
    else
      var k := FindIndex(s[1..], p);
      if k == -1 then -1 else k + 1
  }

  /** FirstOrDefault(p) over a sequence of references: the first match, or null. */
  function FirstOrNone<T>(s: seq<T>, p: T -> bool): (r: Option<T>)
    ensures r.None? <==> forall x :: x in s ==> !p(x)
    ensures r.Some? ==> r.value in s && p(r.value)
  {
    var k := FindIndex(s, p);
    if k == -1 then None else Some(s[k])
  }

  /** Places `x` before the first element whose key is not smaller than its own. */
  function Insert<T>(x: T, s: seq<T>, key: T -> int): (r: seq<T>)
    ensures |r| == |s| + 1
    ensures multiset(r) == multiset(s) + multiset{x}
  {
    if s == [] || key(x) <= key(s[0]) then [x] + s
    else
      assert s == [s[0]] + s[1..];
      [s[0]] + Insert(x, s[1..], key)
  }

  /** A sorted sequence stays sorted behind an element no larger than its head. */
  lemma ConsSorted<T>(a: T, t: seq<T>, key: T -> int)
    requires Sorted(t, key) && (t == [] || key(a) <= key(t[0]))
    ensures Sorted([a] + t, key)
  {
    var r := [a] + t;
    forall i, j | 0 <= i < j < |r| ensures key(r[i]) <= key(r[j]) {
      if i == 0 {
        assert r[j] == t[j - 1];
        assert key(t[0]) <= key(t[j - 1]);
      } else {
        assert r[i] == t[i - 1] && r[j] == t[j - 1];
      }
    }
  }

  lemma {:induction false} InsertSorted<T>(x: T, s: seq<T>, key: T -> int)
    requires Sorted(s, key)
    ensures Sorted(Insert(x, s, key), key)
  {
    if s == [] || key(x) <= key(s[0]) {
      ConsSorted(x, s, key);
    } else {
      var t := Insert(x, s[1..], key);
      assert Sorted(s[1..], key) by {
        forall i, j | 0 <= i < j < |s[1..]| ensures key(s[1..][i]) <= key(s[1..][j]) {
          assert s[1..][i] == s[i + 1] && s[1..][j] == s[j + 1];
        }
      }
      InsertSorted(x, s[1..], key);
      InsertHead(x, s[1..], key);
      if s[1..] != [] {
        assert s[1..][0] == s[1];
      }
      ConsSorted(s[0], t, key);
    }
  }

  /** OrderBy(key): a stable insertion sort. */
  function SortBy<T>(s: seq<T>, key: T -> int): (r: seq<T>)
    ensures |r| == |s|
    ensures multiset(r) == multiset(s)
  {
    if s == [] then []
    else
      assert s == [s[0]] + s[1..];
      Insert(s[0], SortBy(s[1..], key), key)
  }

  lemma {:induction false} SortBySorted<T>(s: seq<T>, key: T -> int)
    ensures Sorted(SortBy(s, key), key)
  {
    if s != [] {
      SortBySorted(s[1..], key);
      InsertSorted(s[0], SortBy(s[1..], key), key);
    }
  }

  /** Sorting keeps exactly the elements it was given. */
  lemma SortByMembers<T>(s: seq<T>, key: T -> int)
    ensures forall x :: x in s <==> x in SortBy(s, key)
  {
    var t := SortBy(s, key);
    forall x ensures x in s <==> x in t {
      calc {
        x in s;
        x in multiset(s);
        x in multiset(t);
        x in t;
      }
    }
  }

  /** OrderByDescending(key). */
  function SortByDescending<T>(s: seq<T>, key: T -> int): (r: seq<T>)
    ensures |r| == |s|
    ensures multiset(r) == multiset(s)
    ensures forall i, j :: 0 <= i < j < |r| ==> key(r[i]) >= key(r[j])
  {
    var r := SortBy(s, Negate(key));
    SortBySorted(s, Negate(key));
    assert forall i, j :: 0 <= i < j < |r| ==> Negate(key)(r[i]) <= Negate(key)(r[j]);
    r
  }

  /** `s[k]` has the smallest key of `s`, and no earlier element shares that key. */
  predicate FirstMinimal<T>(s: seq<T>, key: T -> int, k: int) {
    && 0 <= k < |s|
    && (forall j :: 0 <= j < k ==> key(s[k]) < key(s[j]))
    && (forall j :: k < j < |s| ==> key(s[k]) <= key(s[j]))
  }

  /** The head of an insertion is the smaller of `x` and the old head. */
  lemma InsertHead<T>(x: T, s: seq<T>, key: T -> int)
    ensures Insert(x, s, key)[0] == if s == [] || key(x) <= key(s[0]) then x else s[0]
  {
  }

  /** Prepending an element no larger than every key makes it the first minimum. */
  lemma FirstMinimalHead<T>(s: seq<T>, key: T -> int, k': int)
    requires |s| > 1 && FirstMinimal(s[1..], key, k') && key(s[0]) <= key(s[1..][k'])
    ensures FirstMinimal(s, key, 0)
  {
    forall j | 0 < j < |s| ensures key(s[0]) <= key(s[j]) {
      assert s[j] == s[1..][j - 1];
    }
  }

  /** Prepending an element larger than the tail's first minimum shifts it by one. */
  lemma FirstMinimalShift<T>(s: seq<T>, key: T -> int, k': int)
    requires |s| > 1 && FirstMinimal(s[1..], key, k') && key(s[0]) > key(s[1..][k'])
    ensures FirstMinimal(s, key, k' + 1)
  {
    forall j | 0 < j < |s| && j != k' + 1
      ensures j < k' + 1 ==> key(s[k' + 1]) < key(s[j])
      ensures j > k' + 1 ==> key(s[k' + 1]) <= key(s[j])
    {
      assert s[j] == s[1..][j - 1];
    }
  }

  /** `OrderBy(key).First()` is the first element with the smallest key. */
  lemma {:induction false} SortByHead<T>(s: seq<T>, key: T -> int)
    requires |s| > 0
    ensures exists k :: FirstMinimal(s, key, k) && SortBy(s, key)[0] == s[k]
  {
    var t := SortBy(s[1..], key);
    assert SortBy(s, key) == Insert(s[0], t, key);
    InsertHead(s[0], t, key);
    if |s| == 1 {
      assert FirstMinimal(s, key, 0);
    } else {
      SortByHead(s[1..], key);
      var k' :| FirstMinimal(s[1..], key, k') && t[0] == s[1..][k'];
      if key(s[0]) <= key(t[0]) {
        FirstMinimalHead(s, key, k');
      } else {
        FirstMinimalShift(s, key, k');
        assert s[k' + 1] == s[1..][k'];
      }
    }
  }

  lemma {:induction false} InsertFilterLength<T>(x: T, s: seq<T>, key: T -> int, p: T -> bool)
    ensures |Filter(Insert(x, s, key), p)| == |Filter(s, p)| + (if p(x) then 1 else 0)
  {
    if s == [] || key(x) <= key(s[0]) {
      assert ([x] + s)[1..] == s;
    } else {
      InsertFilterLength(x, s[1..], key, p);
      assert ([s[0]] + Insert(x, s[1..], key))[1..] == Insert(x, s[1..], key);
    }
  }

  /** Sorting does not change how many elements satisfy a predicate (Count(p)). */
  lemma {:induction false} SortByFilterLength<T>(s: seq<T>, key: T -> int, p: T -> bool)
    ensures |Filter(SortBy(s, key), p)| == |Filter(s, p)|
  {
    if s != [] {
      SortByFilterLength(s[1..], key, p);
      InsertFilterLength(s[0], SortBy(s[1..], key), key, p);
    }
  }

  /** In a sequence sorted by `key`, the first element with key `v` stands at the
      position equal to the number of elements with a smaller key. */
  lemma {:induction false} FindIndexInSorted<T>(s: seq<T>, key: T -> int, v: int)
    requires Sorted(s, key)
    requires FindIndex(s, KeyIs(key, v)) >= 0
    ensures FindIndex(s, KeyIs(key, v)) == |Filter(s, KeyBelow(key, v))|
  {
    if key(s[0]) != v {
      assert s[1..][FindIndex(s, KeyIs(key, v)) - 1] == s[FindIndex(s, KeyIs(key, v))];
      FindIndexInSorted(s[1..], key, v);
    } else {
      assert forall i :: 0 <= i < |s| ==> key(s[0]) <= key(s[i]);
      FilterNone(s, KeyBelow(key, v));
    }
  }
}
