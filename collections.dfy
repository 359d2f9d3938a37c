/**
  Sequence and set helpers the board's queries are built from: the scan order
  of a rowid table (ascending ids), filtering, SQL's `MAX` with `COALESCE(…, 0)`,
  and a stable sort by an integer key, which stands for `ORDER BY sort_order`
  and for `Array.prototype.sort` with a numeric comparator.
 */
module Collections {

  /** A non-empty set has an element. */
  lemma NonEmptyHasElement(s: set<int>)
    requires s != {}
    ensures exists x :: x in s
  {
    if forall x :: x !in s { assert false; }
  }

  /** The least element of a non-empty finite set of integers. */
  function MinOf(s: set<int>): (m: int)
    requires s != {}
    ensures m in s && forall x :: x in s ==> m <= x
  {
    MinExists(s);
    var m :| m in s && forall x :: x in s ==> m <= x; m
  }

  lemma {:induction false} MinExists(s: set<int>)
    requires s != {}
    ensures exists m :: m in s && forall x :: x in s ==> m <= x
  {
    NonEmptyHasElement(s);
    var x :| x in s;
    if s != {x} {
      MinExists(s - {x});
      var y :| y in s - {x} && forall z :: z in s - {x} ==> y <= z;
      var m := if x < y then x else y;
      forall z | z in s ensures m <= z {
        if z != x { assert z in s - {x}; }
      }
    } else {
      assert forall z :: z in s ==> x <= z;
    }
  }

  /** The greatest element of a non-empty finite set of integers. */
  function MaxOf(s: set<int>): (m: int)
    requires s != {}
    ensures m in s && forall x :: x in s ==> x <= m
  {
    MaxExists(s);
    var m :| m in s && forall x :: x in s ==> x <= m; m
  }

  lemma {:induction false} MaxExists(s: set<int>)
    requires s != {}
    ensures exists m :: m in s && forall x :: x in s ==> x <= m
  {
    NonEmptyHasElement(s);
    var x :| x in s;
    if s != {x} {
      MaxExists(s - {x});
      var y :| y in s - {x} && forall z :: z in s - {x} ==> z <= y;
      var m := if x > y then x else y;
      forall z | z in s ensures z <= m {
        if z != x { assert z in s - {x}; }
      }
    } else {
      assert forall z :: z in s ==> z <= x;
    }
  }

  /** `COALESCE(MAX(v), 0)` over the values `s` of the selected rows. */
  function MaxOrZero(s: set<int>): (m: int)
    ensures s == {} ==> m == 0
    ensures s != {} ==> m in s && forall x :: x in s ==> x <= m
  {
    if s == {} then 0 else MaxOf(s)
  }

  /** The ids of a table in the order a full scan of a rowid table yields them. */
  function SortedIds(s: set<int>): (r: seq<int>)
    ensures |r| == |s|
    ensures forall x :: x in r <==> x in s
    ensures forall i, j :: 0 <= i < j < |r| ==> r[i] < r[j]
    decreases |s|
  {
    if s == {} then []
    else
      var m := MinOf(s);
      [m] + SortedIds(s - {m})
  }

  /** The elements of `s` that satisfy `p`, in their original order. */
  function Filter<T>(s: seq<T>, p: T -> bool): (r: seq<T>)
    ensures |r| <= |s|
    ensures forall i :: 0 <= i < |r| ==> r[i] in s && p(r[i])
    ensures forall i :: 0 <= i < |s| && p(s[i]) ==> s[i] in r
  {
    if s == [] then []
    else if p(s[0]) then [s[0]] + Filter(s[1..], p)
    else Filter(s[1..], p)
  }

  lemma {:induction false} FilterMultiset<T>(s: seq<T>, p: T -> bool, x: T)
    ensures multiset(Filter(s, p))[x] == if p(x) then multiset(s)[x] else 0
  {
    if s != [] {
      var t := s[1..];
      FilterMultiset(t, p, x);
      assert s == [s[0]] + t;
      assert multiset(s) == multiset{s[0]} + multiset(t);
      if p(s[0]) {
        assert Filter(s, p) == [s[0]] + Filter(t, p);
        assert multiset(Filter(s, p)) == multiset{s[0]} + multiset(Filter(t, p));
      } else {
        assert Filter(s, p) == Filter(t, p);
      }
    }
  }

  /** Filtering distributes over concatenation. */
  lemma {:induction false} FilterAppend<T>(a: seq<T>, b: seq<T>, p: T -> bool)
    ensures Filter(a + b, p) == Filter(a, p) + Filter(b, p)
  {
    if a == [] {
      assert a + b == b;
    } else {
      assert (a + b)[0] == a[0];
      assert (a + b)[1..] == a[1..] + b;
      FilterAppend(a[1..], b, p);
    }
  }

  /** Two filters whose conditions agree on every element give the same result. */
  lemma {:induction false} FilterCongruent<T>(s: seq<T>, p: T -> bool, q: T -> bool)
    requires forall x :: x in s ==> p(x) == q(x)
    ensures Filter(s, p) == Filter(s, q)
  {
    if s != [] {
      FilterCongruent(s[1..], p, q);
    }
  }

  predicate SortedByKey<T>(s: seq<T>, key: T -> int) {
    forall i, j :: 0 <= i < j < |s| ==> key(s[i]) <= key(s[j])
  }

  /** The tail of a sorted sequence is sorted. */
  lemma SortedTail<T>(s: seq<T>, key: T -> int)
    requires s != [] && SortedByKey(s, key)
    ensures SortedByKey(s[1..], key)
  {
    forall i, j | 0 <= i < j < |s[1..]| ensures key(s[1..][i]) <= key(s[1..][j]) {
      assert s[1..][i] == s[i + 1] && s[1..][j] == s[j + 1];
    }
  }

  /** The head of a sorted sequence has the least key. */
  lemma HeadLeast<T>(s: seq<T>, key: T -> int, y: T)
    requires s != [] && SortedByKey(s, key) && y in s
    ensures key(s[0]) <= key(y)
  {
    var k :| 0 <= k < |s| && s[k] == y;
    if k > 0 { assert key(s[0]) <= key(s[k]); }
  }

  /** Putting an element with a key no larger than any other in front keeps a sequence sorted. */
  lemma SortedCons<T>(x: T, t: seq<T>, key: T -> int)
    requires SortedByKey(t, key)
    requires forall i :: 0 <= i < |t| ==> key(x) <= key(t[i])
    ensures SortedByKey([x] + t, key)
  {
    var r := [x] + t;
    forall i, j | 0 <= i < j < |r| ensures key(r[i]) <= key(r[j]) {
      assert r[j] == t[j - 1];
      if i > 0 { assert r[i] == t[i - 1]; }
    }
  }

  /** Puts `x` in front of the first element whose key is not smaller, so equal keys keep their order. */
  function InsertByKey<T>(x: T, s: seq<T>, key: T -> int): (r: seq<T>)
    requires SortedByKey(s, key)
    ensures multiset(r) == multiset(s) + multiset{x}
    ensures |r| == |s| + 1
    ensures forall i :: 0 <= i < |r| ==> r[i] == x || r[i] in s
    ensures SortedByKey(r, key)
  {
    if s == [] || key(x) <= key(s[0]) then
      assert forall i :: 0 <= i < |s| ==> key(x) <= key(s[i]) by {
        forall i | 0 <= i < |s| ensures key(x) <= key(s[i]) { HeadLeast(s, key, s[i]); }
      }
      SortedCons(x, s, key);
      [x] + s
    else
      SortedTail(s, key);
      var t := InsertByKey(x, s[1..], key);
      assert s == [s[0]] + s[1..];
      assert multiset([s[0]] + t) == multiset{s[0]} + multiset(t);
      assert forall i :: 0 <= i < |t| ==> key(s[0]) <= key(t[i]) by {
        forall i | 0 <= i < |t| ensures key(s[0]) <= key(t[i]) {
          if t[i] != x { HeadLeast(s, key, t[i]); }
        }
      }
      SortedCons(s[0], t, key);
      [s[0]] + t
  }

  /**
    A stable sort by an integer key: an insertion sort, which is what
    `ORDER BY sort_order` over a table scanned in id order, and JavaScript's
    stable `Array.prototype.sort`, produce.
   */
  function SortByKey<T>(s: seq<T>, key: T -> int): (r: seq<T>)
    ensures multiset(r) == multiset(s)
    ensures SortedByKey(r, key)
  {
    if s == [] then []
    else
      assert s == [s[0]] + s[1..];
      InsertByKey(s[0], SortByKey(s[1..], key), key)
  }

  lemma SameElementsNonEmpty(a: seq<int>, b: seq<int>)
    requires forall x :: x in a <==> x in b
    ensures a != [] ==> b != []
  {
    if a != [] { var x := a[0]; assert x in a; assert x in b; }
  }

  /** A sequence that is sorted and holds the same elements as another sorted one is equal to it. */
  lemma {:induction false} SortedUnique(a: seq<int>, b: seq<int>)
    requires forall i, j :: 0 <= i < j < |a| ==> a[i] < a[j]
    requires forall i, j :: 0 <= i < j < |b| ==> b[i] < b[j]
    requires forall x :: x in a <==> x in b
    ensures a == b
  {
    SameElementsNonEmpty(a, b);
    SameElementsNonEmpty(b, a);
    if a != [] {
      assert a[0] == b[0] by {
        assert a[0] in b && b[0] in a;
      }
      forall x ensures x in a[1..] <==> x in b[1..] {
        if x in a[1..] { assert x in b && x != b[0]; }
        if x in b[1..] { assert x in a && x != a[0]; }
      }
      SortedUnique(a[1..], b[1..]);
      assert a == [a[0]] + a[1..] && b == [b[0]] + b[1..];
    }
  }

  /** Map each element through `f`. */
  function Map<T, U>(s: seq<T>, f: T -> U): (r: seq<U>)
    ensures |r| == |s| && forall i :: 0 <= i < |s| ==> r[i] == f(s[i])
  {
    if s == [] then [] else [f(s[0])] + Map(s[1..], f)
  }

  /** The position of the last occurrence of `x` in `s`, or -1. */
  function LastIndex<T(==)>(s: seq<T>, x: T): (r: int)
    ensures -1 <= r < |s|
    ensures r >= 0 ==> s[r] == x && forall j :: r < j < |s| ==> s[j] != x
    ensures r == -1 <==> x !in s
  {
    if s == [] then -1
    else if s[|s| - 1] == x then |s| - 1
    else
      assert s == s[..|s| - 1] + [s[|s| - 1]];
      LastIndex(s[..|s| - 1], x)
  }

  predicate Distinct<T(==)>(s: seq<T>) {
    forall i, j :: 0 <= i < j < |s| ==> s[i] != s[j]
  }

  /** Filtering keeps a sequence ordered by a key. */
  lemma {:induction false} FilterSortedByKey<T>(s: seq<T>, p: T -> bool, key: T -> int)
    requires SortedByKey(s, key)
    ensures SortedByKey(Filter(s, p), key)
  {
    if s != [] {
      var t := Filter(s[1..], p);
      SortedTail(s, key);
      FilterSortedByKey(s[1..], p, key);
      if p(s[0]) {
        forall i | 0 <= i < |t| ensures key(s[0]) <= key(t[i]) {
          HeadLeast(s, key, t[i]);
        }
        SortedCons(s[0], t, key);
        assert Filter(s, p) == [s[0]] + t;
      } else {
        assert Filter(s, p) == t;
      }
    }
  }

  /** Filtering keeps a strictly increasing sequence strictly increasing. */
  predicate Increasing(s: seq<int>) {
    forall i, j :: 0 <= i < j < |s| ==> s[i] < s[j]
  }

  lemma {:induction false} FilterIncreasing(s: seq<int>, p: int -> bool)
    requires Increasing(s)
    ensures Increasing(Filter(s, p))
  {
    if s != [] {
      var t := Filter(s[1..], p);
      IncreasingTail(s);
      FilterIncreasing(s[1..], p);
      if p(s[0]) {
        forall i | 0 <= i < |t| ensures s[0] < t[i] {
          var k :| 0 <= k < |s[1..]| && s[1..][k] == t[i];
          assert s[k + 1] == t[i];
        }
        assert Filter(s, p) == [s[0]] + t;
        IncreasingCons(s[0], t);
      } else {
        assert Filter(s, p) == t;
      }
    }
  }

  lemma IncreasingTail(s: seq<int>)
    requires Increasing(s) && s != []
    ensures Increasing(s[1..])
  {
    forall i, j | 0 <= i < j < |s[1..]| ensures s[1..][i] < s[1..][j] {
      assert s[1..][i] == s[i + 1] && s[1..][j] == s[j + 1];
    }
  }

  lemma IncreasingCons(x: int, t: seq<int>)
    requires Increasing(t) && forall i :: 0 <= i < |t| ==> x < t[i]
    ensures Increasing([x] + t)
  {
    var r := [x] + t;
    forall i, j | 0 <= i < j < |r| ensures r[i] < r[j] {
      if i > 0 { assert r[i] == t[i - 1] && r[j] == t[j - 1]; } else { assert r[j] == t[j - 1]; }
    }
  }

  /**
    Code-point order on strings, which is the order of their UTF-8 bytes and
    so SQLite's `BINARY` collation: a proper prefix comes first.
   */
  predicate TextLe(a: string, b: string) {
    a == [] || (b != [] && (a[0] < b[0] || (a[0] == b[0] && TextLe(a[1..], b[1..]))))
  }

  lemma {:induction false} TextLeTotal(a: string, b: string)
    ensures TextLe(a, b) || TextLe(b, a)
  {
    if a != [] && b != [] && a[0] == b[0] {
      TextLeTotal(a[1..], b[1..]);
    }
  }

  lemma {:induction false} TextLeTrans(a: string, b: string, c: string)
    requires TextLe(a, b) && TextLe(b, c)
    ensures TextLe(a, c)
  {
    if a != [] && b != [] && c != [] && a[0] == b[0] && b[0] == c[0] {
      TextLeTrans(a[1..], b[1..], c[1..]);
    }
  }

  predicate SortedByText<T>(s: seq<T>, key: T -> string) {
    forall i, j :: 0 <= i < j < |s| ==> TextLe(key(s[i]), key(s[j]))
  }

  lemma SortedByTextTail<T>(s: seq<T>, key: T -> string)
    requires s != [] && SortedByText(s, key)
    ensures SortedByText(s[1..], key)
  {
    forall i, j | 0 <= i < j < |s[1..]| ensures TextLe(key(s[1..][i]), key(s[1..][j])) {
      assert s[1..][i] == s[i + 1] && s[1..][j] == s[j + 1];
    }
  }

  lemma TextHeadLeast<T>(s: seq<T>, key: T -> string, y: T)
    requires s != [] && SortedByText(s, key) && y in s
    ensures TextLe(key(s[0]), key(y))
  {
    var k :| 0 <= k < |s| && s[k] == y;
    if k == 0 { TextLeTotal(key(y), key(y)); } else { assert TextLe(key(s[0]), key(s[k])); }
  }

  lemma SortedByTextCons<T>(x: T, t: seq<T>, key: T -> string)
    requires SortedByText(t, key)
    requires forall i :: 0 <= i < |t| ==> TextLe(key(x), key(t[i]))
    ensures SortedByText([x] + t, key)
  {
    var r := [x] + t;
    forall i, j | 0 <= i < j < |r| ensures TextLe(key(r[i]), key(r[j])) {
      assert r[j] == t[j - 1];
      if i > 0 { assert r[i] == t[i - 1]; }
    }
  }

  /** Puts `x` in front of the first element whose text key is not smaller. */
  function InsertByText<T>(x: T, s: seq<T>, key: T -> string): (r: seq<T>)
    requires SortedByText(s, key)
    ensures multiset(r) == multiset(s) + multiset{x}
    ensures |r| == |s| + 1
    ensures forall i :: 0 <= i < |r| ==> r[i] == x || r[i] in s
    ensures SortedByText(r, key)
  {
    if s == [] then [x]
    else if TextLe(key(x), key(s[0])) then
      assert forall j :: 0 <= j < |s| ==> TextLe(key(x), key(s[j])) by {
        forall j | 0 <= j < |s| ensures TextLe(key(x), key(s[j])) {
          TextHeadLeast(s, key, s[j]);
          TextLeTrans(key(x), key(s[0]), key(s[j]));
        }
      }
      SortedByTextCons(x, s, key);
      [x] + s
    else
      TextLeTotal(key(x), key(s[0]));
      SortedByTextTail(s, key);
      var t := InsertByText(x, s[1..], key);
      assert s == [s[0]] + s[1..];
      assert multiset([s[0]] + t) == multiset{s[0]} + multiset(t);
      assert forall i :: 0 <= i < |t| ==> TextLe(key(s[0]), key(t[i])) by {
        forall i | 0 <= i < |t| ensures TextLe(key(s[0]), key(t[i])) {
          if t[i] != x { TextHeadLeast(s, key, t[i]); }
        }
      }
      SortedByTextCons(s[0], t, key);
      [s[0]] + t
  }

  /** A stable sort by a text key: the order `ORDER BY name` gives rows scanned in id order. */
  function SortByText<T>(s: seq<T>, key: T -> string): (r: seq<T>)
    ensures multiset(r) == multiset(s)
    ensures SortedByText(r, key)
  {
    if s == [] then []
    else
      assert s == [s[0]] + s[1..];
      InsertByText(s[0], SortByText(s[1..], key), key)
  }
}
