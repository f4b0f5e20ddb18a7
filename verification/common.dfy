/** Small generic building blocks shared by every component: an optional
    value, counting and filtering over sequences, Python's `xs[:n]`, and the
    stable descending sort that `list.sort(key=lambda x: -score(x))` performs. */
module Common {

  datatype Option<+T> = None | Some(value: T)

  /** Number of elements of `s` satisfying `p`. */
  function Count<T>(s: seq<T>, p: T -> bool): (n: nat)
    ensures n <= |s|
  {
    if s == [] then 0 else (if p(s[0]) then 1 else 0) + Count(s[1..], p)
  }

  lemma CountAppend<T>(a: seq<T>, b: seq<T>, p: T -> bool)
    ensures Count(a + b, p) == Count(a, p) + Count(b, p)
  {
    if a == [] {
      assert a + b == b;
    } else {
      assert (a + b)[1..] == a[1..] + b;
      CountAppend(a[1..], b, p);
    }
  }

  /** Counting one element further into `s`. */
  lemma CountPrefix<T>(s: seq<T>, i: nat, p: T -> bool)
    requires i < |s|
    ensures Count(s[..i + 1], p) == Count(s[..i], p) + (if p(s[i]) then 1 else 0)
  {
    assert s[..i + 1] == s[..i] + [s[i]];
    CountAppend(s[..i], [s[i]], p);
    assert Count([s[i]], p) == if p(s[i]) then 1 else 0;
  }

  /** An element satisfying `p` counts. */
  lemma {:induction false} CountOne<T>(s: seq<T>, i: nat, p: T -> bool)
    requires i < |s| && p(s[i])
    ensures Count(s, p) >= 1
  {
    if i > 0 {
      CountOne(s[1..], i - 1, p);
    }
  }

  /** Two elements satisfying `p` count twice. */
  lemma CountTwo<T>(s: seq<T>, p: T -> bool, a: nat, b: nat)
    requires a < b < |s| && p(s[a]) && p(s[b])
    ensures Count(s, p) >= 2
  {
    assert s == s[..b] + s[b..];
    CountAppend(s[..b], s[b..], p);
    CountOne(s[..b], a, p);
    CountOne(s[b..], 0, p);
  }

  /** The elements of `s` satisfying `p`, in their original order. */
  function Filter<T>(s: seq<T>, p: T -> bool): (r: seq<T>)
    ensures |r| == Count(s, p)
    ensures forall x :: x in r ==> x in s && p(x)
  {
    if s == [] then [] else (if p(s[0]) then [s[0]] else []) + Filter(s[1..], p)
  }

  /** Every element satisfying `p` survives the filter. */
  lemma {:induction false} FilterKeeps<T>(s: seq<T>, p: T -> bool)
    ensures forall x :: x in s && p(x) ==> x in Filter(s, p)
  {
    if s != [] {
      FilterKeeps(s[1..], p);
      assert forall x :: x in s ==> x == s[0] || x in s[1..];
    }
  }

  lemma FilterAppend<T>(a: seq<T>, b: seq<T>, p: T -> bool)
    ensures Filter(a + b, p) == Filter(a, p) + Filter(b, p)
  {
    if a == [] {
      assert a + b == b;
    } else {
      assert (a + b)[1..] == a[1..] + b;
      FilterAppend(a[1..], b, p);
    }
  }

  /** `f` applied to each element of `s`, in order. */
  function Map<T, U>(s: seq<T>, f: T -> U): (r: seq<U>)
    ensures |r| == |s|
    ensures forall i :: 0 <= i < |s| ==> r[i] == f(s[i])
  {
    if s == [] then [] else [f(s[0])] + Map(s[1..], f)
  }

  lemma FilterFirst<T>(s: seq<T>, p: T -> bool)
    requires s != []
    ensures Filter(s, p) == (if p(s[0]) then [s[0]] else []) + Filter(s[1..], p)
  {
  }

  lemma MapCons<T, U>(x: T, s: seq<T>, f: T -> U)
    ensures Map([x] + s, f) == [f(x)] + Map(s, f)
  {
    assert ([x] + s)[1..] == s;
  }

  /** The images of the elements that pass the filter are exactly the
      images of the elements satisfying `p`. */
  lemma {:induction false} MapOfFilterMembers<T, U>(s: seq<T>, p: T -> bool, f: T -> U, y: U)
    ensures y in Map(Filter(s, p), f) <==> exists k :: 0 <= k < |s| && p(s[k]) && y == f(s[k])
  {
    if s != [] {
      var tail := s[1..];
      MapOfFilterMembers(tail, p, f, y);
      FilterFirst(s, p);
      var rest := Filter(tail, p);
      var inTail := exists k :: 0 <= k < |tail| && p(tail[k]) && y == f(tail[k]);
      var inAll := exists k :: 0 <= k < |s| && p(s[k]) && y == f(s[k]);
      if p(s[0]) {
        MapCons(s[0], rest, f);
        assert y in Map(Filter(s, p), f) <==> y == f(s[0]) || y in Map(rest, f);
      } else {
        assert Filter(s, p) == rest;
      }
      if inAll {
        var k :| 0 <= k < |s| && p(s[k]) && y == f(s[k]);
        if k > 0 {
          assert tail[k - 1] == s[k];
          assert inTail;
        }
      }
      if inTail {
        var k :| 0 <= k < |tail| && p(tail[k]) && y == f(tail[k]);
        assert s[k + 1] == tail[k];
        assert inAll;
      }
    }
  }

  /** Python's `s[:n]`. */
  function Take<T>(s: seq<T>, n: nat): (r: seq<T>)
    ensures |r| == if n <= |s| then n else |s|
    ensures r == s[..|r|]
  {
    if n <= |s| then s[..n] else s
  }

  function Max(a: int, b: int): int { if a >= b then a else b }

  predicate StrictlyIncreasing(s: seq<int>)
  {
    forall i, j :: 0 <= i < j < |s| ==> s[i] < s[j]
  }

  /** `max(len(row) for row in rows)`, and 0 without rows: the widest row. */
  function MaxWidth<T>(rows: seq<seq<T>>): (w: nat)
    ensures forall i :: 0 <= i < |rows| ==> |rows[i]| <= w
    ensures rows != [] ==> exists i :: 0 <= i < |rows| && |rows[i]| == w
  {
    if rows == [] then 0
    else
      var w := MaxWidth(rows[1..]);
      if |rows[0]| >= w then |rows[0]|
      else
        var i :| 0 <= i < |rows[1..]| && |rows[1..][i]| == w;
        assert |rows[i + 1]| == w;
        w
  }

  /** `a` is `b` with some elements left out, the rest in `b`'s order. */
  predicate SubsequenceOf<T(==)>(a: seq<T>, b: seq<T>)
    decreases |b|
  {
    a == [] || (b != [] && if a[0] == b[0] then SubsequenceOf(a[1..], b[1..]) else SubsequenceOf(a, b[1..]))
  }

  /** `key` does not increase from left to right. */
  predicate SortedDesc<T>(s: seq<T>, key: T -> int)
  {
    forall i, j :: 0 <= i < j < |s| ==> key(s[i]) >= key(s[j])
  }

  /** The elements of `s` whose key is exactly `k`, in order. */
  function WithKey<T>(s: seq<T>, key: T -> int, k: int): seq<T>
  {
    if s == [] then [] else (if key(s[0]) == k then [s[0]] else []) + WithKey(s[1..], key, k)
  }

  /** Places `x` in front of the first element whose key is not larger,
      so `x` precedes every element with the same key. */
  function InsertDesc<T>(x: T, s: seq<T>, key: T -> int): (r: seq<T>)
    requires SortedDesc(s, key)
    ensures SortedDesc(r, key)
    ensures multiset(r) == multiset(s) + multiset{x}
    ensures |r| == |s| + 1
  {
    if s == [] || key(s[0]) <= key(x) then
      InsertFront(x, s, key);
      [x] + s
    else
      var rest := InsertDesc(x, s[1..], key);
      InsertBehind(x, s, rest, key);
      [s[0]] + rest
  }

  /** `x` goes in front of a descending sequence whose head is not larger. */
  lemma InsertFront<T>(x: T, s: seq<T>, key: T -> int)
    requires SortedDesc(s, key) && (s == [] || key(s[0]) <= key(x))
    ensures SortedDesc([x] + s, key)
  {
    forall y | y in s ensures key(y) <= key(x) {
      var j :| 0 <= j < |s| && s[j] == y;
      assert j == 0 || key(s[0]) >= key(s[j]);
    }
    ConsSorted(x, s, key);
  }

  /** The head of `s` stays in front when `x` is inserted after it. */
  lemma InsertBehind<T>(x: T, s: seq<T>, rest: seq<T>, key: T -> int)
    requires SortedDesc(s, key) && s != [] && key(s[0]) > key(x)
    requires SortedDesc(rest, key) && multiset(rest) == multiset(s[1..]) + multiset{x}
    ensures SortedDesc([s[0]] + rest, key)
    ensures multiset([s[0]] + rest) == multiset(s) + multiset{x}
  {
    assert s == [s[0]] + s[1..];
    forall y | y in s[1..] ensures key(y) <= key(s[0]) {
      var j :| 0 <= j < |s[1..]| && s[1..][j] == y;
      assert s[j + 1] == y;
    }
    BoundedInsert(x, s[1..], rest, key, key(s[0]));
    ConsSorted(s[0], rest, key);
  }

  /** An element no smaller than any of a descending sequence can go in front. */
  lemma ConsSorted<T>(x: T, s: seq<T>, key: T -> int)
    requires SortedDesc(s, key) && forall y :: y in s ==> key(y) <= key(x)
    ensures SortedDesc([x] + s, key)
  {
    var r := [x] + s;
    forall i, j | 0 <= i < j < |r| ensures key(r[i]) >= key(r[j]) {
      assert r[j] == s[j - 1];
      if i > 0 {
        assert r[i] == s[i - 1];
      }
    }
  }

  /** Inserting an element below a bound keeps every key below it. */
  lemma BoundedInsert<T>(x: T, s: seq<T>, r: seq<T>, key: T -> int, b: int)
    requires multiset(r) == multiset(s) + multiset{x}
    requires key(x) <= b && forall y :: y in s ==> key(y) <= b
    ensures forall y :: y in r ==> key(y) <= b
  {
    forall y | y in r ensures key(y) <= b {
      assert y in multiset(r);
      if y != x {
        assert y in multiset(s);
      }
    }
  }

  /** The stable descending sort: `sorted(s, key=lambda e: -key(e))`. */
  function SortDesc<T>(s: seq<T>, key: T -> int): (r: seq<T>)
    ensures SortedDesc(r, key)
    ensures multiset(r) == multiset(s)
    ensures |r| == |s|
  {
    if s == [] then []
    else
      assert s == [s[0]] + s[1..];
      InsertDesc(s[0], SortDesc(s[1..], key), key)
  }

  lemma {:induction false} InsertDescWithKey<T>(x: T, s: seq<T>, key: T -> int, k: int)
    requires SortedDesc(s, key)
    ensures WithKey(InsertDesc(x, s, key), key, k)
         == (if key(x) == k then [x] else []) + WithKey(s, key, k)
  {
    if s == [] || key(s[0]) <= key(x) {
      var r := [x] + s;
      assert r[0] == x && r[1..] == s;
    } else {
      var rest := InsertDesc(x, s[1..], key);
      var r := [s[0]] + rest;
      assert InsertDesc(x, s, key) == r;
      assert r[0] == s[0] && r[1..] == rest;
      InsertDescWithKey(x, s[1..], key, k);
      var head := if key(s[0]) == k then [s[0]] else [];
      var mine := if key(x) == k then [x] else [];
      assert WithKey(r, key, k) == head + (mine + WithKey(s[1..], key, k));
      assert WithKey(s, key, k) == head + WithKey(s[1..], key, k);
      assert head == [] || mine == [];
    }
  }

  /** Cutting a sequence short cuts each of its key classes short. */
  lemma {:induction false} WithKeyOfPrefix<T>(s: seq<T>, key: T -> int, k: int, n: nat)
    requires n <= |s|
    ensures WithKey(s[..n], key, k) <= WithKey(s, key, k)
  {
    if n > 0 {
      WithKeyOfPrefix(s[1..], key, k, n - 1);
      assert s[..n][1..] == s[1..][..n - 1];
    }
  }

  /** Stability: among elements with equal keys the input order survives. */
  lemma {:induction false} SortDescStable<T>(s: seq<T>, key: T -> int, k: int)
    ensures WithKey(SortDesc(s, key), key, k) == WithKey(s, key, k)
  {
    if s != [] {
      SortDescStable(s[1..], key, k);
      InsertDescWithKey(s[0], SortDesc(s[1..], key), key, k);
    }
  }
}
