/** Lexicographic orders (Python's `<` on strings and on paths) and the
    stable sort that `sorted()` and `json.dumps(..., sort_keys=True)` apply. */
module Order {

  ghost predicate StrictTotalOrder<K(!new)>(lt: (K, K) -> bool)
  {
    (forall x :: !lt(x, x))
    && (forall x, y, z :: lt(x, y) && lt(y, z) ==> lt(x, z))
    && (forall x, y :: x == y || lt(x, y) || lt(y, x))
  }

  /** Lexicographic order on sequences, elements compared by `lt`: a proper
      prefix comes first. */
  predicate SeqLess<T(==)>(a: seq<T>, b: seq<T>, lt: (T, T) -> bool)
    decreases |a|
  {
    if |a| == 0 then |b| > 0
    else |b| > 0 && (lt(a[0], b[0]) || (a[0] == b[0] && SeqLess(a[1..], b[1..], lt)))
  }

  lemma {:induction false} SeqLessIrreflexive<T(!new)>(a: seq<T>, lt: (T, T) -> bool)
    requires StrictTotalOrder(lt)
    ensures !SeqLess(a, a, lt)
    decreases |a|
  {
    if |a| > 0 {
      SeqLessIrreflexive(a[1..], lt);
    }
  }

  lemma {:induction false} SeqLessTransitive<T(!new)>(a: seq<T>, b: seq<T>, c: seq<T>, lt: (T, T) -> bool)
    requires StrictTotalOrder(lt)
    requires SeqLess(a, b, lt) && SeqLess(b, c, lt)
    ensures SeqLess(a, c, lt)
    decreases |a|
  {
    if |a| > 0 && a[0] == b[0] && b[0] == c[0] {
      SeqLessTransitive(a[1..], b[1..], c[1..], lt);
    }
  }

  lemma {:induction false} SeqLessTotal<T(!new)>(a: seq<T>, b: seq<T>, lt: (T, T) -> bool)
    requires StrictTotalOrder(lt)
    ensures a == b || SeqLess(a, b, lt) || SeqLess(b, a, lt)
    decreases |a|
  {
    if |a| > 0 && |b| > 0 && a[0] == b[0] {
      SeqLessTotal(a[1..], b[1..], lt);
      if a[1..] == b[1..] {
        assert a == [a[0]] + a[1..] && b == [b[0]] + b[1..];
      }
    }
  }

  predicate CharLess(x: char, y: char) { x < y }

  /** Python's `<` on `str`: code-point lexicographic order. */
  predicate StringLess(a: string, b: string) { SeqLess(a, b, CharLess) }

  /** Python's `<` on `pathlib` paths: component-wise order of the parts. */
  predicate PathLess(p: seq<string>, q: seq<string>) { SeqLess(p, q, StringLess) }

  lemma SeqLessOrder<T(!new)>(lt: (T, T) -> bool)
    requires StrictTotalOrder(lt)
    ensures StrictTotalOrder((a: seq<T>, b: seq<T>) => SeqLess(a, b, lt))
  {
    forall a: seq<T> { SeqLessIrreflexive(a, lt); }
    forall a: seq<T>, b: seq<T>, c: seq<T> | SeqLess(a, b, lt) && SeqLess(b, c, lt)
      ensures SeqLess(a, c, lt)
    {
      SeqLessTransitive(a, b, c, lt);
    }
    forall a: seq<T>, b: seq<T> ensures a == b || SeqLess(a, b, lt) || SeqLess(b, a, lt) {
      SeqLessTotal(a, b, lt);
    }
  }

  lemma StringLessOrder()
    ensures StrictTotalOrder(StringLess)
  {
    assert StrictTotalOrder(CharLess);
    forall a: string { SeqLessIrreflexive(a, CharLess); }
    forall a: string, b: string, c: string | StringLess(a, b) && StringLess(b, c)
      ensures StringLess(a, c)
    {
      SeqLessTransitive(a, b, c, CharLess);
    }
    forall a: string, b: string ensures a == b || StringLess(a, b) || StringLess(b, a) {
      SeqLessTotal(a, b, CharLess);
    }
  }

  lemma PathLessOrder()
    ensures StrictTotalOrder(PathLess)
  {
    StringLessOrder();
    forall p: seq<string> { SeqLessIrreflexive(p, StringLess); }
    forall p: seq<string>, q: seq<string>, r: seq<string> | PathLess(p, q) && PathLess(q, r)
      ensures PathLess(p, r)
    {
      SeqLessTransitive(p, q, r, StringLess);
    }
    forall p: seq<string>, q: seq<string> ensures p == q || PathLess(p, q) || PathLess(q, p) {
      SeqLessTotal(p, q, StringLess);
    }
  }

  // ---------------------------------------------------------------
  // Sorting by a key
  // ---------------------------------------------------------------

  /** Keys never decrease along `s`. */
  ghost predicate SortedBy<T, K>(s: seq<T>, key: T -> K, lt: (K, K) -> bool)
  {
    forall i, j :: 0 <= i < j < |s| ==> !lt(key(s[j]), key(s[i]))
  }

  ghost predicate DistinctKeys<T, K>(s: seq<T>, key: T -> K)
  {
    forall i, j :: 0 <= i < j < |s| ==> key(s[i]) != key(s[j])
  }

  /** Places `x` in front of the first element whose key is not below `x`'s. */
  function Insert<T, K>(x: T, s: seq<T>, key: T -> K, lt: (K, K) -> bool): (r: seq<T>)
    ensures multiset(r) == multiset(s) + multiset{x}
  {
    if s == [] then [x]
    else if lt(key(s[0]), key(x)) then
      assert s == [s[0]] + s[1..];
      [s[0]] + Insert(x, s[1..], key, lt)
    else
      [x] + s
  }

  lemma {:induction false} InsertSorted<T, K(!new)>(x: T, s: seq<T>, key: T -> K, lt: (K, K) -> bool)
    requires StrictTotalOrder(lt) && SortedBy(s, key, lt)
    ensures SortedBy(Insert(x, s, key, lt), key, lt)
    decreases |s|
  {
    if s != [] && lt(key(s[0]), key(x)) {
      var rest := Insert(x, s[1..], key, lt);
      InsertSorted(x, s[1..], key, lt);
      assert s == [s[0]] + s[1..];
      forall k | 0 <= k < |rest| ensures !lt(key(rest[k]), key(s[0])) {
        assert rest[k] in multiset(rest);
        assert rest[k] == x || rest[k] in s[1..];
      }
      SortedCons(s[0], rest, key, lt);
    } else if s != [] {
      forall k | 0 <= k < |s| ensures !lt(key(s[k]), key(x)) {
        assert !lt(key(s[k]), key(s[0]));
      }
      SortedCons(x, s, key, lt);
    }
  }

  /** An element whose key is not above any key of a sorted sequence can go
      in front of it. */
  lemma SortedCons<T, K>(y: T, t: seq<T>, key: T -> K, lt: (K, K) -> bool)
    requires SortedBy(t, key, lt)
    requires forall k :: 0 <= k < |t| ==> !lt(key(t[k]), key(y))
    ensures SortedBy([y] + t, key, lt)
  {
    var r := [y] + t;
    forall i, j | 0 <= i < j < |r| ensures !lt(key(r[j]), key(r[i])) {
      assert r[j] == t[j - 1];
      if i > 0 {
        assert r[i] == t[i - 1];
      }
    }
  }

  lemma {:induction false} InsertDistinct<T, K>(x: T, s: seq<T>, key: T -> K, lt: (K, K) -> bool)
    requires DistinctKeys(s, key)
    requires forall y :: y in s ==> key(y) != key(x)
    ensures DistinctKeys(Insert(x, s, key, lt), key)
    decreases |s|
  {
    if s != [] && lt(key(s[0]), key(x)) {
      assert s == [s[0]] + s[1..];
      InsertDistinct(x, s[1..], key, lt);
      var r := Insert(x, s, key, lt);
      forall k | 1 <= k < |r| ensures key(r[k]) != key(s[0]) {
        assert r[k] in multiset(Insert(x, s[1..], key, lt));
        if r[k] != x {
          assert r[k] in s[1..];
          var m :| 0 <= m < |s[1..]| && s[1..][m] == r[k];
          assert s[m + 1] == r[k];
        }
      }
    }
  }

  /** Stable insertion sort by key: the order `sorted()` produces. */
  function SortBy<T, K>(s: seq<T>, key: T -> K, lt: (K, K) -> bool): (r: seq<T>)
    ensures multiset(r) == multiset(s)
  {
    if s == [] then []
    else
      assert s == [s[0]] + s[1..];
      Insert(s[0], SortBy(s[1..], key, lt), key, lt)
  }

  lemma {:induction false} SortBySorted<T, K(!new)>(s: seq<T>, key: T -> K, lt: (K, K) -> bool)
    requires StrictTotalOrder(lt)
    ensures SortedBy(SortBy(s, key, lt), key, lt)
    decreases |s|
  {
    if s != [] {
      SortBySorted(s[1..], key, lt);
      InsertSorted(s[0], SortBy(s[1..], key, lt), key, lt);
    }
  }

  lemma {:induction false} SortByDistinct<T, K>(s: seq<T>, key: T -> K, lt: (K, K) -> bool)
    requires DistinctKeys(s, key)
    ensures DistinctKeys(SortBy(s, key, lt), key)
    decreases |s|
  {
    if s != [] {
      var rest := SortBy(s[1..], key, lt);
      assert s == [s[0]] + s[1..];
      assert forall y :: y in rest ==> key(y) != key(s[0]) by {
        forall y | y in rest ensures key(y) != key(s[0]) {
          assert y in multiset(rest);
          var m :| 0 <= m < |s[1..]| && s[1..][m] == y;
          assert s[m + 1] == y;
        }
      }
      assert DistinctKeys(s[1..], key) by {
        forall i, j | 0 <= i < j < |s[1..]| ensures key(s[1..][i]) != key(s[1..][j]) {
          assert s[1..][i] == s[i + 1] && s[1..][j] == s[j + 1];
        }
      }
      SortByDistinct(s[1..], key, lt);
      InsertDistinct(s[0], rest, key, lt);
    }
  }

  /** Two sequences sorted by the same total order, holding the same elements,
      one of them with pairwise distinct keys, are equal: the sorted form of a
      collection does not depend on the order it was given in. */
  lemma {:induction false} SortedUnique<T, K(!new)>(a: seq<T>, b: seq<T>, key: T -> K, lt: (K, K) -> bool)
    requires StrictTotalOrder(lt)
    requires SortedBy(a, key, lt) && SortedBy(b, key, lt)
    requires DistinctKeys(a, key)
    requires multiset(a) == multiset(b)
    ensures a == b
    decreases |a|
  {
    if a != [] {
      SameHead(a, b, key, lt);
      SameTails(a, b);
      SortedTail(a, key, lt);
      SortedTail(b, key, lt);
      SortedUnique(a[1..], b[1..], key, lt);
    }
  }

  /** Two such lists start with the same element: each one's head is the
      least key of the other. */
  lemma SameHead<T, K(!new)>(a: seq<T>, b: seq<T>, key: T -> K, lt: (K, K) -> bool)
    requires StrictTotalOrder(lt)
    requires SortedBy(a, key, lt) && SortedBy(b, key, lt)
    requires DistinctKeys(a, key)
    requires multiset(a) == multiset(b)
    requires a != []
    ensures b != [] && a[0] == b[0]
  {
    assert |b| == |multiset(b)| == |multiset(a)| == |a|;
    assert a[0] in multiset(b);
    var j :| 0 <= j < |b| && b[j] == a[0];
    assert b[0] in multiset(a);
    var i :| 0 <= i < |a| && a[i] == b[0];
    assert !lt(key(a[i]), key(a[0])) && !lt(key(b[j]), key(b[0]));
    assert key(a[i]) == key(a[0]);
  }

  /** Equal multisets with equal heads have equal tails as multisets. */
  lemma SameTails<T>(a: seq<T>, b: seq<T>)
    requires a != [] && b != [] && a[0] == b[0]
    requires multiset(a) == multiset(b)
    ensures multiset(a[1..]) == multiset(b[1..])
  {
    assert a == [a[0]] + a[1..] && b == [b[0]] + b[1..];
    assert multiset(a[1..]) == multiset(a) - multiset{a[0]};
    assert multiset(b[1..]) == multiset(b) - multiset{b[0]};
  }

  /** Dropping the first element keeps a list sorted and its keys distinct. */
  lemma SortedTail<T, K>(s: seq<T>, key: T -> K, lt: (K, K) -> bool)
    requires s != []
    ensures SortedBy(s, key, lt) ==> SortedBy(s[1..], key, lt)
    ensures DistinctKeys(s, key) ==> DistinctKeys(s[1..], key)
  {
    forall p, q | 0 <= p < q < |s[1..]| ensures s[1..][p] == s[p + 1] && s[1..][q] == s[q + 1] {
    }
  }

  function Itself(x: string): string { x }

  /** Strictly ascending strings: sorted and free of duplicates. */
  predicate StrictlyAscending(s: seq<string>)
  {
    forall i, j :: 0 <= i < j < |s| ==> StringLess(s[i], s[j])
  }

  /** A strictly ascending list is determined by the set of its elements. */
  lemma AscendingUnique(a: seq<string>, b: seq<string>)
    requires StrictlyAscending(a) && StrictlyAscending(b)
    requires forall x :: x in a <==> x in b
    ensures a == b
  {
    StringLessOrder();
    assert SortedBy(a, Itself, StringLess) && SortedBy(b, Itself, StringLess) by {
      forall i, j | 0 <= i < j < |a| ensures !StringLess(a[j], a[i]) {
        assert StringLess(a[i], a[j]);
      }
      forall i, j | 0 <= i < j < |b| ensures !StringLess(b[j], b[i]) {
        assert StringLess(b[i], b[j]);
      }
    }
    assert DistinctKeys(a, Itself) by {
      forall i, j | 0 <= i < j < |a| ensures a[i] != a[j] {
        assert StringLess(a[i], a[j]);
      }
    }
    assert DistinctKeys(b, Itself) by {
      forall i, j | 0 <= i < j < |b| ensures b[i] != b[j] {
        assert StringLess(b[i], b[j]);
      }
    }
    DistinctSameElements(a, b);
    SortedUnique(a, b, Itself, StringLess);
  }

  lemma {:induction false} DistinctSameElements(a: seq<string>, b: seq<string>)
    requires DistinctKeys(a, Itself) && DistinctKeys(b, Itself)
    requires forall x :: x in a <==> x in b
    ensures multiset(a) == multiset(b)
  {
    assert forall x :: multiset(a)[x] <= 1 by {
      forall x ensures multiset(a)[x] <= 1 { CountAtMostOne(a, x); }
    }
    assert forall x :: multiset(b)[x] <= 1 by {
      forall x ensures multiset(b)[x] <= 1 { CountAtMostOne(b, x); }
    }
    forall x ensures multiset(a)[x] == multiset(b)[x] {
      assert (x in a) == (x in multiset(a));
      assert (x in b) == (x in multiset(b));
    }
  }

  lemma {:induction false} CountAtMostOne(s: seq<string>, x: string)
    requires DistinctKeys(s, Itself)
    ensures multiset(s)[x] <= 1
    decreases |s|
  {
    if s != [] {
      assert s == [s[0]] + s[1..];
      assert DistinctKeys(s[1..], Itself) by {
        forall i, j | 0 <= i < j < |s[1..]| ensures s[1..][i] != s[1..][j] {
          assert s[1..][i] == s[i + 1] && s[1..][j] == s[j + 1];
        }
      }
      CountAtMostOne(s[1..], x);
      if s[0] == x {
        assert x !in s[1..] by {
          forall k | 0 <= k < |s[1..]| ensures s[1..][k] != x {
            assert s[1..][k] == s[k + 1];
          }
        }
      }
    }
  }

  /** `<` on strings, one instance at a time. */
  lemma StringLessFacts(a: string, b: string, c: string)
    ensures !StringLess(a, a)
    ensures StringLess(a, b) && StringLess(b, c) ==> StringLess(a, c)
    ensures a == b || StringLess(a, b) || StringLess(b, a)
  {
    assert StrictTotalOrder(CharLess);
    SeqLessIrreflexive(a, CharLess);
    if StringLess(a, b) && StringLess(b, c) {
      SeqLessTransitive(a, b, c, CharLess);
    }
    SeqLessTotal(a, b, CharLess);
  }

  /** `m` is the least string of `s`. */
  predicate IsLeast(m: string, s: set<string>)
  {
    m in s && forall y :: y in s ==> !StringLess(y, m)
  }

  /** A non-empty set of strings has a least element. */
  lemma {:induction false} LeastExists(s: set<string>)
    requires s != {}
    ensures exists m :: IsLeast(m, s)
    decreases |s|
  {
    var x :| x in s;
    StringLessFacts(x, x, x);
    if s - {x} == {} {
      assert s == {x};
      assert IsLeast(x, s);
    } else {
      LeastExists(s - {x});
      var m :| IsLeast(m, s - {x});
      if StringLess(x, m) {
        forall y | y in s ensures !StringLess(y, x) {
          StringLessFacts(y, x, m);
        }
        assert IsLeast(x, s);
      } else {
        assert IsLeast(m, s);
      }
    }
  }

  /** The least element is below every other element, so it is unique. */
  lemma LeastBelowRest(m: string, s: set<string>)
    requires IsLeast(m, s)
    ensures forall y :: y in s && y != m ==> StringLess(m, y)
    ensures forall n :: IsLeast(n, s) ==> n == m
  {
    forall y | y in s && y != m ensures StringLess(m, y) {
      StringLessFacts(m, y, y);
    }
    forall n | IsLeast(n, s) ensures n == m {
      StringLessFacts(m, n, n);
    }
  }

  /** `sorted()` of a set of strings: its elements in ascending order. */
  function SortedSet(s: set<string>): (r: seq<string>)
    ensures StrictlyAscending(r)
    ensures forall x :: x in r <==> x in s
    ensures |r| == |s|
    decreases |s|
  {
    if s == {} then []
    else
      LeastExists(s);
      var m :| IsLeast(m, s);
      LeastBelowRest(m, s);
      var rest := SortedSet(s - {m});
      assert forall y :: y in rest ==> StringLess(m, y);
      assert forall j :: 0 <= j < |rest| ==> StringLess(m, rest[j]);
      [m] + rest
  }
}
