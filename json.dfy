/** JSON values as `json.loads` returns them, and the key-sorted canonical
    form that `json.dumps(..., sort_keys=True)` serialises. Two documents have
    equal `stable_hash` exactly when their canonical forms are equal (hash
    collisions are not modelled). Numbers are integers only. */
module Json {
  import opened Order

  datatype Json =
    | JNull
    | JBool(b: bool)
    | JNum(n: int)
    | JStr(s: string)
    | JArr(items: seq<Json>)
    | JObj(members: seq<Member>)  // a dict: members in insertion order

  datatype Member = Member(key: string, value: Json)

  function MemberKey(m: Member): string { m.key }

  /** The document with every object's members sorted by key, recursively. */
  function Canonical(j: Json): (c: Json)
    ensures c.JArr? <==> j.JArr?
    ensures c.JObj? <==> j.JObj?
    ensures j.JArr? ==> |c.items| == |j.items|
    ensures j.JObj? ==> |c.members| == |j.members|
    ensures !j.JArr? && !j.JObj? ==> c == j
    decreases j, 1
  {
    match j
    case JArr(items) => JArr(CanonItems(items))
    case JObj(ms) =>
      var sorted := SortBy(ms, MemberKey, StringLess);
      assert forall m :: m in sorted ==> m in ms by {
        forall m | m in sorted ensures m in ms { assert m in multiset(sorted); }
      }
      JObj(CanonMembers(sorted, j))
    case _ => j
  }

  function CanonItems(items: seq<Json>): (r: seq<Json>)
    ensures |r| == |items|
    decreases items, 0
  {
    if items == [] then [] else [Canonical(items[0])] + CanonItems(items[1..])
  }

  /** Canonicalises the values of `ms`, members of the object `parent`. */
  function CanonMembers(ms: seq<Member>, parent: Json): (r: seq<Member>)
    requires forall m :: m in ms ==> m < parent
    ensures |r| == |ms|
    ensures forall k :: 0 <= k < |ms| ==> r[k].key == ms[k].key
    decreases parent, 0, |ms|
  {
    if ms == [] then []
    else
      assert ms[0] in ms;
      assert forall m :: m in ms[1..] ==> m in ms;
      [Member(ms[0].key, Canonical(ms[0].value))] + CanonMembers(ms[1..], parent)
  }

  /** The canonical form orders every object's keys ascending. */
  ghost predicate KeysSorted(j: Json)
    decreases j
  {
    match j
    case JArr(items) => forall k :: 0 <= k < |items| ==> KeysSorted(items[k])
    case JObj(ms) =>
      (forall p, q :: 0 <= p < q < |ms| ==> !StringLess(ms[q].key, ms[p].key))
      && forall k :: 0 <= k < |ms| ==> KeysSorted(ms[k].value)
    case _ => true
  }

  lemma {:induction false} CanonicalKeysSorted(j: Json)
    ensures KeysSorted(Canonical(j))
    decreases j, 1
  {
    match j
    case JArr(items) => CanonItemsSorted(items);
    case JObj(ms) =>
      var sorted := SortBy(ms, MemberKey, StringLess);
      MembersSortedByKey(ms);
      assert forall m :: m in sorted ==> m in ms by {
        forall m | m in sorted ensures m in ms { assert m in multiset(sorted); }
      }
      CanonMembersSorted(sorted, j);
      ObjectSorted(CanonMembers(sorted, j), sorted);
    case _ =>
  }

  lemma {:induction false} CanonItemsSorted(items: seq<Json>)
    ensures forall k :: 0 <= k < |items| ==> KeysSorted(CanonItems(items)[k])
    decreases items, 0
  {
    if items != [] {
      CanonicalKeysSorted(items[0]);
      CanonItemsSorted(items[1..]);
      forall k | 1 <= k < |items| ensures KeysSorted(CanonItems(items)[k]) {
        assert CanonItems(items)[k] == CanonItems(items[1..])[k - 1];
      }
    }
  }

  /** Sorting by key orders the keys. */
  lemma MembersSortedByKey(ms: seq<Member>)
    ensures SortedBy(SortBy(ms, MemberKey, StringLess), MemberKey, StringLess)
  {
    StringLessOrder();
    SortBySorted(ms, MemberKey, StringLess);
  }

  /** An object whose keys follow a sorted list and whose values are sorted
      is sorted. */
  lemma ObjectSorted(r: seq<Member>, sorted: seq<Member>)
    requires |r| == |sorted| && forall k :: 0 <= k < |r| ==> r[k].key == sorted[k].key
    requires SortedBy(sorted, MemberKey, StringLess)
    requires forall k :: 0 <= k < |r| ==> KeysSorted(r[k].value)
    ensures KeysSorted(JObj(r))
  {
    forall p, q | 0 <= p < q < |r| ensures !StringLess(r[q].key, r[p].key) {
      assert MemberKey(sorted[q]) == r[q].key && MemberKey(sorted[p]) == r[p].key;
    }
  }

  /** Canonicalising the members' values leaves every nested object sorted. */
  lemma {:induction false} CanonMembersSorted(ms: seq<Member>, parent: Json)
    requires forall m :: m in ms ==> m < parent
    ensures forall k :: 0 <= k < |ms| ==> KeysSorted(CanonMembers(ms, parent)[k].value)
    decreases parent, 0, |ms|
  {
    if ms != [] {
      assert ms[0] in ms;
      CanonicalKeysSorted(ms[0].value);
      assert forall m :: m in ms[1..] ==> m in ms;
      CanonMembersSorted(ms[1..], parent);
      var r := CanonMembers(ms, parent);
      assert r[0].value == Canonical(ms[0].value);
      forall k | 1 <= k < |ms| ensures KeysSorted(r[k].value) {
        assert r[k] == CanonMembers(ms[1..], parent)[k - 1];
      }
    }
  }

  /** A dict's members have pairwise distinct keys. */
  ghost predicate UniqueKeys(ms: seq<Member>)
  {
    DistinctKeys(ms, MemberKey)
  }

  /** Reordering an object's members leaves its canonical form, and so its
      `stable_hash`, unchanged. */
  lemma CanonicalIgnoresKeyOrder(ms1: seq<Member>, ms2: seq<Member>)
    requires UniqueKeys(ms1)
    requires multiset(ms1) == multiset(ms2)
    ensures Canonical(JObj(ms1)) == Canonical(JObj(ms2))
  {
    StringLessOrder();
    var s1, s2 := SortBy(ms1, MemberKey, StringLess), SortBy(ms2, MemberKey, StringLess);
    SortBySorted(ms1, MemberKey, StringLess);
    SortBySorted(ms2, MemberKey, StringLess);
    SortByDistinct(ms1, MemberKey, StringLess);
    SortedUnique(s1, s2, MemberKey, StringLess);
    assert forall m :: m in s1 ==> m in ms1 && m in ms2 by {
      forall m | m in s1 ensures m in ms1 && m in ms2 { assert m in multiset(s1); }
    }
    CanonMembersAnyParent(s1, JObj(ms1), JObj(ms2));
    assert Canonical(JObj(ms1)) == JObj(CanonMembers(s1, JObj(ms1)));
    assert Canonical(JObj(ms2)) == JObj(CanonMembers(s2, JObj(ms2)));
  }

  /** The `parent` argument of `CanonMembers` only bounds the recursion. */
  lemma {:induction false} CanonMembersAnyParent(ms: seq<Member>, p1: Json, p2: Json)
    requires forall m :: m in ms ==> m < p1 && m < p2
    ensures CanonMembers(ms, p1) == CanonMembers(ms, p2)
    decreases |ms|
  {
    if ms != [] {
      assert forall m :: m in ms[1..] ==> m in ms;
      CanonMembersAnyParent(ms[1..], p1, p2);
    }
  }

  // ---------------------------------------------------------------
  // What equal `stable_hash` means
  // ---------------------------------------------------------------

  /** Every object, at any depth, has pairwise distinct keys, as in any
      document `json.loads` returns. */
  ghost predicate WellKeyed(j: Json)
    decreases j
  {
    match j
    case JArr(items) => forall k :: 0 <= k < |items| ==> WellKeyed(items[k])
    case JObj(ms) => UniqueKeys(ms) && forall k :: 0 <= k < |ms| ==> WellKeyed(ms[k].value)
    case _ => true
  }

  /** The same document up to the order of the members of its objects:
      arrays agree element by element; objects have the same keys, and
      members under equal keys have values that are again the same up to key
      order; all other values are equal. */
  ghost predicate SameUpToKeyOrder(a: Json, b: Json)
    decreases a
  {
    match a
    case JArr(xs) =>
      && b.JArr? && |xs| == |b.items|
      && forall k :: 0 <= k < |xs| ==> SameUpToKeyOrder(xs[k], b.items[k])
    case JObj(ms) =>
      && b.JObj?
      && (forall x :: x in KeySeq(ms) <==> x in KeySeq(b.members))
      && forall i, j :: 0 <= i < |ms| && 0 <= j < |b.members| && ms[i].key == b.members[j].key ==>
                          SameUpToKeyOrder(ms[i].value, b.members[j].value)
    case _ => a == b
  }

  /** `stable_hash` tells two documents apart exactly when they differ in
      more than the order of keys. */
  lemma CanonicalEqualIff(a: Json, b: Json)
    requires WellKeyed(a) && WellKeyed(b)
    ensures Canonical(a) == Canonical(b) <==> SameUpToKeyOrder(a, b)
  {
    if Canonical(a) == Canonical(b) {
      CanonicalEqualIsSame(a, b);
    }
    if SameUpToKeyOrder(a, b) {
      SameIsCanonicalEqual(a, b);
    }
  }

  /** Equal canonical forms: the documents differ at most in key order. */
  lemma {:induction false} CanonicalEqualIsSame(a: Json, b: Json)
    requires WellKeyed(a) && WellKeyed(b) && Canonical(a) == Canonical(b)
    ensures SameUpToKeyOrder(a, b)
    decreases a, 1
  {
    match a
    case JArr(xs) =>
      var ys := b.items;
      forall k | 0 <= k < |xs| ensures SameUpToKeyOrder(xs[k], ys[k]) {
        CanonItemsAt(xs, k);
        CanonItemsAt(ys, k);
        CanonicalEqualIsSame(xs[k], ys[k]);
      }
    case JObj(ms) =>
      var ns := b.members;
      var s1, s2 := SortBy(ms, MemberKey, StringLess), SortBy(ns, MemberKey, StringLess);
      SortedSameMembers(ms);
      SortedSameMembers(ns);
      SortByDistinct(ms, MemberKey, StringLess);
      CanonicalObjectsSame(ms, ns, s1, s2, a, b);
    case _ =>
  }

  /** The object case of `CanonicalEqualIsSame`, for sorted members `s1`
      and `s2`. */
  lemma {:induction false} CanonicalObjectsSame(ms: seq<Member>, ns: seq<Member>, s1: seq<Member>, s2: seq<Member>, a: Json, b: Json)
    requires a == JObj(ms) && b == JObj(ns)
    requires forall k :: 0 <= k < |ms| ==> WellKeyed(ms[k].value)
    requires forall k :: 0 <= k < |ns| ==> WellKeyed(ns[k].value)
    requires DistinctKeys(s1, MemberKey)
    requires forall m :: m in s1 <==> m in ms
    requires forall m :: m in s2 <==> m in ns
    requires CanonMembers(s1, a) == CanonMembers(s2, b)
    ensures SameUpToKeyOrder(a, b)
    decreases a, 0
  {
    assert KeySeq(s1) == KeySeq(s2) by {
      forall p | 0 <= p < |s1| ensures s1[p].key == s2[p].key {
        CanonMembersAt(s1, a, p);
        CanonMembersAt(s2, b, p);
      }
    }
    SameMembersSameKeys(s1, ms);
    SameMembersSameKeys(ms, s1);
    SameMembersSameKeys(s2, ns);
    SameMembersSameKeys(ns, s2);
    forall i, j | 0 <= i < |ms| && 0 <= j < |ns| && ms[i].key == ns[j].key
      ensures SameUpToKeyOrder(ms[i].value, ns[j].value)
    {
      assert ms[i] in s1;
      var p :| 0 <= p < |s1| && s1[p] == ms[i];
      assert ns[j] in s2;
      var q :| 0 <= q < |s2| && s2[q] == ns[j];
      assert KeySeq(s1)[q] == KeySeq(s2)[q];
      assert MemberKey(s1[p]) == MemberKey(s1[q]);
      assert p == q;
      CanonMembersAt(s1, a, p);
      CanonMembersAt(s2, b, p);
      CanonicalEqualIsSame(ms[i].value, ns[j].value);
    }
  }

  /** The same document up to key order: equal canonical forms. */
  lemma {:induction false} SameIsCanonicalEqual(a: Json, b: Json)
    requires WellKeyed(a) && WellKeyed(b) && SameUpToKeyOrder(a, b)
    ensures Canonical(a) == Canonical(b)
    decreases a, 1
  {
    match a
    case JArr(xs) =>
      var ys := b.items;
      forall k | 0 <= k < |xs| ensures CanonItems(xs)[k] == CanonItems(ys)[k] {
        CanonItemsAt(xs, k);
        CanonItemsAt(ys, k);
        SameIsCanonicalEqual(xs[k], ys[k]);
      }
    case JObj(ms) =>
      var ns := b.members;
      var s1, s2 := SortBy(ms, MemberKey, StringLess), SortBy(ns, MemberKey, StringLess);
      SortedSameMembers(ms);
      SortedSameMembers(ns);
      SameKeyOrder(ms, ns);
      SameObjectsCanonical(ms, ns, s1, s2, a, b);
    case _ =>
  }

  /** The object case of `SameIsCanonicalEqual`, for sorted members `s1`
      and `s2` that list the same keys in the same order. */
  lemma {:induction false} SameObjectsCanonical(ms: seq<Member>, ns: seq<Member>, s1: seq<Member>, s2: seq<Member>, a: Json, b: Json)
    requires a == JObj(ms) && b == JObj(ns)
    requires forall k :: 0 <= k < |ms| ==> WellKeyed(ms[k].value)
    requires forall k :: 0 <= k < |ns| ==> WellKeyed(ns[k].value)
    requires forall i, j :: 0 <= i < |ms| && 0 <= j < |ns| && ms[i].key == ns[j].key ==>
                              SameUpToKeyOrder(ms[i].value, ns[j].value)
    requires forall m :: m in s1 <==> m in ms
    requires forall m :: m in s2 <==> m in ns
    requires KeySeq(s1) == KeySeq(s2)
    ensures CanonMembers(s1, a) == CanonMembers(s2, b)
    decreases a, 0
  {
    forall p | 0 <= p < |s1| ensures CanonMembers(s1, a)[p] == CanonMembers(s2, b)[p] {
      assert KeySeq(s1)[p] == KeySeq(s2)[p];
      assert s1[p] in ms;
      var i :| 0 <= i < |ms| && ms[i] == s1[p];
      assert s2[p] in ns;
      var j :| 0 <= j < |ns| && ns[j] == s2[p];
      SameIsCanonicalEqual(ms[i].value, ns[j].value);
      CanonMembersAt(s1, a, p);
      CanonMembersAt(s2, b, p);
    }
  }

  /** Two objects with the same keys, each key once, list their members in
      the same key order once sorted. */
  lemma SameKeyOrder(ms: seq<Member>, ns: seq<Member>)
    requires UniqueKeys(ms) && UniqueKeys(ns)
    requires forall x :: x in KeySeq(ms) <==> x in KeySeq(ns)
    ensures KeySeq(SortBy(ms, MemberKey, StringLess)) == KeySeq(SortBy(ns, MemberKey, StringLess))
  {
    var s1, s2 := SortBy(ms, MemberKey, StringLess), SortBy(ns, MemberKey, StringLess);
    SortedKeysAscending(ms);
    SortedKeysAscending(ns);
    SortedSameMembers(ms);
    SortedSameMembers(ns);
    SameMembersSameKeys(s1, ms);
    SameMembersSameKeys(ms, s1);
    SameMembersSameKeys(s2, ns);
    SameMembersSameKeys(ns, s2);
    AscendingUnique(KeySeq(s1), KeySeq(s2));
  }

  /** Every key of `s` is a key of `t` when every member of `s` is one of `t`. */
  lemma SameMembersSameKeys(s: seq<Member>, t: seq<Member>)
    requires forall m :: m in s ==> m in t
    ensures forall x :: x in KeySeq(s) ==> x in KeySeq(t)
  {
    forall x | x in KeySeq(s) ensures x in KeySeq(t) {
      var p := KeyIndex(KeySeq(s), x);
      assert s[p] in t;
      var q :| 0 <= q < |t| && t[q] == s[p];
      KeyAt(t, q);
    }
  }

  lemma KeyAt(ms: seq<Member>, k: nat)
    requires k < |ms|
    ensures ms[k].key in KeySeq(ms)
  {
    assert KeySeq(ms)[k] == ms[k].key;
  }

  /** The keys of an object, in member order. */
  function KeySeq(ms: seq<Member>): (ks: seq<string>)
    ensures |ks| == |ms| && forall k :: 0 <= k < |ms| ==> ks[k] == ms[k].key
  {
    if ms == [] then [] else [ms[0].key] + KeySeq(ms[1..])
  }

  function KeyIndex(ks: seq<string>, x: string): (k: nat)
    requires x in ks
    ensures k < |ks| && ks[k] == x
  {
    if ks[0] == x then 0 else 1 + KeyIndex(ks[1..], x)
  }

  /** Sorting an object with distinct keys orders its keys strictly. */
  lemma SortedKeysAscending(ms: seq<Member>)
    requires UniqueKeys(ms)
    ensures StrictlyAscending(KeySeq(SortBy(ms, MemberKey, StringLess)))
  {
    var s := SortBy(ms, MemberKey, StringLess);
    MembersSortedByKey(ms);
    SortByDistinct(ms, MemberKey, StringLess);
    forall i, j | 0 <= i < j < |s| ensures StringLess(KeySeq(s)[i], KeySeq(s)[j]) {
      assert !StringLess(MemberKey(s[j]), MemberKey(s[i]));
      assert MemberKey(s[i]) != MemberKey(s[j]);
      StringLessFacts(s[i].key, s[j].key, s[i].key);
    }
  }

  lemma SortedSameMembers(ms: seq<Member>)
    ensures forall m :: m in SortBy(ms, MemberKey, StringLess) <==> m in ms
  {
    var s := SortBy(ms, MemberKey, StringLess);
    forall m ensures m in s <==> m in ms {
      assert m in s <==> m in multiset(s);
      assert m in ms <==> m in multiset(ms);
    }
  }

  lemma {:induction false} CanonItemsAt(items: seq<Json>, k: nat)
    requires k < |items|
    ensures CanonItems(items)[k] == Canonical(items[k])
    decreases k
  {
    if k > 0 {
      CanonItemsAt(items[1..], k - 1);
    }
  }

  lemma {:induction false} CanonMembersAt(ms: seq<Member>, parent: Json, k: nat)
    requires forall m :: m in ms ==> m < parent
    requires k < |ms|
    ensures CanonMembers(ms, parent)[k] == Member(ms[k].key, Canonical(ms[k].value))
    decreases k
  {
    if k > 0 {
      assert forall m :: m in ms[1..] ==> m in ms;
      CanonMembersAt(ms[1..], parent, k - 1);
    }
  }

  // ---------------------------------------------------------------
  // Dict access used by the index builders
  // ---------------------------------------------------------------

  /** `k in obj` for a dict; a value that is not a dict has no keys here. */
  predicate HasKey(j: Json, k: string)
  {
    j.JObj? && exists m :: m in j.members && m.key == k
  }

  /** `obj[k]`: the value of the (first) member with key `k`. */
  function Get(j: Json, k: string): (v: Json)
    requires HasKey(j, k)
    ensures Member(k, v) in j.members
  {
    GetMember(j.members, k)
  }

  function GetMember(ms: seq<Member>, k: string): (v: Json)
    requires exists m :: m in ms && m.key == k
    ensures Member(k, v) in ms
  {
    if ms[0].key == k then ms[0].value
    else
      assert exists m :: m in ms[1..] && m.key == k by {
        var m :| m in ms && m.key == k;
        assert m != ms[0];
        assert ms == [ms[0]] + ms[1..];
      }
      GetMember(ms[1..], k)
  }
}
