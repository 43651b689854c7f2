/** Orders used by every canonical form: strict lexicographic order on strings,
    integer tuples and string tuples, and a stable insertion sort whose result is
    determined by the set of its elements. */
module Orders {

  /** `lt` is a strict partial order. */
  ghost predicate StrictOrder<T(!new)>(lt: (T, T) -> bool) {
    && (forall x :: !lt(x, x))
    && (forall x, y, z :: lt(x, y) && lt(y, z) ==> lt(x, z))
  }

  /** Any two positions of `s` are comparable, so no element occurs twice. */
  ghost predicate TotalOn<T>(lt: (T, T) -> bool, s: seq<T>) {
    forall i, j :: 0 <= i < j < |s| ==> lt(s[i], s[j]) || lt(s[j], s[i])
  }

  ghost predicate Sorted<T>(lt: (T, T) -> bool, s: seq<T>) {
    forall i, j :: 0 <= i < j < |s| ==> lt(s[i], s[j])
  }

  ghost predicate Distinct<T>(s: seq<T>) {
    forall i, j :: 0 <= i < j < |s| ==> s[i] != s[j]
  }

  ghost predicate SameElements<T(!new)>(s: seq<T>, t: seq<T>) {
    forall x :: x in s <==> x in t
  }

  /** Stable insertion: `x` goes before the first element that is not less than it. */
  function Insert<T>(lt: (T, T) -> bool, x: T, s: seq<T>): (r: seq<T>)
    ensures |r| == |s| + 1
    ensures multiset(r) == multiset(s) + multiset{x}
  {
    if s == [] || !lt(s[0], x) then [x] + s
    else
      assert s == [s[0]] + s[1..];
      [s[0]] + Insert(lt, x, s[1..])
  }

  function Sort<T>(lt: (T, T) -> bool, s: seq<T>): (r: seq<T>)
    ensures |r| == |s|
    ensures multiset(r) == multiset(s)
  {
    if s == [] then []
    else
      assert s == [s[0]] + s[1..];
      Insert(lt, s[0], Sort(lt, s[1..]))
  }

  lemma SameMultiset<T(!new)>(s: seq<T>, t: seq<T>)
    requires multiset(s) == multiset(t)
    ensures SameElements(s, t)
  {
    forall x ensures x in s <==> x in t {
      assert x in s <==> x in multiset(s);
      assert x in t <==> x in multiset(t);
    }
  }

  lemma SortElements<T(!new)>(lt: (T, T) -> bool, s: seq<T>)
    ensures SameElements(Sort(lt, s), s)
  {
    SameMultiset(Sort(lt, s), s);
  }

  lemma PrependSorted<T(!new)>(lt: (T, T) -> bool, x: T, s: seq<T>)
    requires Sorted(lt, s) && forall y :: y in s ==> lt(x, y)
    ensures Sorted(lt, [x] + s)
  {
  }

  lemma {:induction false} InsertSorted<T(!new)>(lt: (T, T) -> bool, x: T, s: seq<T>)
    requires StrictOrder(lt) && Sorted(lt, s)
    requires forall y :: y in s ==> lt(x, y) || lt(y, x)
    ensures Sorted(lt, Insert(lt, x, s))
  {
    if s != [] && lt(s[0], x) {
      InsertSorted(lt, x, s[1..]);
      var t := Insert(lt, x, s[1..]);
      assert s == [s[0]] + s[1..];
      forall y | y in t ensures lt(s[0], y) {
        assert y in multiset(t);
        if y != x {
          assert y in multiset(s[1..]);
          assert y in s[1..];
        }
      }
      PrependSorted(lt, s[0], t);
    } else if s != [] {
      assert s[0] in s && lt(x, s[0]);
      forall y | y in s ensures lt(x, y) {
        var i :| 0 <= i < |s| && s[i] == y;
      }
      PrependSorted(lt, x, s);
    }
  }

  /** Sorting a sequence whose elements are pairwise comparable sorts it strictly. */
  lemma {:induction false} SortSorts<T(!new)>(lt: (T, T) -> bool, s: seq<T>)
    requires StrictOrder(lt) && TotalOn(lt, s)
    ensures Sorted(lt, Sort(lt, s))
  {
    if s == [] {
    } else {
      assert TotalOn(lt, s[1..]) by {
        forall i, j | 0 <= i < j < |s[1..]| ensures lt(s[1..][i], s[1..][j]) || lt(s[1..][j], s[1..][i]) {
          assert s[1..][i] == s[i + 1] && s[1..][j] == s[j + 1];
        }
      }
      SortSorts(lt, s[1..]);
      SortElements(lt, s[1..]);
      forall y | y in Sort(lt, s[1..]) ensures lt(s[0], y) || lt(y, s[0]) {
        assert y in s[1..];
        var k :| 0 <= k < |s[1..]| && s[1..][k] == y;
        assert s[k + 1] == y;
      }
      InsertSorted(lt, s[0], Sort(lt, s[1..]));
    }
  }

  /** Equal elements are next to each other and the others are in order. */
  ghost predicate WeaklySorted<T>(lt: (T, T) -> bool, s: seq<T>) {
    forall i, j :: 0 <= i < j < |s| ==> s[i] == s[j] || lt(s[i], s[j])
  }

  lemma {:induction false} InsertWeakly<T(!new)>(lt: (T, T) -> bool, x: T, s: seq<T>)
    requires StrictOrder(lt) && (forall a, b :: a == b || lt(a, b) || lt(b, a)) && WeaklySorted(lt, s)
    ensures WeaklySorted(lt, Insert(lt, x, s))
  {
    var r := Insert(lt, x, s);
    if s != [] && lt(s[0], x) {
      var t := Insert(lt, x, s[1..]);
      InsertWeakly(lt, x, s[1..]);
      assert r == [s[0]] + t && s == [s[0]] + s[1..];
      forall j | 0 < j < |r| ensures r[0] == r[j] || lt(r[0], r[j]) {
        assert r[j] in multiset(t);
        assert r[j] == x || r[j] in s[1..];
      }
    } else {
      assert r == [x] + s;
    }
  }

  /** A sequence that may repeat elements is sorted too. */
  lemma {:induction false} SortWeakly<T(!new)>(lt: (T, T) -> bool, s: seq<T>)
    requires StrictOrder(lt) && forall a, b :: a == b || lt(a, b) || lt(b, a)
    ensures WeaklySorted(lt, Sort(lt, s))
  {
    if s == [] {
    } else {
      SortWeakly(lt, s[1..]);
      InsertWeakly(lt, s[0], Sort(lt, s[1..]));
    }
  }

  lemma NonEmptyHasElement<T>(t: seq<T>)
    requires t != []
    ensures exists x :: x in t
  {
    assert t[0] in t;
  }

  /** Two strictly sorted sequences with the same elements are the same sequence. */
  lemma {:induction false} SortedUnique<T(!new)>(lt: (T, T) -> bool, s: seq<T>, t: seq<T>)
    requires StrictOrder(lt) && Sorted(lt, s) && Sorted(lt, t) && SameElements(s, t)
    ensures s == t
  {
    if s == [] {
      if t != [] { NonEmptyHasElement(t); assert false; }
    } else {
      assert s[0] in t;
      assert t[0] in s;
      assert s[0] == t[0];
      forall x ensures x in s[1..] <==> x in t[1..] {
        TailMembership(lt, s, x);
        TailMembership(lt, t, x);
      }
      SortedUnique(lt, s[1..], t[1..]);
      assert s == [s[0]] + s[1..] && t == [t[0]] + t[1..];
    }
  }

  lemma TailMembership<T(!new)>(lt: (T, T) -> bool, s: seq<T>, x: T)
    requires StrictOrder(lt) && Sorted(lt, s) && s != []
    ensures x in s[1..] <==> x in s && x != s[0]
  {
    if x in s && x != s[0] {
      var k :| 0 <= k < |s| && s[k] == x;
      assert s[1..][k - 1] == x;
    }
  }

  /** Sorting is the identity on sorted input. */
  lemma SortOfSorted<T(!new)>(lt: (T, T) -> bool, s: seq<T>)
    requires StrictOrder(lt) && Sorted(lt, s)
    ensures Sort(lt, s) == s
  {
    SortSorts(lt, s);
    SortElements(lt, s);
    SortedUnique(lt, Sort(lt, s), s);
  }

  lemma SortedIsDistinct<T(!new)>(lt: (T, T) -> bool, s: seq<T>)
    requires StrictOrder(lt) && Sorted(lt, s)
    ensures Distinct(s)
  {
    forall i, j | 0 <= i < j < |s| ensures s[i] != s[j] {
      assert lt(s[i], s[j]);
    }
  }

  lemma CountedTwice<T>(t: seq<T>, i: nat, j: nat)
    requires i < j < |t| && t[i] == t[j]
    ensures multiset(t)[t[i]] >= 2
  {
    assert t == t[..i] + [t[i]] + t[i + 1..j] + [t[j]] + t[j + 1..];
  }

  lemma DistinctSortDistinct<T(!new)>(lt: (T, T) -> bool, s: seq<T>)
    requires Distinct(s)
    ensures Distinct(Sort(lt, s))
  {
    DistinctByMultiset(s);
    var t := Sort(lt, s);
    forall i, j | 0 <= i < j < |t| ensures t[i] != t[j] {
      if t[i] == t[j] { CountedTwice(t, i, j); assert false; }
    }
  }

  lemma {:induction false} DistinctByMultiset<T(!new)>(s: seq<T>)
    requires Distinct(s)
    ensures forall x :: multiset(s)[x] <= 1
  {
    if s == [] {
    } else {
      assert Distinct(s[1..]) by {
        forall i, j | 0 <= i < j < |s[1..]| ensures s[1..][i] != s[1..][j] {
          assert s[i + 1] != s[j + 1];
        }
      }
      DistinctByMultiset(s[1..]);
      assert s == [s[0]] + s[1..];
      assert s[0] !in s[1..];
    }
  }

  /** A list that names each member of a set once is as long as the set is large. */
  lemma {:induction false} ListingSize<T(!new)>(s: seq<T>, values: set<T>)
    requires Distinct(s) && forall x :: x in s <==> x in values
    ensures |s| == |values|
  {
    if s == [] {
      assert values == {};
    } else {
      var rest := s[1..];
      assert s == [s[0]] + rest;
      forall i, j | 0 <= i < j < |rest| ensures rest[i] != rest[j] {
        assert s[i + 1] != s[j + 1];
      }
      forall i | 0 <= i < |rest| ensures rest[i] != s[0] {
        assert s[0] != s[i + 1];
      }
      ListingSize(rest, values - {s[0]});
    }
  }

  lemma {:induction false} Listing<T(!new)>(values: set<T>) returns (s: seq<T>)
    ensures Distinct(s) && forall x :: x in s <==> x in values
  {
    if values == {} {
      s := [];
    } else {
      var x :| x in values;
      var rest := Listing(values - {x});
      s := [x] + rest;
    }
  }

  /** Taking one occurrence of an element out of both sides keeps a permutation. */
  lemma CancelElement<T(!new)>(front: seq<T>, x: T, before: seq<T>, after: seq<T>)
    requires multiset(front + [x]) == multiset(before + [x] + after)
    ensures multiset(front) == multiset(before + after)
  {
    assert multiset(front) == multiset(front + [x]) - multiset{x};
    assert multiset(before + after) == multiset(before + [x] + after) - multiset{x};
  }

  // ----- strings -----

  /** Code-point order on strings, as the host language compares them. */
  predicate StrLess(a: string, b: string) {
    if b == [] then false
    else if a == [] then true
    else a[0] < b[0] || (a[0] == b[0] && StrLess(a[1..], b[1..]))
  }

  lemma {:induction false} StrTrichotomy(a: string, b: string)
    ensures !(StrLess(a, b) && StrLess(b, a))
    ensures !StrLess(a, a)
    ensures a != b ==> StrLess(a, b) || StrLess(b, a)
  {
    if a != [] {
      StrTrichotomy(a[1..], a[1..]);
    }
    if a != [] && b != [] {
      StrTrichotomy(a[1..], b[1..]);
      if a != b && a[0] == b[0] {
        assert a == [a[0]] + a[1..] && b == [b[0]] + b[1..];
      }
    }
  }

  lemma {:induction false} StrTransitive(a: string, b: string, c: string)
    requires StrLess(a, b) && StrLess(b, c)
    ensures StrLess(a, c)
  {
    if a != [] && b != [] && a[0] == b[0] && b[0] == c[0] {
      StrTransitive(a[1..], b[1..], c[1..]);
    }
  }

  /** One string comes before another exactly when it is a proper prefix of it or has the
      smaller character where they first differ. */
  lemma {:induction false} StrLessIff(a: string, b: string)
    ensures StrLess(a, b) <==>
            exists k :: 0 <= k <= |a| && k < |b| && a[..k] == b[..k] && (k == |a| || a[k] < b[k])
  {
    if a != [] && b != [] && a[0] == b[0] {
      var c, d := a[1..], b[1..];
      StrLessIff(c, d);
      if k :| 0 <= k <= |c| && k < |d| && c[..k] == d[..k] && (k == |c| || c[k] < d[k]) {
        assert a[..k + 1] == [a[0]] + c[..k] && b[..k + 1] == [b[0]] + d[..k];
      }
      if k :| 0 <= k <= |a| && k < |b| && a[..k] == b[..k] && (k == |a| || a[k] < b[k]) {
        assert k > 0 && c[..k - 1] == a[..k][1..] && d[..k - 1] == b[..k][1..];
      }
    } else if a != [] && b != [] {
      assert a[..0] == b[..0];
      if k :| 0 <= k <= |a| && k < |b| && a[..k] == b[..k] && (k == |a| || a[k] < b[k]) && k > 0 {
        assert a[..k][0] == b[..k][0];
      }
    } else if b != [] {
      assert a[..0] == b[..0];
    }
  }

  // ----- keys -----

  /** Sort keys: strings, integers, booleans (as 0 and 1), and tuples of keys. */
  datatype Key = Num(n: int) | Str(s: string) | Tup(parts: seq<Key>)

  /** The host language's comparison of keys of equal shape; keys of different
      shapes never meet, and are ordered by constructor to keep the order total. */
  predicate KeyLess(a: Key, b: Key)
    decreases a, 1
  {
    match (a, b)
    case (Num(m), Num(n)) => m < n
    case (Str(s), Str(t)) => StrLess(s, t)
    case (Tup(p), Tup(q)) => TupLess(p, q)
    case (Num(_), _) => true
    case (Str(_), Tup(_)) => true
    case _ => false
  }

  predicate TupLess(p: seq<Key>, q: seq<Key>)
    decreases p, 0
  {
    if q == [] then false
    else if p == [] then true
    else KeyLess(p[0], q[0]) || (p[0] == q[0] && TupLess(p[1..], q[1..]))
  }

  lemma {:induction false} KeyTrichotomy(a: Key, b: Key)
    ensures !(KeyLess(a, b) && KeyLess(b, a))
    ensures !KeyLess(a, a)
    ensures a != b ==> KeyLess(a, b) || KeyLess(b, a)
    decreases a, 1
  {
    match a
    case Num(_) =>
    case Str(s) =>
      StrTrichotomy(s, s);
      if b.Str? { StrTrichotomy(s, b.s); }
    case Tup(p) =>
      TupTrichotomy(p, p);
      if b.Tup? { TupTrichotomy(p, b.parts); }
  }

  lemma {:induction false} TupTrichotomy(p: seq<Key>, q: seq<Key>)
    ensures !(TupLess(p, q) && TupLess(q, p))
    ensures !TupLess(p, p)
    ensures p != q ==> TupLess(p, q) || TupLess(q, p)
    decreases p, 0
  {
    if p == [] {
    } else {
      KeyTrichotomy(p[0], p[0]);
      TupTrichotomy(p[1..], p[1..]);
      if q != [] {
        KeyTrichotomy(p[0], q[0]);
        TupTrichotomy(p[1..], q[1..]);
        assert p == [p[0]] + p[1..] && q == [q[0]] + q[1..];
      }
    }
  }

  lemma {:induction false} KeyTransitive(a: Key, b: Key, c: Key)
    requires KeyLess(a, b) && KeyLess(b, c)
    ensures KeyLess(a, c)
    decreases a, 1
  {
    match a
    case Num(_) =>
    case Str(s) => if b.Str? && c.Str? { StrTransitive(s, b.s, c.s); }
    case Tup(p) => if b.Tup? && c.Tup? { TupTransitive(p, b.parts, c.parts); }
  }

  lemma {:induction false} TupTransitive(p: seq<Key>, q: seq<Key>, r: seq<Key>)
    requires TupLess(p, q) && TupLess(q, r)
    ensures TupLess(p, r)
    decreases p, 0
  {
    if p == [] {
    } else {
      if KeyLess(p[0], q[0]) && KeyLess(q[0], r[0]) {
        KeyTransitive(p[0], q[0], r[0]);
      } else if p[0] == q[0] && q[0] == r[0] {
        TupTransitive(p[1..], q[1..], r[1..]);
      }
    }
  }

  lemma TupLessStep(p: seq<Key>, q: seq<Key>)
    ensures p != [] && q != [] ==>
              (TupLess(p, q) <==> KeyLess(p[0], q[0]) || (p[0] == q[0] && TupLess(p[1..], q[1..])))
    ensures q == [] ==> !TupLess(p, q)
    ensures p == [] && q != [] ==> TupLess(p, q)
  {
  }

  /** One tuple comes before another exactly when it is a proper prefix of it or has the
      lesser component where they first differ. */
  lemma {:induction false} TupLessIff(p: seq<Key>, q: seq<Key>)
    ensures TupLess(p, q) <==>
            exists k :: 0 <= k <= |p| && k < |q| && p[..k] == q[..k] && (k == |p| || KeyLess(p[k], q[k]))
  {
    hide TupLess, KeyLess;
    TupLessStep(p, q);
    if p != [] && q != [] {
      var c, d := p[1..], q[1..];
      TupLessIff(c, d);
      KeyTrichotomy(p[0], p[0]);
      assert p[..0] == q[..0];
      if p[0] == q[0] {
        if k :| 0 <= k <= |c| && k < |d| && c[..k] == d[..k] && (k == |c| || KeyLess(c[k], d[k])) {
          assert p[..k + 1] == [p[0]] + c[..k] && q[..k + 1] == [q[0]] + d[..k];
        }
      }
      if k :| 0 <= k <= |p| && k < |q| && p[..k] == q[..k] && (k == |p| || KeyLess(p[k], q[k])) && k > 0 {
        assert p[..k][0] == q[..k][0];
        assert c[..k - 1] == p[..k][1..] && d[..k - 1] == q[..k][1..];
      }
    } else if q != [] {
      assert p[..0] == q[..0];
    }
  }

  /** The comparison of values by their keys. */
  function ByKey<T>(key: T -> Key): (T, T) -> bool {
    (x, y) => KeyLess(key(x), key(y))
  }

  lemma ByKeyOrder<T(!new)>(key: T -> Key)
    ensures StrictOrder(ByKey(key))
  {
    var lt := ByKey(key);
    forall x ensures !lt(x, x) {
      KeyTrichotomy(key(x), key(x));
    }
    forall x, y, z | lt(x, y) && lt(y, z) ensures lt(x, z) {
      KeyTransitive(key(x), key(y), key(z));
    }
  }

  /** No two positions of `s` share a key. */
  ghost predicate UniqueKeys<T>(key: T -> Key, s: seq<T>) {
    forall i, j :: 0 <= i < j < |s| ==> key(s[i]) != key(s[j])
  }

  lemma UniqueKeysTotal<T(!new)>(key: T -> Key, s: seq<T>)
    requires UniqueKeys(key, s)
    ensures TotalOn(ByKey(key), s)
  {
    forall i, j | 0 <= i < j < |s| ensures ByKey(key)(s[i], s[j]) || ByKey(key)(s[j], s[i]) {
      KeyTrichotomy(key(s[i]), key(s[j]));
    }
  }

  /** Unique keys survive permutation. */
  lemma UniqueKeysPermute<T(!new)>(key: T -> Key, s: seq<T>, t: seq<T>)
    requires multiset(s) == multiset(t) && UniqueKeys(key, t)
    ensures UniqueKeys(key, s)
  {
    forall i, j | 0 <= i < j < |s| ensures key(s[i]) != key(s[j]) {
      if key(s[i]) == key(s[j]) {
        SharedKeyPermutes(key, s, t, i, j);
        assert false;
      }
    }
  }

  lemma SharedKeyPermutes<T(!new)>(key: T -> Key, s: seq<T>, t: seq<T>, i: nat, j: nat)
    requires multiset(s) == multiset(t) && i < j < |s| && key(s[i]) == key(s[j])
    ensures !UniqueKeys(key, t)
  {
    if s[i] == s[j] {
      CountedTwice(s, i, j);
      if UniqueKeys(key, t) {
        assert Distinct(t);
        DistinctByMultiset(t);
        assert false;
      }
    } else {
      assert s[i] in multiset(s) && s[j] in multiset(s);
      var a :| 0 <= a < |t| && t[a] == s[i];
      var b :| 0 <= b < |t| && t[b] == s[j];
      assert key(t[a]) == key(t[b]) && a != b;
    }
  }

  /** Sorting by a key that turns out unique gives the strictly sorted permutation. */
  lemma SortByUniqueKey<T(!new)>(key: T -> Key, s: seq<T>)
    requires UniqueKeys(key, Sort(ByKey(key), s)) || UniqueKeys(key, s)
    ensures Sorted(ByKey(key), Sort(ByKey(key), s))
    ensures SameElements(Sort(ByKey(key), s), s)
  {
    ByKeyOrder(key);
    if !UniqueKeys(key, s) {
      UniqueKeysPermute(key, s, Sort(ByKey(key), s));
    }
    UniqueKeysTotal(key, s);
    SortSorts(ByKey(key), s);
    SortElements(ByKey(key), s);
  }

  // ----- sorting sets -----

  predicate InjectiveOn<T(!new)>(key: T -> Key, s: set<T>) {
    forall x, y :: x in s && y in s && key(x) == key(y) ==> x == y
  }

  predicate IsLeast<T(!new)>(key: T -> Key, s: set<T>, x: T) {
    x in s && forall y :: y in s && y != x ==> KeyLess(key(x), key(y))
  }

  lemma {:induction false} LeastExists<T(!new)>(key: T -> Key, s: set<T>)
    requires s != {} && InjectiveOn(key, s)
    ensures exists x :: IsLeast(key, s, x)
  {
    var z :| z in s;
    if s == {z} {
      assert IsLeast(key, s, z);
    } else {
      LeastExists(key, s - {z});
      var x :| IsLeast(key, s - {z}, x);
      KeyTrichotomy(key(z), key(x));
      if KeyLess(key(x), key(z)) {
        assert IsLeast(key, s, x);
      } else {
        forall y | y in s && y != z ensures KeyLess(key(z), key(y)) {
          if y != x { KeyTransitive(key(z), key(x), key(y)); }
        }
        assert IsLeast(key, s, z);
      }
    }
  }

  lemma LeastUnique<T(!new)>(key: T -> Key, s: set<T>, x: T, y: T)
    requires IsLeast(key, s, x) && IsLeast(key, s, y)
    ensures x == y
  {
    KeyTrichotomy(key(x), key(y));
  }

  /** The elements of a set in the order of their keys. */
  function SortSet<T(!new, ==)>(key: T -> Key, s: set<T>): (r: seq<T>)
    requires InjectiveOn(key, s)
    ensures forall x :: x in r <==> x in s
    ensures Sorted(ByKey(key), r)
    ensures |r| == |s|
  {
    if s == {} then []
    else
      LeastExists(key, s);
      assert forall x, y :: IsLeast(key, s, x) && IsLeast(key, s, y) ==> x == y by {
        forall x, y | IsLeast(key, s, x) && IsLeast(key, s, y) ensures x == y {
          LeastUnique(key, s, x, y);
        }
      }
      var x :| x in s && IsLeast(key, s, x);
      [x] + SortSet(key, s - {x})
  }

  /** A sorted set repeats nothing, and sorting it again changes nothing. */
  lemma SortedSetFacts<T(!new)>(key: T -> Key, s: set<T>)
    requires InjectiveOn(key, s)
    ensures Distinct(SortSet(key, s)) && Sort(ByKey(key), SortSet(key, s)) == SortSet(key, s)
  {
    ByKeyOrder(key);
    SortedIsDistinct(ByKey(key), SortSet(key, s));
    SortOfSorted(ByKey(key), SortSet(key, s));
  }

  /** Sorting a listing of a set, in whatever order, sorts the set. */
  lemma SortOfListing<T(!new)>(key: T -> Key, listing: seq<T>, s: set<T>)
    requires InjectiveOn(key, s) && Distinct(listing) && forall x :: x in listing <==> x in s
    ensures Sort(ByKey(key), listing) == SortSet(key, s)
  {
    assert UniqueKeys(key, listing) by {
      forall i, j | 0 <= i < j < |listing| ensures key(listing[i]) != key(listing[j]) {
        assert listing[i] in s && listing[j] in s;
      }
    }
    SortByUniqueKey(key, listing);
    ByKeyOrder(key);
    SortedUnique(ByKey(key), Sort(ByKey(key), listing), SortSet(key, s));
  }

  function StrKey(s: string): Key { Str(s) }
}
