/**
 * The LINQ operators the import and the uniqueness check use, as functions on
 * sequences: DistinctBy (first element per key wins), a "key not among these"
 * Where, Count, Distinct and Intersect.
 */
module Collections {

  /** The keys that occur in `s`. */
  function KeySet<T, K(==)>(s: seq<T>, key: T -> K): set<K>
  {
    set i | 0 <= i < |s| :: key(s[i])
  }

  /** No two elements of `s` share a key: what a unique index on `key` demands. */
  predicate UniqueKeys<T, K(==)>(s: seq<T>, key: T -> K)
  {
    forall i, j :: 0 <= i < j < |s| ==> key(s[i]) != key(s[j])
  }

  lemma KeySetAppend<T, K>(a: seq<T>, b: seq<T>, key: T -> K)
    ensures KeySet(a + b, key) == KeySet(a, key) + KeySet(b, key)
  {
    var ab := a + b;
    forall k | k in KeySet(ab, key) ensures k in KeySet(a, key) + KeySet(b, key) {
      var i :| 0 <= i < |ab| && key(ab[i]) == k;
      if i >= |a| {
        assert ab[i] == b[i - |a|];
      }
    }
    forall k | k in KeySet(a, key) + KeySet(b, key) ensures k in KeySet(ab, key) {
      if k in KeySet(a, key) {
        var i :| 0 <= i < |a| && key(a[i]) == k;
        assert ab[i] == a[i];
      } else {
        var i :| 0 <= i < |b| && key(b[i]) == k;
        assert ab[|a| + i] == b[i];
      }
    }
  }

  lemma KeySetCons<T, K>(x: T, s: seq<T>, key: T -> K)
    ensures KeySet([x] + s, key) == {key(x)} + KeySet(s, key)
  {
    KeySetAppend([x], s, key);
    assert KeySet([x], key) == {key(x)} by {
      assert key([x][0]) == key(x);
    }
  }

  /** Two key-unique sequences with disjoint key sets concatenate to a key-unique one. */
  lemma UniqueKeysAppend<T, K>(a: seq<T>, b: seq<T>, key: T -> K)
    requires UniqueKeys(a, key) && UniqueKeys(b, key)
    requires KeySet(a, key) !! KeySet(b, key)
    ensures UniqueKeys(a + b, key)
  {
    var ab := a + b;
    forall i, j | 0 <= i < j < |ab| ensures key(ab[i]) != key(ab[j]) {
      if j < |a| {
        assert ab[i] == a[i] && ab[j] == a[j];
      } else if i >= |a| {
        assert ab[i] == b[i - |a|] && ab[j] == b[j - |a|];
      } else {
        assert ab[i] == a[i] && ab[j] == b[j - |a|];
        assert key(a[i]) in KeySet(a, key) && key(b[j - |a|]) in KeySet(b, key);
      }
    }
  }

  /**
   * Enumerable.DistinctBy, with the set of keys already yielded: an element
   * is yielded when its key has not been seen, and skipped otherwise.
   */
  function DistinctByFrom<T, K(==)>(s: seq<T>, key: T -> K, seen: set<K>): seq<T>
  {
    if s == [] then []
    else if key(s[0]) in seen then DistinctByFrom(s[1..], key, seen)
    else [s[0]] + DistinctByFrom(s[1..], key, seen + {key(s[0])})
  }

  /** Enumerable.DistinctBy(key) */
  function DistinctBy<T, K(==)>(s: seq<T>, key: T -> K): seq<T>
  {
    DistinctByFrom(s, key, {})
  }

  /** `y` occurs in `s` with no element before it sharing its key. */
  ghost predicate FirstOfKey<T, K>(s: seq<T>, key: T -> K, y: T)
  {
    exists i :: 0 <= i < |s| && s[i] == y && forall j :: 0 <= j < i ==> key(s[j]) != key(y)
  }

  /** Putting an element of another key in front keeps `y` first of its key. */
  lemma FirstOfKeyCons<T, K>(x: T, t: seq<T>, key: T -> K, y: T)
    requires FirstOfKey(t, key, y) && key(x) != key(y)
    ensures FirstOfKey([x] + t, key, y)
  {
    var s := [x] + t;
    var i :| 0 <= i < |t| && t[i] == y && forall j :: 0 <= j < i ==> key(t[j]) != key(y);
    assert s[i + 1] == y;
    forall j | 0 <= j < i + 1 ensures key(s[j]) != key(y) {
      if j > 0 { assert s[j] == t[j - 1]; }
    }
  }

  /** A key-unique tail whose keys avoid the head's makes a key-unique sequence. */
  lemma UniqueKeysCons<T, K>(x: T, t: seq<T>, key: T -> K)
    requires UniqueKeys(t, key) && key(x) !in KeySet(t, key)
    ensures UniqueKeys([x] + t, key)
  {
    var s := [x] + t;
    forall i, j | 0 <= i < j < |s| ensures key(s[i]) != key(s[j]) {
      assert s[j] == t[j - 1];
      if i == 0 {
        assert key(t[j - 1]) in KeySet(t, key);
      } else {
        assert s[i] == t[i - 1];
      }
    }
  }

  /** The tail of a key-unique sequence is key-unique and avoids the head's key. */
  lemma UniqueKeysTail<T, K>(s: seq<T>, key: T -> K)
    requires s != [] && UniqueKeys(s, key)
    ensures UniqueKeys(s[1..], key) && key(s[0]) !in KeySet(s[1..], key)
  {
    var t := s[1..];
    forall i, j | 0 <= i < j < |t| ensures key(t[i]) != key(t[j]) {
      assert t[i] == s[i + 1] && t[j] == s[j + 1];
    }
    forall i | 0 <= i < |t| ensures key(t[i]) != key(s[0]) {
      assert t[i] == s[i + 1];
    }
  }

  /** DistinctByFrom keeps every unseen key exactly once and no seen key. */
  lemma {:induction false} DistinctByFromKeys<T, K>(s: seq<T>, key: T -> K, seen: set<K>)
    ensures UniqueKeys(DistinctByFrom(s, key, seen), key)
    ensures KeySet(DistinctByFrom(s, key, seen), key) == KeySet(s, key) - seen
  {
    if s != [] {
      var x, t := s[0], s[1..];
      assert s == [x] + t;
      KeySetCons(x, t, key);
      if key(x) in seen {
        DistinctByFromKeys(t, key, seen);
      } else {
        var r' := DistinctByFrom(t, key, seen + {key(x)});
        DistinctByFromKeys(t, key, seen + {key(x)});
        KeySetCons(x, r', key);
        UniqueKeysCons(x, r', key);
      }
    }
  }

  /** Each element DistinctByFrom keeps is the first of `s` with its key. */
  lemma {:induction false} DistinctByFromFirst<T, K>(s: seq<T>, key: T -> K, seen: set<K>)
    ensures forall y :: y in DistinctByFrom(s, key, seen) ==> FirstOfKey(s, key, y)
  {
    if s != [] {
      var x, t := s[0], s[1..];
      assert s == [x] + t;
      var r := DistinctByFrom(s, key, seen);
      var seen' := if key(x) in seen then seen else seen + {key(x)};
      var r' := DistinctByFrom(t, key, seen');
      DistinctByFromFirst(t, key, seen');
      DistinctByFromKeys(t, key, seen');
      assert r == if key(x) in seen then r' else [x] + r';
      forall y | y in r ensures FirstOfKey(s, key, y) {
        if y in r' {
          assert key(y) in KeySet(r', key);
          FirstOfKeyCons(x, t, key, y);
        } else {
          assert s[0] == y;
        }
      }
    }
  }

  /**
   * What DistinctByFrom keeps: every unseen key exactly once, no seen key,
   * and for each key the first element of `s` that carries it.
   */
  lemma DistinctByFromSpec<T, K>(s: seq<T>, key: T -> K, seen: set<K>)
    ensures UniqueKeys(DistinctByFrom(s, key, seen), key)
    ensures KeySet(DistinctByFrom(s, key, seen), key) == KeySet(s, key) - seen
    ensures forall x :: x in DistinctByFrom(s, key, seen) ==>
      exists i :: 0 <= i < |s| && s[i] == x && forall j :: 0 <= j < i ==> key(s[j]) != key(x)
  {
    DistinctByFromKeys(s, key, seen);
    DistinctByFromFirst(s, key, seen);
  }

  /**
   * DistinctByFrom in file order: one more element at the end of the input
   * adds that element at the end of the output exactly when its key is new.
   */
  lemma {:induction false} DistinctByFromSnoc<T, K>(s: seq<T>, x: T, key: T -> K, seen: set<K>)
    ensures DistinctByFrom(s + [x], key, seen)
         == DistinctByFrom(s, key, seen) + (if key(x) in seen + KeySet(s, key) then [] else [x])
  {
    if s == [] {
      assert [] + [x] == [x];
      assert KeySet(s, key) == {};
      assert [x][1..] == [];
    } else {
      assert (s + [x])[0] == s[0] && (s + [x])[1..] == s[1..] + [x];
      KeySetCons(s[0], s[1..], key);
      assert s == [s[0]] + s[1..];
      if key(s[0]) in seen {
        DistinctByFromSnoc(s[1..], x, key, seen);
      } else {
        DistinctByFromSnoc(s[1..], x, key, seen + {key(s[0])});
      }
    }
  }

  /** Where(x => !excluded.Contains(key(x))) */
  function ExceptKeys<T, K(==)>(s: seq<T>, key: T -> K, excluded: set<K>): seq<T>
  {
    if s == [] then []
    else (if key(s[0]) in excluded then [] else [s[0]]) + ExceptKeys(s[1..], key, excluded)
  }

  /**
   * The filter keeps exactly the elements whose key is not excluded, keeps
   * their order (it distributes over concatenation) and keeps keys unique.
   */
  lemma {:induction false} ExceptKeysSpec<T, K>(s: seq<T>, key: T -> K, excluded: set<K>)
    ensures forall x :: x in ExceptKeys(s, key, excluded) <==> x in s && key(x) !in excluded
    ensures KeySet(ExceptKeys(s, key, excluded), key) == KeySet(s, key) - excluded
    ensures UniqueKeys(s, key) ==> UniqueKeys(ExceptKeys(s, key, excluded), key)
  {
    if s != [] {
      var x, t := s[0], s[1..];
      assert s == [x] + t;
      ExceptKeysSpec(t, key, excluded);
      var rt := ExceptKeys(t, key, excluded);
      var r := ExceptKeys(s, key, excluded);
      KeySetCons(x, t, key);
      if key(x) in excluded {
        assert r == rt;
      } else {
        assert r == [x] + rt;
        KeySetCons(x, rt, key);
      }
      if UniqueKeys(s, key) {
        UniqueKeysTail(s, key);
        if key(x) !in excluded {
          UniqueKeysCons(x, rt, key);
        }
      }
    }
  }

  lemma {:induction false} ExceptKeysAppend<T, K>(a: seq<T>, b: seq<T>, key: T -> K, excluded: set<K>)
    ensures ExceptKeys(a + b, key, excluded) == ExceptKeys(a, key, excluded) + ExceptKeys(b, key, excluded)
  {
    if a == [] {
      assert a + b == b;
    } else {
      assert (a + b)[0] == a[0] && (a + b)[1..] == a[1..] + b;
      ExceptKeysAppend(a[1..], b, key, excluded);
    }
  }

  /** Everything is excluded once every key is. */
  lemma {:induction false} ExceptAllKeys<T, K>(s: seq<T>, key: T -> K, excluded: set<K>)
    requires KeySet(s, key) <= excluded
    ensures ExceptKeys(s, key, excluded) == []
  {
    if s != [] {
      KeySetCons(s[0], s[1..], key);
      assert s == [s[0]] + s[1..];
      ExceptAllKeys(s[1..], key, excluded);
    }
  }

  function Identity<T>(x: T): T
  {
    x
  }

  /** Enumerable.Distinct: the first occurrence of each value, in order. */
  function Distinct<T(==)>(s: seq<T>): seq<T>
  {
    DistinctBy(s, Identity)
  }

  /** The values of `s`, distinct, each in the place of its first occurrence. */
  lemma DistinctSpec<T>(s: seq<T>)
    ensures forall x :: x in Distinct(s) <==> x in s
    ensures UniqueKeys(Distinct(s), Identity)
  {
    DistinctByFromSpec(s, Identity, {});
    var d := Distinct(s);
    forall x ensures x in d <==> x in s {
      assert x in d <==> Identity(x) in KeySet(d, Identity) by {
        if x in d {
          var i :| 0 <= i < |d| && d[i] == x;
          assert Identity(d[i]) == x;
        }
      }
      assert x in s <==> Identity(x) in KeySet(s, Identity) by {
        if x in s {
          var i :| 0 <= i < |s| && s[i] == x;
          assert Identity(s[i]) == x;
        }
      }
    }
  }

  /** The number of times `x` occurs in `s`. */
  function Count<T(==)>(s: seq<T>, x: T): nat
  {
    if s == [] then 0 else (if s[0] == x then 1 else 0) + Count(s[1..], x)
  }

  /** No value occurs twice. */
  predicate NoDuplicates<T(==)>(s: seq<T>)
  {
    forall i, j :: 0 <= i < j < |s| ==> s[i] != s[j]
  }

  /** A sequence has no duplicates exactly when no value occurs in it more than once. */
  lemma {:induction false} NoDuplicatesCount<T>(s: seq<T>)
    ensures NoDuplicates(s) <==> forall x :: x in s ==> Count(s, x) <= 1
  {
    if s != [] {
      var t := s[1..];
      NoDuplicatesCount(t);
      CountPositive(t, s[0]);
      assert s == [s[0]] + t;
      if NoDuplicates(s) {
        NoDuplicatesTail(s);
      }
      if forall x :: x in s ==> Count(s, x) <= 1 {
        assert s[0] in s && Count(s, s[0]) == 1 + Count(t, s[0]);
        forall x | x in t ensures Count(t, x) <= 1 {
          assert x in s;
        }
        NoDuplicatesCons(s[0], t);
      }
    }
  }

  lemma {:induction false} CountPositive<T>(s: seq<T>, x: T)
    ensures Count(s, x) > 0 <==> x in s
  {
    if s != [] {
      CountPositive(s[1..], x);
      assert s == [s[0]] + s[1..];
    }
  }

  /** The sub-sequence of `s` whose elements satisfy `p`. */
  function Filter<T(!new)>(s: seq<T>, p: T -> bool): (r: seq<T>)
    ensures forall x :: x in r <==> x in s && p(x)
    ensures |r| <= |s|
    ensures (forall i :: 0 <= i < |s| ==> !p(s[i])) ==> r == []
  {
    if s == [] then []
    else (if p(s[0]) then [s[0]] else []) + Filter(s[1..], p)
  }

  /** The index of the first occurrence of `x` in `s`, or `|s|` when `x` does not occur. */
  function FirstIndex<T(==)>(s: seq<T>, x: T): (n: nat)
    ensures n <= |s| && (n < |s| <==> x in s)
    ensures n < |s| ==> s[n] == x
    ensures forall j :: 0 <= j < n ==> s[j] != x
  {
    if s == [] then 0
    else if s[0] == x then 0
    else
      assert s == [s[0]] + s[1..];
      1 + FirstIndex(s[1..], x)
  }

  /** `r` lists its values in the order in which they first occur in `s`. */
  predicate InFirstOccurrenceOrder<T(==)>(r: seq<T>, s: seq<T>)
  {
    forall i, j :: 0 <= i < j < |r| ==> FirstIndex(s, r[i]) < FirstIndex(s, r[j])
  }

  /** Distinct yields each value at the place of its first occurrence, so in first-occurrence order. */
  lemma {:induction false} DistinctFromOrder<T>(s: seq<T>, seen: set<T>)
    ensures InFirstOccurrenceOrder(DistinctByFrom(s, Identity, seen), s)
  {
    if s != [] {
      var x, t := s[0], s[1..];
      var seen' := if x in seen then seen else seen + {x};
      var r' := DistinctByFrom(t, Identity, seen');
      DistinctFromOrder(t, seen');
      DistinctByFromKeys(t, Identity, seen');
      forall i | 0 <= i < |r'| ensures FirstIndex(s, r'[i]) == 1 + FirstIndex(t, r'[i]) {
        assert Identity(r'[i]) in KeySet(r', Identity);
      }
      var r := DistinctByFrom(s, Identity, seen);
      if x !in seen {
        assert r == [x] + r';
        forall i, j | 0 <= i < j < |r| ensures FirstIndex(s, r[i]) < FirstIndex(s, r[j]) {
          assert r[j] == r'[j - 1];
          if i > 0 { assert r[i] == r'[i - 1]; }
        }
      }
    }
  }

  /** The tail of an ordered sequence is ordered, and its head comes before every later value. */
  lemma OrderTail<T>(r: seq<T>, s: seq<T>)
    requires r != [] && InFirstOccurrenceOrder(r, s)
    ensures InFirstOccurrenceOrder(r[1..], s)
    ensures forall x :: x in r[1..] ==> FirstIndex(s, r[0]) < FirstIndex(s, x)
  {
    var t := r[1..];
    forall i, j | 0 <= i < j < |t| ensures FirstIndex(s, t[i]) < FirstIndex(s, t[j]) {
      assert t[i] == r[i + 1] && t[j] == r[j + 1];
    }
    forall x | x in t ensures FirstIndex(s, r[0]) < FirstIndex(s, x) {
      var m :| 0 <= m < |t| && t[m] == x;
      assert r[m + 1] == x;
    }
  }

  /** A value that comes before everything in an ordered sequence can be put in front of it. */
  lemma OrderCons<T>(x: T, t: seq<T>, s: seq<T>)
    requires InFirstOccurrenceOrder(t, s)
    requires forall y :: y in t ==> FirstIndex(s, x) < FirstIndex(s, y)
    ensures InFirstOccurrenceOrder([x] + t, s)
  {
    var r := [x] + t;
    forall i, j | 0 <= i < j < |r| ensures FirstIndex(s, r[i]) < FirstIndex(s, r[j]) {
      assert r[j] == t[j - 1];
      if i > 0 { assert r[i] == t[i - 1]; }
    }
  }

  /** Filtering keeps the survivors in the order they had. */
  lemma {:induction false} FilterOrder<T(!new)>(r: seq<T>, s: seq<T>, p: T -> bool)
    requires InFirstOccurrenceOrder(r, s)
    ensures InFirstOccurrenceOrder(Filter(r, p), s)
  {
    if r != [] {
      OrderTail(r, s);
      FilterOrder(r[1..], s, p);
      if p(r[0]) {
        assert Filter(r, p) == [r[0]] + Filter(r[1..], p);
        OrderCons(r[0], Filter(r[1..], p), s);
      }
    }
  }

  /** The tail of a duplicate-free sequence is duplicate-free and lacks the head. */
  lemma NoDuplicatesTail<T>(s: seq<T>)
    requires s != [] && NoDuplicates(s)
    ensures NoDuplicates(s[1..]) && s[0] !in s[1..]
  {
    var t := s[1..];
    forall i, j | 0 <= i < j < |t| ensures t[i] != t[j] {
      assert t[i] == s[i + 1] && t[j] == s[j + 1];
    }
    forall i | 0 <= i < |t| ensures t[i] != s[0] {
      assert t[i] == s[i + 1];
    }
  }

  /** A new value in front of a duplicate-free sequence keeps it duplicate-free. */
  lemma NoDuplicatesCons<T>(x: T, t: seq<T>)
    requires NoDuplicates(t) && x !in t
    ensures NoDuplicates([x] + t)
  {
    var s := [x] + t;
    forall i, j | 0 <= i < j < |s| ensures s[i] != s[j] {
      assert s[j] == t[j - 1];
      if i > 0 { assert s[i] == t[i - 1]; }
    }
  }

  /** Filtering keeps distinct values distinct. */
  lemma {:induction false} FilterNoDuplicates<T(!new)>(s: seq<T>, p: T -> bool)
    requires NoDuplicates(s)
    ensures NoDuplicates(Filter(s, p))
  {
    if s != [] {
      var t := s[1..];
      NoDuplicatesTail(s);
      FilterNoDuplicates(t, p);
      if p(s[0]) {
        assert Filter(s, p) == [s[0]] + Filter(t, p);
        NoDuplicatesCons(s[0], Filter(t, p));
      }
    }
  }

  lemma UniqueIdentityNoDuplicates<T>(s: seq<T>)
    requires UniqueKeys(s, Identity)
    ensures NoDuplicates(s)
  {
    forall i, j | 0 <= i < j < |s| ensures s[i] != s[j] {
      assert Identity(s[i]) != Identity(s[j]);
    }
  }
}
