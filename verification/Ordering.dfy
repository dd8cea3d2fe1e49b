/**
 The ordering Python's `sorted(..., key=k, reverse=True)` produces. Keys are Python
 values: an `int`, a `str` (ordered lexicographically by code point) or `None`. The
 sort is stable, so the result is the unique arrangement that is non-increasing in
 the key and keeps the input order among records with equal keys.
 */
module Ordering {

  /** A sort key as `get_sort_value` returns it. */
  datatype SortValue = NoneValue | Num(n: int) | Text(s: string)

  /** Python's `<` on `str`: lexicographic by code point, a proper prefix being smaller. */
  predicate LexLess(a: string, b: string)
  {
    if |a| == 0 then |b| > 0
    else if |b| == 0 then false
    else if a[0] != b[0] then a[0] < b[0]
    else LexLess(a[1..], b[1..])
  }

  lemma {:induction false} LexIrreflexive(a: string)
    ensures !LexLess(a, a)
  {
    if |a| > 0 {
      LexIrreflexive(a[1..]);
    }
  }

  lemma {:induction false} LexTransitive(a: string, b: string, c: string)
    requires LexLess(a, b) && LexLess(b, c)
    ensures LexLess(a, c)
  {
    if |a| > 0 && a[0] == b[0] && b[0] == c[0] {
      LexTransitive(a[1..], b[1..], c[1..]);
    }
  }

  lemma {:induction false} LexTotal(a: string, b: string)
    ensures a == b || LexLess(a, b) || LexLess(b, a)
  {
    if |a| > 0 && |b| > 0 && a[0] == b[0] {
      LexTotal(a[1..], b[1..]);
      if a[1..] == b[1..] {
        assert a == [a[0]] + a[1..] && b == [b[0]] + b[1..];
      }
    }
  }

  function Rank(v: SortValue): nat
  {
    match v
    case NoneValue => 0
    case Num(_) => 1
    case Text(_) => 2
  }

  /**
   `a < b` on keys. Python compares only keys of one kind; keys of one sort are all
   numbers, or all strings and `None`, and a sort meeting `None` is refused before
   it compares anything, so the order chosen between kinds is never observed.
   */
  predicate Less(a: SortValue, b: SortValue)
  {
    match (a, b)
    case (Num(x), Num(y)) => x < y
    case (Text(x), Text(y)) => LexLess(x, y)
    case _ => Rank(a) < Rank(b)
  }

  lemma LessIrreflexive(a: SortValue)
    ensures !Less(a, a)
  {
    if a.Text? {
      LexIrreflexive(a.s);
    }
  }

  lemma LessTransitive(a: SortValue, b: SortValue, c: SortValue)
    requires Less(a, b) && Less(b, c)
    ensures Less(a, c)
  {
    if a.Text? && b.Text? && c.Text? {
      LexTransitive(a.s, b.s, c.s);
    }
  }

  lemma LessTotal(a: SortValue, b: SortValue)
    ensures a == b || Less(a, b) || Less(b, a)
  {
    if a.Text? && b.Text? {
      LexTotal(a.s, b.s);
    }
  }

  lemma LessAsymmetric(a: SortValue, b: SortValue)
    ensures !(Less(a, b) && Less(b, a))
  {
    if Less(a, b) && Less(b, a) {
      LessTransitive(a, b, a);
      LessIrreflexive(a);
    }
  }

  /** `b` does not sort above `a`, and `c` not above `b`: so `c` not above `a`. */
  lemma NotLessTransitive(a: SortValue, b: SortValue, c: SortValue)
    requires !Less(a, b) && !Less(b, c)
    ensures !Less(a, c)
  {
    LessTotal(a, b);
    LessTotal(b, c);
    if Less(a, c) {
      if b == c {
      } else if b == a {
      } else {
        LessTransitive(c, b, a);
        LessAsymmetric(a, c);
      }
    }
  }

  /** Non-increasing in the key: no record sorts above an earlier one. */
  ghost predicate Descending<T>(s: seq<T>, key: T -> SortValue)
  {
    forall i, j :: 0 <= i < j < |s| ==> !Less(key(s[i]), key(s[j]))
  }

  /** The records whose key is `v`, in their order in `s`. */
  function Class<T>(s: seq<T>, key: T -> SortValue, v: SortValue): seq<T>
  {
    if |s| == 0 then []
    else (if key(s[0]) == v then [s[0]] else []) + Class(s[1..], key, v)
  }

  /** Put `x` in front of the first record that does not sort above it. */
  function Insert<T>(x: T, t: seq<T>, key: T -> SortValue): (r: seq<T>)
    requires Descending(t, key)
    ensures Descending(r, key)
    ensures multiset(r) == multiset{x} + multiset(t)
  {
    if |t| == 0 || !Less(key(x), key(t[0])) then
      forall j | 0 <= j < |t|
        ensures !Less(key(x), key(t[j]))
      {
        if j > 0 {
          NotLessTransitive(key(x), key(t[0]), key(t[j]));
        }
      }
      [x] + t
    else
      var r' := Insert(x, t[1..], key);
      forall j | 0 <= j < |r'|
        ensures !Less(key(t[0]), key(r'[j]))
      {
        assert r'[j] in multiset(r');
        if r'[j] == x {
          LessAsymmetric(key(x), key(t[0]));
        } else {
          assert r'[j] in multiset(t[1..]);
          var k :| 0 <= k < |t[1..]| && t[1..][k] == r'[j];
          assert t[k + 1] == r'[j];
        }
      }
      assert t == [t[0]] + t[1..];
      [t[0]] + r'
  }

  /** `sorted(s, key=key, reverse=True)`, as an insertion sort. */
  function SortDescending<T>(s: seq<T>, key: T -> SortValue): (r: seq<T>)
    ensures Descending(r, key)
    ensures multiset(r) == multiset(s)
  {
    if |s| == 0 then []
    else
      assert s == [s[0]] + s[1..];
      Insert(s[0], SortDescending(s[1..], key), key)
  }

  lemma {:induction false} ClassAppend<T>(a: seq<T>, b: seq<T>, key: T -> SortValue, v: SortValue)
    ensures Class(a + b, key, v) == Class(a, key, v) + Class(b, key, v)
  {
    if |a| == 0 {
      assert a + b == b;
    } else {
      assert (a + b)[0] == a[0];
      assert (a + b)[1..] == a[1..] + b;
      ClassAppend(a[1..], b, key, v);
      var h := if key(a[0]) == v then [a[0]] else [];
      assert Class(a + b, key, v) == h + Class(a[1..] + b, key, v);
      assert Class(a, key, v) == h + Class(a[1..], key, v);
    }
  }

  lemma ClassCons<T>(s: seq<T>, key: T -> SortValue, v: SortValue)
    requires |s| > 0
    ensures Class(s, key, v) == (if key(s[0]) == v then [s[0]] else []) + Class(s[1..], key, v)
  {
  }

  lemma {:induction false} InsertClass<T>(x: T, t: seq<T>, key: T -> SortValue, v: SortValue)
    requires Descending(t, key)
    ensures Class(Insert(x, t, key), key, v) == (if key(x) == v then [x] else []) + Class(t, key, v)
  {
    var r := Insert(x, t, key);
    if |t| == 0 || !Less(key(x), key(t[0])) {
      assert r == [x] + t;
      ClassAppend([x], t, key, v);
    } else {
      var r' := Insert(x, t[1..], key);
      assert r == [t[0]] + r';
      InsertClass(x, t[1..], key, v);
      ClassCons(r, key, v);
      ClassCons(t, key, v);
      if key(x) == v {
        LessIrreflexive(v);
        assert key(t[0]) != v;
      }
    }
  }

  /** Stability: among records with the same key the input order is kept. */
  lemma {:induction false} SortStable<T>(s: seq<T>, key: T -> SortValue, v: SortValue)
    ensures Class(SortDescending(s, key), key, v) == Class(s, key, v)
  {
    if |s| > 0 {
      SortStable(s[1..], key, v);
      InsertClass(s[0], SortDescending(s[1..], key), key, v);
    }
  }

  /** A record with key `v` occurs in `s` when the class of `v` is not empty. */
  lemma {:induction false} ClassWitness<T>(s: seq<T>, key: T -> SortValue, v: SortValue) returns (j: nat)
    requires Class(s, key, v) != []
    ensures j < |s| && key(s[j]) == v
  {
    if key(s[0]) == v {
      j := 0;
    } else {
      var j' := ClassWitness(s[1..], key, v);
      j := j' + 1;
    }
  }

  /** With equal head keys, equal classes of `w` stay equal once the heads are dropped. */
  lemma {:induction false} TailClass<T>(a: seq<T>, b: seq<T>, key: T -> SortValue, w: SortValue)
    requires |a| > 0 && |b| > 0 && key(a[0]) == key(b[0])
    requires Class(a, key, w) == Class(b, key, w)
    ensures Class(a[1..], key, w) == Class(b[1..], key, w)
  {
    var x := Class(a[1..], key, w);
    var y := Class(b[1..], key, w);
    ClassCons(a, key, w);
    ClassCons(b, key, w);
    if key(a[0]) == w {
      assert [a[0]] + x == [b[0]] + y;
      assert x == ([a[0]] + x)[1..];
      assert y == ([b[0]] + y)[1..];
    } else {
      assert [] + x == [] + y;
      assert x == [] + x && y == [] + y;
    }
  }

  /** With equal head keys and equal classes the heads are equal. */
  lemma SameHead<T>(a: seq<T>, b: seq<T>, key: T -> SortValue)
    requires |a| > 0 && |b| > 0 && key(a[0]) == key(b[0])
    requires Class(a, key, key(a[0])) == Class(b, key, key(a[0]))
    ensures a[0] == b[0]
  {
    var v := key(a[0]);
    ClassCons(a, key, v);
    ClassCons(b, key, v);
    assert a[0] == Class(a, key, v)[0];
    assert b[0] == Class(b, key, v)[0];
  }

  /** Two sequences with the same classes are both empty or both non-empty. */
  lemma SameClassesEmpty<T>(a: seq<T>, b: seq<T>, key: T -> SortValue)
    requires forall v :: Class(a, key, v) == Class(b, key, v)
    ensures |a| == 0 <==> |b| == 0
  {
    ClassOfHead(a, key);
    ClassOfHead(b, key);
  }

  /**
   A non-increasing sequence is determined by its key classes: two non-increasing
   sequences with the same records, in the same order, under every key are equal.
   */
  lemma {:induction false} DescendingUnique<T>(a: seq<T>, b: seq<T>, key: T -> SortValue)
    requires Descending(a, key) && Descending(b, key)
    requires forall v :: Class(a, key, v) == Class(b, key, v)
    ensures a == b
  {
    SameClassesEmpty(a, b, key);
    if |a| > 0 {
      HeadKeyAgrees(a, b, key);
      HeadKeyAgrees(b, a, key);
      LessTotal(key(a[0]), key(b[0]));
      SameHead(a, b, key);
      forall w
        ensures Class(a[1..], key, w) == Class(b[1..], key, w)
      {
        TailClass(a, b, key, w);
      }
      DescendingUnique(a[1..], b[1..], key);
      assert a == [a[0]] + a[1..] && b == [b[0]] + b[1..];
    }
  }

  /** A non-empty sequence has a non-empty class: that of its first record's key. */
  lemma ClassOfHead<T>(s: seq<T>, key: T -> SortValue)
    ensures |s| > 0 ==> Class(s, key, key(s[0])) != []
  {
  }

  /** The first record of `b` does not sort below the first of `a`. */
  lemma HeadKeyAgrees<T>(a: seq<T>, b: seq<T>, key: T -> SortValue)
    requires |a| > 0 && |b| > 0
    requires Descending(b, key)
    requires forall v :: Class(a, key, v) == Class(b, key, v)
    ensures !Less(key(b[0]), key(a[0]))
  {
    var v := key(a[0]);
    assert Class(a, key, v) == [a[0]] + Class(a[1..], key, v);
    var j := ClassWitness(b, key, v);
    if j == 0 {
      LessIrreflexive(v);
    }
  }

  /**
   The sort is fully specified by "non-increasing" and "stable": any arrangement
   with both properties is the one `SortDescending` returns.
   */
  lemma SortCharacterized<T>(s: seq<T>, key: T -> SortValue, r: seq<T>)
    requires Descending(r, key)
    requires forall v :: Class(r, key, v) == Class(s, key, v)
    ensures r == SortDescending(s, key)
  {
    forall v
      ensures Class(r, key, v) == Class(SortDescending(s, key), key, v)
    {
      SortStable(s, key, v);
    }
    DescendingUnique(r, SortDescending(s, key), key);
  }

  /** When every key is the same the sort leaves the order unchanged. */
  lemma {:induction false} SortEqualKeys<T>(s: seq<T>, key: T -> SortValue, v: SortValue)
    requires forall i :: 0 <= i < |s| ==> key(s[i]) == v
    ensures SortDescending(s, key) == s
  {
    LessIrreflexive(v);
    assert Descending(s, key);
    SortCharacterized(s, key, s);
  }
}
