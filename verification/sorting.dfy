/**
 * The relational operations the SQL queries of the routes are built from:
 * selection (`WHERE`), counting (`COUNT(*)` and `filter(...).length`),
 * `DISTINCT` and `ORDER BY`. The engine's tie order for `ORDER BY` is
 * unspecified, so sorting is only promised to be ordered and a permutation.
 */
module Sorting {

  import opened Text

  /** The rows of `s` that satisfy `p`, in the order of `s`. */
  function Filter<T(!new)>(s: seq<T>, p: T -> bool): (r: seq<T>)
    ensures |r| <= |s|
    ensures forall i :: 0 <= i < |r| ==> p(r[i])
    ensures forall x :: x in r <==> x in s && p(x)
  {
    if s == [] then []
    else
      var rest := Filter(s[..|s| - 1], p);
      var last := s[|s| - 1];
      assert s == s[..|s| - 1] + [last];
      if p(last) then rest + [last] else rest
  }

  /** Selecting with two conditions that agree on every row selects the same rows. */
  lemma {:induction false} FilterExtensional<T(!new)>(s: seq<T>, p: T -> bool, q: T -> bool)
    requires forall x :: p(x) == q(x)
    ensures Filter(s, p) == Filter(s, q)
    decreases |s|
  {
    if s != [] {
      FilterExtensional(s[..|s| - 1], p, q);
    }
  }

  /** Selecting twice with the same condition selects what selecting once did. */
  lemma {:induction false} FilterIdempotent<T(!new)>(s: seq<T>, p: T -> bool)
    ensures Filter(Filter(s, p), p) == Filter(s, p)
    decreases |s|
  {
    if s != [] {
      var front, last := s[..|s| - 1], s[|s| - 1];
      FilterIdempotent(front, p);
      if p(last) {
        var r := Filter(front, p) + [last];
        assert r[..|r| - 1] == Filter(front, p);
      }
    }
  }

  /** Selection keeps the rows in their order: a relation between earlier and later rows survives it. */
  lemma {:induction false} FilterPairwise<T(!new)>(s: seq<T>, p: T -> bool, before: (T, T) -> bool)
    requires forall i, j :: 0 <= i < j < |s| ==> before(s[i], s[j])
    ensures forall i, j :: 0 <= i < j < |Filter(s, p)| ==> before(Filter(s, p)[i], Filter(s, p)[j])
    decreases |s|
  {
    if s != [] {
      var front, last := s[..|s| - 1], s[|s| - 1];
      FilterPairwise(front, p, before);
      var r := Filter(s, p);
      var rest := Filter(front, p);
      assert s == front + [last];
      if p(last) {
        assert r == rest + [last];
        forall i, j | 0 <= i < j < |r| ensures before(r[i], r[j]) {
          if j == |r| - 1 {
            assert r[i] == rest[i] && r[j] == last;
            assert rest[i] in front;
            var k :| 0 <= k < |front| && front[k] == rest[i];
            assert s[k] == r[i] && s[|s| - 1] == r[j];
          } else {
            assert r[i] == rest[i] && r[j] == rest[j];
          }
        }
      } else {
        assert r == rest;
      }
    }
  }

  /** How many rows of `s` satisfy `p`. */
  function Count<T(!new)>(s: seq<T>, p: T -> bool): (n: nat)
    ensures n <= |s|
  {
    |Filter(s, p)|
  }

  lemma {:induction false} CountAppend<T(!new)>(s: seq<T>, t: seq<T>, p: T -> bool)
    ensures Filter(s + t, p) == Filter(s, p) + Filter(t, p)
    ensures Count(s + t, p) == Count(s, p) + Count(t, p)
    decreases |t|
  {
    if t == [] {
      assert s + t == s;
    } else {
      var t', last := t[..|t| - 1], t[|t| - 1];
      CountAppend(s, t', p);
      var st := s + t;
      assert st[..|st| - 1] == s + t' && st[|st| - 1] == last;
      var tail := if p(last) then [last] else [];
      assert Filter(st, p) == Filter(s + t', p) + tail;
      assert Filter(t, p) == Filter(t', p) + tail;
      assert Filter(s, p) + Filter(t', p) + tail == Filter(s, p) + (Filter(t', p) + tail);
    }
  }

  /** Both conditions at once: `WHERE p AND q`. */
  function Both<T>(p: T -> bool, q: T -> bool): T -> bool {
    (x: T) => p(x) && q(x)
  }

  /** Selecting by `p` and then by `q` selects the rows that satisfy both, in order. */
  lemma {:induction false} FilterFilter<T(!new)>(s: seq<T>, p: T -> bool, q: T -> bool)
    ensures Filter(Filter(s, p), q) == Filter(s, Both(p, q))
    decreases |s|
  {
    if s != [] {
      var front, last := s[..|s| - 1], s[|s| - 1];
      FilterFilter(front, p, q);
      if p(last) {
        CountAppend(Filter(front, p), [last], q);
        assert Filter([last], q) == Filter([last][..0], q) + (if q(last) then [last] else []);
      }
    }
  }

  /** Counting by `q` within the rows selected by `p` counts the rows that satisfy both. */
  lemma CountFilter<T(!new)>(s: seq<T>, p: T -> bool, q: T -> bool)
    ensures Count(Filter(s, p), q) == Count(s, Both(p, q))
  {
    FilterFilter(s, p, q);
  }

  /** Rows that satisfy one of two exclusive conditions are counted once by one of them. */
  lemma {:induction false} CountDisjoint<T(!new)>(s: seq<T>, p: T -> bool, q: T -> bool, either: T -> bool)
    requires forall x :: !(p(x) && q(x))
    requires forall x :: either(x) == (p(x) || q(x))
    ensures Count(s, either) == Count(s, p) + Count(s, q)
    decreases |s|
  {
    if s != [] {
      CountDisjoint(s[..|s| - 1], p, q, either);
    }
  }

  /** A condition every row satisfies selects the whole sequence. */
  lemma {:induction false} FilterAll<T(!new)>(s: seq<T>, p: T -> bool)
    requires forall i :: 0 <= i < |s| ==> p(s[i])
    ensures Filter(s, p) == s
    decreases |s|
  {
    if s != [] {
      FilterAll(s[..|s| - 1], p);
      assert s == s[..|s| - 1] + [s[|s| - 1]];
    }
  }

  /** A condition every row satisfies counts every row. */
  lemma CountAll<T(!new)>(s: seq<T>, p: T -> bool)
    requires forall i :: 0 <= i < |s| ==> p(s[i])
    ensures Count(s, p) == |s|
  {
    FilterAll(s, p);
  }

  /** A row that satisfies the condition is counted at least once. */
  lemma CountPositive<T(!new)>(s: seq<T>, p: T -> bool, x: T)
    requires x in s && p(x)
    ensures Count(s, p) >= 1
  {
    assert x in Filter(s, p);
  }

  /** `DISTINCT`: every value of `s` once, in order of first appearance. */
  function Distinct<T(==,!new)>(s: seq<T>): (r: seq<T>)
    ensures forall x :: x in r <==> x in s
    ensures forall i, j :: 0 <= i < j < |r| ==> r[i] != r[j]
  {
    if s == [] then []
    else
      var rest := Distinct(s[..|s| - 1]);
      var last := s[|s| - 1];
      assert s == s[..|s| - 1] + [last];
      if last in rest then rest else rest + [last]
  }

  /** A sequence without repeats holds every value at most once. */
  lemma {:induction false} NoRepeatsCount<T>(s: seq<T>, x: T)
    requires forall i, j :: 0 <= i < j < |s| ==> s[i] != s[j]
    ensures multiset(s)[x] <= 1
    decreases |s|
  {
    if s != [] {
      var front := s[..|s| - 1];
      NoRepeatsCount(front, x);
      assert s == front + [s[|s| - 1]];
      if x == s[|s| - 1] {
        assert x !in front;
      }
    }
  }

  /** A rearrangement of a sequence without repeats has no repeats. */
  lemma NoRepeatsPermutation<T>(a: seq<T>, b: seq<T>)
    requires multiset(a) == multiset(b)
    requires forall i, j :: 0 <= i < j < |b| ==> b[i] != b[j]
    ensures forall i, j :: 0 <= i < j < |a| ==> a[i] != a[j]
  {
    forall i, j | 0 <= i < j < |a| ensures a[i] != a[j] {
      if a[i] == a[j] {
        assert a == a[..j] + a[j..];
        assert a[i] in multiset(a[..j]) && a[j] in multiset(a[j..]);
        assert multiset(a)[a[i]] == multiset(a[..j])[a[i]] + multiset(a[j..])[a[i]];
        NoRepeatsCount(b, a[i]);
        assert false;
      }
    }
  }

  /**
   * One term of an `ORDER BY` clause: a TEXT column's value, ascending or
   * descending. A sort key is the list of terms, compared left to right.
   */
  datatype KeyPart = Asc(text: string) | Desc(text: string)

  type Key = seq<KeyPart>

  predicate PartLess(a: KeyPart, b: KeyPart) {
    match (a, b)
    case (Asc(x), Asc(y)) => Less(x, y)
    case (Desc(x), Desc(y)) => Less(y, x)
    case (Asc(_), Desc(_)) => true
    case (Desc(_), Asc(_)) => false
  }

  predicate KeyLess(a: Key, b: Key) {
    if a == [] then b != []
    else if b == [] then false
    else if a[0] == b[0] then KeyLess(a[1..], b[1..])
    else PartLess(a[0], b[0])
  }

  /** The order `ORDER BY` puts rows in: `a` may come before `b`. */
  predicate KeyLe(a: Key, b: Key) {
    a == b || KeyLess(a, b)
  }

  lemma PartLessTransitive(a: KeyPart, b: KeyPart, c: KeyPart)
    requires PartLess(a, b) && PartLess(b, c)
    ensures PartLess(a, c)
  {
    if a.Asc? && b.Asc? && c.Asc? {
      LessTransitive(a.text, b.text, c.text);
    } else if a.Desc? && b.Desc? && c.Desc? {
      LessTransitive(c.text, b.text, a.text);
    }
  }

  lemma PartLessTrichotomy(a: KeyPart, b: KeyPart)
    ensures PartLess(a, b) || a == b || PartLess(b, a)
  {
    LessTrichotomy(a.text, b.text);
  }

  lemma {:induction false} KeyLessTransitive(a: Key, b: Key, c: Key)
    requires KeyLess(a, b) && KeyLess(b, c)
    ensures KeyLess(a, c)
  {
    if a != [] && b != [] && c != [] {
      if a[0] == b[0] && b[0] == c[0] {
        KeyLessTransitive(a[1..], b[1..], c[1..]);
      } else if a[0] != b[0] && b[0] != c[0] {
        PartLessTransitive(a[0], b[0], c[0]);
        if a[0] == c[0] {
          PartLessTransitive(b[0], a[0], b[0]);
          PartLessIrreflexive(b[0]);
        }
      }
    }
  }

  lemma PartLessIrreflexive(a: KeyPart)
    ensures !PartLess(a, a)
  {
    LessIrreflexive(a.text);
  }

  lemma {:induction false} KeyLessTrichotomy(a: Key, b: Key)
    ensures KeyLess(a, b) || a == b || KeyLess(b, a)
  {
    if a != [] && b != [] {
      if a[0] == b[0] {
        KeyLessTrichotomy(a[1..], b[1..]);
        if a[1..] == b[1..] {
          assert a == [a[0]] + a[1..] && b == [b[0]] + b[1..];
        }
      } else {
        PartLessTrichotomy(a[0], b[0]);
      }
    }
  }

  /** `KeyLe` is total and transitive, so `ORDER BY` on a key is well defined up to ties. */
  lemma KeyLeTotalPreorder(a: Key, b: Key, c: Key)
    ensures KeyLe(a, b) || KeyLe(b, a)
    ensures KeyLe(a, b) && KeyLe(b, c) ==> KeyLe(a, c)
  {
    KeyLessTrichotomy(a, b);
    if KeyLess(a, b) && KeyLess(b, c) {
      KeyLessTransitive(a, b, c);
    }
  }

  predicate SortedBy<T>(s: seq<T>, key: T -> Key) {
    forall i, j :: 0 <= i < j < |s| ==> KeyLe(key(s[i]), key(s[j]))
  }

  function InsertBy<T(!new)>(x: T, s: seq<T>, key: T -> Key): (r: seq<T>)
    requires SortedBy(s, key)
    ensures SortedBy(r, key)
    ensures multiset(r) == multiset(s) + multiset{x}
  {
    if s == [] then [x]
    else if KeyLe(key(x), key(s[0])) then
      InsertBeforeHead(x, s, key);
      [x] + s
    else
      var r' := InsertBy(x, s[1..], key);
      InsertAfterHead(x, s, r', key);
      [s[0]] + r'
  }

  lemma InsertBeforeHead<T>(x: T, s: seq<T>, key: T -> Key)
    requires SortedBy(s, key) && s != [] && KeyLe(key(x), key(s[0]))
    ensures SortedBy([x] + s, key)
  {
    forall j | 0 <= j < |s| ensures KeyLe(key(x), key(s[j])) {
      KeyLeTotalPreorder(key(x), key(s[0]), key(s[j]));
    }
  }

  lemma InsertAfterHead<T>(x: T, s: seq<T>, r': seq<T>, key: T -> Key)
    requires SortedBy(s, key) && s != [] && !KeyLe(key(x), key(s[0]))
    requires SortedBy(r', key) && multiset(r') == multiset(s[1..]) + multiset{x}
    ensures SortedBy([s[0]] + r', key)
    ensures multiset([s[0]] + r') == multiset(s) + multiset{x}
  {
    KeyLeTotalPreorder(key(x), key(s[0]), key(x));
    forall i | 0 <= i < |r'| ensures KeyLe(key(s[0]), key(r'[i])) {
      assert r'[i] in multiset(r');
      if r'[i] != x {
        var k :| 0 <= k < |s[1..]| && s[1..][k] == r'[i];
        assert s[1 + k] == r'[i];
      }
    }
    assert s == [s[0]] + s[1..];
  }

  /**
   * `ORDER BY key`: the rows of `s` rearranged so that every earlier row's
   * key is at most every later row's key.
   */
  function SortBy<T(!new)>(s: seq<T>, key: T -> Key): (r: seq<T>)
    ensures SortedBy(r, key)
    ensures multiset(r) == multiset(s)
  {
    if s == [] then []
    else
      assert s == [s[0]] + s[1..];
      InsertBy(s[0], SortBy(s[1..], key), key)
  }

  /** Sorting keeps exactly the rows it was given, each as often as it was given. */
  lemma SortByMembership<T(!new)>(s: seq<T>, key: T -> Key, x: T)
    ensures x in SortBy(s, key) <==> x in s
    ensures |SortBy(s, key)| == |s|
  {
    var r := SortBy(s, key);
    assert x in r <==> multiset(r)[x] > 0;
    assert x in s <==> multiset(s)[x] > 0;
    assert |r| == |multiset(r)| == |multiset(s)| == |s|;
  }
}
