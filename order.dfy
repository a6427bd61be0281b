/** The orders the source sorts by. Python compares `str` values code point by
    code point with a proper prefix first, and SQLite's BINARY collation on UTF-8
    text gives the same order; tuples of strings compare lexicographically by
    component. A tuple of strings is modelled as a `Key`. */
module Order {

  type Key = seq<string>

  predicate CharLt(x: char, y: char) { x < y }

  /** Lexicographic order over `lt`: a proper prefix comes first, otherwise the
      first differing position decides. */
  predicate LexLt<T(==)>(a: seq<T>, b: seq<T>, lt: (T, T) -> bool)
    decreases |a|
  {
    if a == [] then b != []
    else if b == [] then false
    else if a[0] != b[0] then lt(a[0], b[0])
    else LexLt(a[1..], b[1..], lt)
  }

  ghost predicate StrictTotalOrder<T(!new)>(lt: (T, T) -> bool)
  {
    && (forall x :: !lt(x, x))
    && (forall x, y, z :: lt(x, y) && lt(y, z) ==> lt(x, z))
    && (forall x, y :: x != y ==> lt(x, y) || lt(y, x))
  }

  lemma {:induction false} LexLtIrreflexive<T(!new)>(a: seq<T>, lt: (T, T) -> bool)
    requires StrictTotalOrder(lt)
    ensures !LexLt(a, a, lt)
    decreases |a|
  {
    if a != [] {
      LexLtIrreflexive(a[1..], lt);
    }
  }

  lemma {:induction false} LexLtTransitive<T(!new)>(a: seq<T>, b: seq<T>, c: seq<T>, lt: (T, T) -> bool)
    requires StrictTotalOrder(lt)
    requires LexLt(a, b, lt) && LexLt(b, c, lt)
    ensures LexLt(a, c, lt)
    decreases |a|
  {
    if a != [] && b != [] && c != [] && a[0] == b[0] && b[0] == c[0] {
      LexLtTransitive(a[1..], b[1..], c[1..], lt);
    }
  }

  lemma {:induction false} LexLtTotal<T(!new)>(a: seq<T>, b: seq<T>, lt: (T, T) -> bool)
    requires StrictTotalOrder(lt)
    requires a != b
    ensures LexLt(a, b, lt) || LexLt(b, a, lt)
    decreases |a|
  {
    if a != [] && b != [] && a[0] == b[0] {
      assert a == [a[0]] + a[1..] && b == [b[0]] + b[1..];
      LexLtTotal(a[1..], b[1..], lt);
    }
  }

  /** Python `str` comparison (and SQLite BINARY collation). */
  predicate StrLt(a: string, b: string) { LexLt(a, b, CharLt) }

  predicate StrLe(a: string, b: string) { a == b || StrLt(a, b) }

  /** Python comparison of tuples of strings. */
  predicate KeyLt(a: Key, b: Key) { LexLt(a, b, StrLt) }

  predicate KeyLe(a: Key, b: Key) { a == b || KeyLt(a, b) }

  lemma StrLtIsStrictTotalOrder()
    ensures StrictTotalOrder(StrLt)
  {
    forall x: string
      ensures !StrLt(x, x)
    {
      LexLtIrreflexive(x, CharLt);
    }
    forall x: string, y: string, z: string | StrLt(x, y) && StrLt(y, z)
      ensures StrLt(x, z)
    {
      LexLtTransitive(x, y, z, CharLt);
    }
    forall x: string, y: string | x != y
      ensures StrLt(x, y) || StrLt(y, x)
    {
      LexLtTotal(x, y, CharLt);
    }
  }

  lemma KeyLtIsStrictTotalOrder()
    ensures StrictTotalOrder(KeyLt)
  {
    StrLtIsStrictTotalOrder();
    forall x: Key
      ensures !KeyLt(x, x)
    {
      LexLtIrreflexive(x, StrLt);
    }
    forall x: Key, y: Key, z: Key | KeyLt(x, y) && KeyLt(y, z)
      ensures KeyLt(x, z)
    {
      LexLtTransitive(x, y, z, StrLt);
    }
    forall x: Key, y: Key | x != y
      ensures KeyLt(x, y) || KeyLt(y, x)
    {
      LexLtTotal(x, y, StrLt);
    }
  }

  /** `StrLe` is a total order: what `<=` on Python strings relies on. */
  lemma StrLeTotalOrder(a: string, b: string, c: string)
    ensures StrLe(a, b) || StrLe(b, a)
    ensures StrLe(a, b) && StrLe(b, a) ==> a == b
    ensures StrLe(a, b) && StrLe(b, c) ==> StrLe(a, c)
  {
    StrLtIsStrictTotalOrder();
  }

  lemma KeyLeTransitive(a: Key, b: Key, c: Key)
    requires KeyLe(a, b) && KeyLe(b, c)
    ensures KeyLe(a, c)
  {
    if a != b && b != c {
      StrLtIsStrictTotalOrder();
      LexLtTransitive(a, b, c, StrLt);
    }
  }

  lemma KeyLeTotal(a: Key, b: Key)
    ensures KeyLe(a, b) || KeyLe(b, a)
  {
    if a != b {
      StrLtIsStrictTotalOrder();
      LexLtTotal(a, b, StrLt);
    }
  }

  lemma KeyLtAsymmetric(a: Key, b: Key)
    requires KeyLe(a, b)
    ensures !KeyLt(b, a)
  {
    StrLtIsStrictTotalOrder();
    if KeyLt(b, a) {
      if a == b {
        LexLtIrreflexive(a, StrLt);
      } else {
        LexLtTransitive(a, b, a, StrLt);
        LexLtIrreflexive(a, StrLt);
      }
    }
  }

  /** Tuples that agree on their first component compare by the rest. */
  lemma KeyLeDropHead(x: string, a: Key, b: Key)
    requires KeyLe([x] + a, [x] + b)
    ensures KeyLe(a, b)
  {
    assert ([x] + a)[1..] == a && ([x] + b)[1..] == b;
  }

  predicate SortedBy<T>(s: seq<T>, key: T -> Key)
  {
    forall i, j :: 0 <= i < j < |s| ==> KeyLe(key(s[i]), key(s[j]))
  }

  /** A prefix of an ordered sequence is ordered. */
  lemma SortedPrefix<T>(s: seq<T>, n: nat, key: T -> Key)
    requires SortedBy(s, key) && n <= |s|
    ensures SortedBy(s[..n], key)
  {
    forall i, j | 0 <= i < j < n
      ensures KeyLe(key(s[..n][i]), key(s[..n][j]))
    {
      assert s[..n][i] == s[i] && s[..n][j] == s[j];
    }
  }

  /** An element no smaller than every element of an ordered sequence can be
      appended to it. */
  lemma SortedSnoc<T>(s: seq<T>, x: T, key: T -> Key)
    requires SortedBy(s, key)
    requires forall i :: 0 <= i < |s| ==> KeyLe(key(s[i]), key(x))
    ensures SortedBy(s + [x], key)
  {
    var t := s + [x];
    forall i, j | 0 <= i < j < |t|
      ensures KeyLe(key(t[i]), key(t[j]))
    {
      assert t[i] == s[i];
      if j < |s| {
        assert t[j] == s[j];
      }
    }
  }

  /** Strictly increasing under `lt`: sorted and without duplicates. */
  predicate StrictlySortedBy<T>(s: seq<T>, lt: (T, T) -> bool)
  {
    forall i, j :: 0 <= i < j < |s| ==> lt(s[i], s[j])
  }

  /** `x` inserted into `s` before the first element it does not follow. */
  function InsertBy<T>(x: T, s: seq<T>, key: T -> Key): (r: seq<T>)
    ensures multiset(r) == multiset(s) + multiset{x}
  {
    if s == [] then [x]
    else if KeyLe(key(x), key(s[0])) then [x] + s
    else
      assert s == [s[0]] + s[1..];
      [s[0]] + InsertBy(x, s[1..], key)
  }

  /** Inserting into an ordered sequence keeps it ordered. */
  lemma {:induction false} InsertBySorted<T>(x: T, s: seq<T>, key: T -> Key)
    requires SortedBy(s, key)
    ensures SortedBy(InsertBy(x, s, key), key)
  {
    if s == [] {
    } else if KeyLe(key(x), key(s[0])) {
      forall j | 0 <= j < |s|
        ensures KeyLe(key(x), key(s[j]))
      {
        KeyLeTransitive(key(x), key(s[0]), key(s[j]));
      }
    } else {
      var t := InsertBy(x, s[1..], key);
      InsertBySorted(x, s[1..], key);
      KeyLeTotal(key(x), key(s[0]));
      forall j | 0 <= j < |t|
        ensures KeyLe(key(s[0]), key(t[j]))
      {
        assert t[j] in multiset(t);
        if t[j] != x {
          assert t[j] in multiset(s[1..]);
          var k :| 0 <= k < |s[1..]| && s[1..][k] == t[j];
          assert s[k + 1] == t[j];
        }
      }
      assert InsertBy(x, s, key) == [s[0]] + t;
    }
  }

  /** Python's `sorted(s, key=key)`: an ordered permutation of `s`. */
  function SortBy<T>(s: seq<T>, key: T -> Key): (r: seq<T>)
    ensures SortedBy(r, key)
    ensures multiset(r) == multiset(s)
  {
    if s == [] then []
    else
      assert s == [s[0]] + s[1..];
      InsertBySorted(s[0], SortBy(s[1..], key), key);
      InsertBy(s[0], SortBy(s[1..], key), key)
  }

  function Reverse<T>(s: seq<T>): (r: seq<T>)
    ensures |r| == |s|
    ensures forall i :: 0 <= i < |s| ==> r[i] == s[|s| - 1 - i]
  {
    if s == [] then [] else Reverse(s[1..]) + [s[0]]
  }

  /** Reversing keeps every element and its multiplicity. */
  lemma {:induction false} ReversePermutes<T>(s: seq<T>)
    ensures multiset(Reverse(s)) == multiset(s)
  {
    if s != [] {
      ReversePermutes(s[1..]);
      assert s == [s[0]] + s[1..];
    }
  }

  /** A one-component key compares as its component. */
  lemma SingleKeyLe(a: string, b: string)
    requires KeyLe([a], [b])
    ensures StrLe(a, b)
  {
    if a != b {
      assert [a][0] == a && [b][0] == b;
    }
  }

  /** `m` is an element of `s` that no element of `s` precedes. */
  predicate IsMinimum<T>(m: T, s: set<T>, lt: (T, T) -> bool)
  {
    m in s && forall y :: y in s ==> y == m || lt(m, y)
  }

  lemma {:induction false} MinimumExists<T(!new)>(s: set<T>, lt: (T, T) -> bool)
    requires StrictTotalOrder(lt)
    requires s != {}
    ensures exists m :: IsMinimum(m, s, lt)
    decreases |s|
  {
    var x :| x in s;
    if s == {x} {
      assert IsMinimum(x, s, lt);
    } else {
      MinimumExists(s - {x}, lt);
      var m :| IsMinimum(m, s - {x}, lt);
      if lt(m, x) {
        forall y | y in s
          ensures y == m || lt(m, y)
        {
          if y != x {
            assert y in s - {x};
          }
        }
        assert IsMinimum(m, s, lt);
      } else {
        forall y | y in s
          ensures y == x || lt(x, y)
        {
          if y != x {
            assert y in s - {x};
          }
        }
        assert IsMinimum(x, s, lt);
      }
    }
  }

  /** Python's `sorted(a_set)`: the elements of `s` in strictly increasing order. */
  method SortSet<T(==, !new)>(s: set<T>, lt: (T, T) -> bool) returns (r: seq<T>)
    requires StrictTotalOrder(lt)
    ensures StrictlySortedBy(r, lt)
    ensures forall k :: k in r <==> k in s
    ensures |r| == |s|
  {
    r := [];
    var rest := s;
    while rest != {}
      invariant rest <= s
      invariant forall k :: k in r <==> k in s && k !in rest
      invariant StrictlySortedBy(r, lt)
      invariant forall x, y :: x in r && y in rest ==> lt(x, y)
      invariant |r| + |rest| == |s|
      decreases rest
    {
      MinimumExists(rest, lt);
      var m :| IsMinimum(m, rest, lt);
      r := r + [m];
      rest := rest - {m};
    }
  }

  lemma HeadIn<T>(s: seq<T>)
    ensures s != [] ==> s[0] in s
  {
  }

  /** The head of a strictly sorted sequence precedes its other elements. */
  lemma SortedHeadLeast<T>(s: seq<T>, k: T, lt: (T, T) -> bool)
    requires StrictlySortedBy(s, lt)
    requires k in s
    ensures k == s[0] || lt(s[0], k)
  {
    var i :| 0 <= i < |s| && s[i] == k;
    if i > 0 {
      assert lt(s[0], s[i]);
    }
  }

  /** A set has one strictly increasing listing: whatever lists it in order is
      what `sorted` returns. */
  lemma {:induction false} StrictlySortedUnique<T(!new)>(a: seq<T>, b: seq<T>, lt: (T, T) -> bool)
    requires StrictTotalOrder(lt)
    requires StrictlySortedBy(a, lt) && StrictlySortedBy(b, lt)
    requires forall k :: k in a <==> k in b
    ensures a == b
    decreases |a|
  {
    if a != [] && b != [] {
      SortedHeadLeast(b, a[0], lt);
      SortedHeadLeast(a, b[0], lt);
      assert a[0] == b[0];
      forall k
        ensures k in a[1..] <==> k in b[1..]
      {
        if k in a[1..] {
          var i :| 0 <= i < |a[1..]| && a[1..][i] == k;
          assert lt(a[0], a[i + 1]);
          assert k in b && k != b[0];
          var j :| 0 <= j < |b| && b[j] == k;
          assert b[1..][j - 1] == k;
        }
        if k in b[1..] {
          var i :| 0 <= i < |b[1..]| && b[1..][i] == k;
          assert lt(b[0], b[i + 1]);
          assert k in a && k != a[0];
          var j :| 0 <= j < |a| && a[j] == k;
          assert a[1..][j - 1] == k;
        }
      }
      StrictlySortedUnique(a[1..], b[1..], lt);
      assert a == [a[0]] + a[1..] && b == [b[0]] + b[1..];
    } else {
      HeadIn(a);
      HeadIn(b);
    }
  }
}
