/**
 * The candidate records of the combination finder and the stable sort that
 * orders them (`Array.prototype.sort` with a numeric comparator, which is
 * stable), modelled as a stable insertion sort.
 */
module Ordering {
  /** A candidate: its position in the caller's entry list and its cents. */
  datatype Item = Item(index: int, cents: int)

  /** The two comparators the finder uses: `a.cents - b.cents` and `a.index - b.index`. */
  datatype Key = ByCents | ByIndex

  function KeyOf(key: Key, it: Item): int
  {
    match key
    case ByCents => it.cents
    case ByIndex => it.index
  }

  /**
   * Inserting `x` in front of the first element whose key is not smaller:
   * an element goes before every later element with the same key.
   */
  function Insert(key: Key, x: Item, s: seq<Item>): (r: seq<Item>)
    ensures multiset(r) == multiset(s) + multiset{x}
  {
    if s == [] || KeyOf(key, x) <= KeyOf(key, s[0]) then [x] + s
    else
      assert s == [s[0]] + s[1..];
      [s[0]] + Insert(key, x, s[1..])
  }

  /** The stable sort by `key`: a permutation of its input. */
  function Sort(key: Key, xs: seq<Item>): (r: seq<Item>)
    ensures multiset(r) == multiset(xs)
  {
    if xs == [] then []
    else
      assert xs == [xs[0]] + xs[1..];
      Insert(key, xs[0], Sort(key, xs[1..]))
  }

  /** `a` comes before `b` by key, ties broken by index. */
  predicate Before(key: Key, a: Item, b: Item)
  {
    KeyOf(key, a) < KeyOf(key, b) || (KeyOf(key, a) == KeyOf(key, b) && a.index < b.index)
  }

  /** Strictly increasing by (key, index). */
  predicate StrictlyOrdered(key: Key, s: seq<Item>)
  {
    forall i, j :: 0 <= i < j < |s| ==> Before(key, s[i], s[j])
  }

  /** Elements with equal keys already appear in increasing index order. */
  predicate TiesInIndexOrder(key: Key, s: seq<Item>)
  {
    forall i, j :: 0 <= i < j < |s| && KeyOf(key, s[i]) == KeyOf(key, s[j]) ==> s[i].index < s[j].index
  }

  /** No two elements share an index. */
  predicate DistinctIndices(s: seq<Item>)
  {
    forall i, j :: 0 <= i < j < |s| ==> s[i].index != s[j].index
  }

  /** A strictly ordered list stays so under a new head that comes before all its elements. */
  lemma ConsOrdered(key: Key, x: Item, u: seq<Item>)
    requires StrictlyOrdered(key, u)
    requires forall y :: y in u ==> Before(key, x, y)
    ensures StrictlyOrdered(key, [x] + u)
  {
    var r := [x] + u;
    forall i, j | 0 <= i < j < |r|
      ensures Before(key, r[i], r[j])
    {
      assert r[j] == u[j - 1];
      if i > 0 {
        assert r[i] == u[i - 1];
      }
    }
  }

  lemma {:induction false} InsertOrdered(key: Key, x: Item, s: seq<Item>)
    requires StrictlyOrdered(key, s)
    requires forall y :: y in s && KeyOf(key, y) == KeyOf(key, x) ==> x.index < y.index
    ensures StrictlyOrdered(key, Insert(key, x, s))
  {
    if s == [] || KeyOf(key, x) <= KeyOf(key, s[0]) {
      forall y | y in s
        ensures Before(key, x, y)
      {
        var k :| 0 <= k < |s| && s[k] == y;
        if k > 0 {
          assert Before(key, s[0], s[k]);
        }
      }
      ConsOrdered(key, x, s);
    } else {
      var rest := Insert(key, x, s[1..]);
      InsertOrdered(key, x, s[1..]);
      forall y | y in rest
        ensures Before(key, s[0], y)
      {
        assert y in multiset(rest);
        if y != x {
          var k :| 0 <= k < |s[1..]| && s[1..][k] == y;
          assert s[k + 1] == y;
        }
      }
      ConsOrdered(key, s[0], rest);
    }
  }

  /**
   * Stability: when equal keys already appear in increasing index order, the
   * sorted list is strictly increasing by (key, index).
   */
  lemma {:induction false} SortOrdered(key: Key, xs: seq<Item>)
    requires TiesInIndexOrder(key, xs)
    ensures StrictlyOrdered(key, Sort(key, xs))
  {
    if xs != [] {
      var rest := xs[1..];
      assert TiesInIndexOrder(key, rest) by {
        forall i, j | 0 <= i < j < |rest| && KeyOf(key, rest[i]) == KeyOf(key, rest[j])
          ensures rest[i].index < rest[j].index
        {
          assert rest[i] == xs[i + 1] && rest[j] == xs[j + 1];
        }
      }
      SortOrdered(key, rest);
      forall y | y in Sort(key, rest) && KeyOf(key, y) == KeyOf(key, xs[0])
        ensures xs[0].index < y.index
      {
        assert y in multiset(Sort(key, rest));
        var k :| 0 <= k < |rest| && rest[k] == y;
        assert xs[k + 1] == y;
      }
      InsertOrdered(key, xs[0], Sort(key, rest));
    }
  }

  /** Every element of a strictly ordered list other than its head comes after the head. */
  lemma HeadFirst(key: Key, s: seq<Item>, y: Item)
    requires StrictlyOrdered(key, s) && y in s
    ensures y == s[0] || Before(key, s[0], y)
  {
  }

  /** Two lists strictly ordered by the same (key, index) order with the same elements are equal. */
  lemma {:induction false} StrictlyOrderedUnique(key: Key, a: seq<Item>, b: seq<Item>)
    requires StrictlyOrdered(key, a) && StrictlyOrdered(key, b)
    requires multiset(a) == multiset(b)
    ensures a == b
  {
    if a != [] {
      HeadsEqual(key, a, b);
      var a', b' := a[1..], b[1..];
      TailOrdered(key, a);
      TailOrdered(key, b);
      TailsSameElements(a, b);
      StrictlyOrderedUnique(key, a', b');
      assert a == [a[0]] + a' && b == [b[0]] + b';
    }
  }

  /** Two lists strictly ordered by the same (key, index) order with the same members are equal. */
  lemma {:induction false} SameMembersUnique(key: Key, a: seq<Item>, b: seq<Item>)
    requires StrictlyOrdered(key, a) && StrictlyOrdered(key, b)
    requires forall x :: x in a <==> x in b
    ensures a == b
  {
    if a != [] {
      assert a[0] in a && a[0] in b;
      assert b[0] in b && b[0] in a;
      HeadFirst(key, b, a[0]);
      HeadFirst(key, a, b[0]);
      assert a[0] == b[0];
      TailOrdered(key, a);
      TailOrdered(key, b);
      forall x
        ensures x in a[1..] <==> x in b[1..]
      {
        TailMembers(key, a, x);
        TailMembers(key, b, x);
      }
      SameMembersUnique(key, a[1..], b[1..]);
      assert a == [a[0]] + a[1..] && b == [b[0]] + b[1..];
    } else {
      NoMembers(b);
    }
  }

  lemma NoMembers(b: seq<Item>)
    ensures (forall x :: x !in b) ==> b == []
  {
    if b != [] {
      assert b[0] in b;
    }
  }

  lemma TailMembers(key: Key, s: seq<Item>, x: Item)
    requires StrictlyOrdered(key, s) && s != []
    ensures x in s[1..] <==> x in s && x != s[0]
  {
    if x in s[1..] {
      var i :| 0 <= i < |s[1..]| && s[1..][i] == x;
      assert Before(key, s[0], s[i + 1]);
    }
    if x in s && x != s[0] {
      var i :| 0 <= i < |s| && s[i] == x;
      assert s[1..][i - 1] == x;
    }
  }

  lemma HeadsEqual(key: Key, a: seq<Item>, b: seq<Item>)
    requires StrictlyOrdered(key, a) && StrictlyOrdered(key, b)
    requires multiset(a) == multiset(b) && a != []
    ensures b != [] && a[0] == b[0]
  {
    assert a[0] in multiset(b) && b[0] in multiset(a);
    HeadFirst(key, b, a[0]);
    HeadFirst(key, a, b[0]);
  }

  lemma TailsSameElements(a: seq<Item>, b: seq<Item>)
    requires multiset(a) == multiset(b) && a != [] && b != [] && a[0] == b[0]
    ensures multiset(a[1..]) == multiset(b[1..])
  {
    assert a == [a[0]] + a[1..] && b == [b[0]] + b[1..];
    assert multiset(a) == multiset{a[0]} + multiset(a[1..]);
    assert multiset(b) == multiset{b[0]} + multiset(b[1..]);
    forall y
      ensures multiset(a[1..])[y] == multiset(b[1..])[y]
    {
      assert multiset(a)[y] == multiset(b)[y];
    }
  }

  lemma TailOrdered(key: Key, s: seq<Item>)
    requires StrictlyOrdered(key, s) && s != []
    ensures StrictlyOrdered(key, s[1..])
  {
    forall i, j | 0 <= i < j < |s| - 1
      ensures Before(key, s[1..][i], s[1..][j])
    {
      assert s[1..][i] == s[i + 1] && s[1..][j] == s[j + 1];
    }
  }

  lemma TailDistinct(s: seq<Item>)
    requires DistinctIndices(s) && s != []
    ensures DistinctIndices(s[1..])
  {
    forall i, j | 0 <= i < j < |s| - 1
      ensures s[1..][i].index != s[1..][j].index
    {
      assert s[1..][i] == s[i + 1] && s[1..][j] == s[j + 1];
    }
  }

  lemma ConsDistinct(x: Item, u: seq<Item>)
    requires DistinctIndices(u) && forall y :: y in u ==> y.index != x.index
    ensures DistinctIndices([x] + u)
  {
    var r := [x] + u;
    forall i, j | 0 <= i < j < |r|
      ensures r[i].index != r[j].index
    {
      assert r[j] == u[j - 1];
      if i > 0 {
        assert r[i] == u[i - 1];
      }
    }
  }

  lemma {:induction false} InsertDistinct(key: Key, x: Item, s: seq<Item>)
    requires DistinctIndices(s)
    requires forall y :: y in s ==> y.index != x.index
    ensures DistinctIndices(Insert(key, x, s))
  {
    if s == [] || KeyOf(key, x) <= KeyOf(key, s[0]) {
      ConsDistinct(x, s);
    } else {
      var rest := Insert(key, x, s[1..]);
      TailDistinct(s);
      InsertDistinct(key, x, s[1..]);
      forall y | y in rest
        ensures y.index != s[0].index
      {
        assert y in multiset(rest);
        if y != x {
          var k :| 0 <= k < |s[1..]| && s[1..][k] == y;
          assert s[k + 1] == y;
        }
      }
      ConsDistinct(s[0], rest);
    }
  }

  /** Sorting keeps indices distinct. */
  lemma {:induction false} SortDistinct(key: Key, xs: seq<Item>)
    requires DistinctIndices(xs)
    ensures DistinctIndices(Sort(key, xs))
  {
    if xs != [] {
      var rest := xs[1..];
      TailDistinct(xs);
      SortDistinct(key, rest);
      forall y | y in Sort(key, rest)
        ensures y.index != xs[0].index
      {
        assert y in multiset(Sort(key, rest));
        var k :| 0 <= k < |rest| && rest[k] == y;
        assert xs[k + 1] == y;
      }
      InsertDistinct(key, xs[0], Sort(key, rest));
    }
  }

  /** The total of the cents of a list of items. */
  function SumCents(s: seq<Item>): int
  {
    if s == [] then 0 else s[0].cents + SumCents(s[1..])
  }

  lemma {:induction false} InsertKeepsSum(key: Key, x: Item, s: seq<Item>)
    ensures SumCents(Insert(key, x, s)) == x.cents + SumCents(s)
  {
    if s != [] && KeyOf(key, x) > KeyOf(key, s[0]) {
      InsertKeepsSum(key, x, s[1..]);
      var r := Insert(key, x, s);
      assert r[1..] == Insert(key, x, s[1..]);
    }
  }

  /** Sorting does not change the total. */
  lemma {:induction false} SortKeepsSum(key: Key, xs: seq<Item>)
    ensures SumCents(Sort(key, xs)) == SumCents(xs)
  {
    if xs != [] {
      SortKeepsSum(key, xs[1..]);
      InsertKeepsSum(key, xs[0], Sort(key, xs[1..]));
    }
  }

  /** Sorting a list that is already strictly ordered leaves it as it is. */
  lemma SortOfOrdered(key: Key, s: seq<Item>)
    requires StrictlyOrdered(key, s)
    ensures Sort(key, s) == s
  {
    SortOrdered(key, s);
    StrictlyOrderedUnique(key, Sort(key, s), s);
  }
}
