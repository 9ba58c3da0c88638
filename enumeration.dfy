/**
 * What the depth-first enumeration `Enum` visits: every list it records is
 * the current path extended by strictly increasing positions whose items
 * bring the running sum exactly to the target; every such extension is
 * recorded when all items are positive; and the lists come out in strictly
 * increasing lexicographic order.
 */
module Enumeration {
  import opened Ordering
  import opened Combos

  /** Strictly increasing positions. */
  predicate Increasing(c: seq<nat>)
  {
    forall i, j :: 0 <= i < j < |c| ==> c[i] < c[j]
  }

  /** The total of the cents of the items at the positions in `c`. */
  function SumAt(items: seq<Item>, c: seq<nat>): int
    requires InRange(|items|, c)
  {
    if c == [] then 0 else items[c[0]].cents + SumAt(items, c[1..])
  }

  /** Lexicographic order on position lists, a proper prefix coming first. */
  predicate LexLess(a: seq<nat>, b: seq<nat>)
  {
    if a == [] then b != []
    else b != [] && (a[0] < b[0] || (a[0] == b[0] && LexLess(a[1..], b[1..])))
  }

  predicate LexSorted(ls: seq<seq<nat>>)
  {
    forall p, q :: 0 <= p < q < |ls| ==> LexLess(ls[p], ls[q])
  }

  lemma {:induction false} LexLessIrreflexive(a: seq<nat>)
    ensures !LexLess(a, a)
  {
    if a != [] {
      LexLessIrreflexive(a[1..]);
    }
  }

  /** Lists that agree up to `k` and differ first at `k` are ordered by their `k`-th elements. */
  lemma {:induction false} LexLessAtDifference(a: seq<nat>, b: seq<nat>, k: nat)
    requires k < |a| && k < |b| && a[..k] == b[..k] && a[k] < b[k]
    ensures LexLess(a, b)
  {
    if k > 0 {
      assert a[0] == a[..k][0] == b[..k][0] == b[0];
      assert a[1..][..k - 1] == a[1..k] == b[1..k] == b[1..][..k - 1];
      LexLessAtDifference(a[1..], b[1..], k - 1);
    }
  }

  lemma ConcatLexSorted(a: seq<seq<nat>>, b: seq<seq<nat>>)
    requires LexSorted(a) && LexSorted(b)
    requires forall x, y :: x in a && y in b ==> LexLess(x, y)
    ensures LexSorted(a + b)
  {
    var ab := a + b;
    forall p, q | 0 <= p < q < |ab|
      ensures LexLess(ab[p], ab[q])
    {
      if q < |a| {
        assert ab[p] == a[p] && ab[q] == a[q];
      } else if p < |a| {
        assert ab[p] in a && ab[q] in b;
      } else {
        assert ab[p] == b[p - |a|] && ab[q] == b[q - |a|];
      }
    }
  }

  /**
   * Soundness of a leaf or a subtree: a recorded list is the current path
   * followed by strictly increasing positions from `start` on, and those
   * positions bring `sum` exactly to `t`.
   */
  lemma {:induction false} EnumSound(items: seq<Item>, t: int, start: nat, sum: int, cur: seq<nat>, c: seq<nat>)
    requires start <= |items| && InRange(|items|, cur)
    requires c in Enum(items, t, start, sum, cur)
    ensures |cur| <= |c| && c[..|cur|] == cur && InRange(|items|, c)
    ensures Increasing(c[|cur|..]) && forall k :: |cur| <= k < |c| ==> start <= c[k]
    ensures sum + SumAt(items, c[|cur|..]) == t
    decreases |items| - start, 1
  {
    if sum == t {
      assert c == cur;
    } else if sum < t {
      EnumLoopSound(items, t, sum, cur, start, c);
    }
  }

  /** Soundness of the loop from position `i`: every list it records extends the path by at least one position `>= i`. */
  lemma {:induction false} EnumLoopSound(items: seq<Item>, t: int, sum: int, cur: seq<nat>, i: nat, c: seq<nat>)
    requires i <= |items| && InRange(|items|, cur)
    requires c in EnumLoop(items, t, sum, cur, i)
    ensures |cur| < |c| && c[..|cur|] == cur && InRange(|items|, c)
    ensures Increasing(c[|cur|..]) && forall k :: |cur| <= k < |c| ==> i <= c[k]
    ensures sum + SumAt(items, c[|cur|..]) == t
    decreases |items| - i, 0
  {
    var first := Enum(items, t, i + 1, sum + items[i].cents, cur + [i]);
    var rest := EnumLoop(items, t, sum, cur, i + 1);
    assert EnumLoop(items, t, sum, cur, i) == first + rest;
    if c in first {
      EnumSound(items, t, i + 1, sum + items[i].cents, cur + [i], c);
      var tail := c[|cur| + 1..];
      assert c[..|cur| + 1] == cur + [i];
      assert c[..|cur|] == c[..|cur| + 1][..|cur|];
      assert c[|cur|..] == [i] + tail;
      assert SumAt(items, c[|cur|..]) == items[i].cents + SumAt(items, tail);
    } else {
      EnumLoopSound(items, t, sum, cur, i + 1, c);
    }
  }

  /** What the call for position `j` records, the loop from any `i <= j` records too. */
  lemma {:induction false} EnumLoopContains(items: seq<Item>, t: int, sum: int, cur: seq<nat>, i: nat, j: nat, c: seq<nat>)
    requires i <= j < |items| && InRange(|items|, cur)
    requires c in Enum(items, t, j + 1, sum + items[j].cents, cur + [j])
    ensures c in EnumLoop(items, t, sum, cur, i)
    decreases j - i
  {
    var first := Enum(items, t, i + 1, sum + items[i].cents, cur + [i]);
    var rest := EnumLoop(items, t, sum, cur, i + 1);
    assert EnumLoop(items, t, sum, cur, i) == first + rest;
    if i < j {
      EnumLoopContains(items, t, sum, cur, i + 1, j, c);
      assert c in rest;
    } else {
      assert c in first;
    }
  }

  lemma {:induction false} SumAtPositive(items: seq<Item>, c: seq<nat>)
    requires InRange(|items|, c) && c != []
    requires forall k :: 0 <= k < |items| ==> items[k].cents > 0
    ensures SumAt(items, c) > 0
  {
    if |c| > 1 {
      SumAtPositive(items, c[1..]);
    }
  }

  /**
   * Completeness: when every item is positive, every extension of the path
   * by strictly increasing positions from `start` on that brings `sum`
   * exactly to `t` is recorded.
   */
  lemma {:induction false} EnumComplete(items: seq<Item>, t: int, start: nat, sum: int, cur: seq<nat>, tail: seq<nat>)
    requires start <= |items| && InRange(|items|, cur)
    requires forall k :: 0 <= k < |items| ==> items[k].cents > 0
    requires Increasing(tail) && InRange(|items|, tail)
    requires forall k :: 0 <= k < |tail| ==> start <= tail[k]
    requires sum + SumAt(items, tail) == t
    ensures cur + tail in Enum(items, t, start, sum, cur)
    decreases |tail|
  {
    if tail == [] {
      assert cur + tail == cur;
    } else {
      var j := tail[0];
      SumAtPositive(items, tail);
      EnumComplete(items, t, j + 1, sum + items[j].cents, cur + [j], tail[1..]);
      assert cur + tail == (cur + [j]) + tail[1..];
      EnumLoopContains(items, t, sum, cur, start, j, cur + tail);
    }
  }

  /** The lists a subtree records come out in strictly increasing lexicographic order. */
  lemma {:induction false} EnumLexSorted(items: seq<Item>, t: int, start: nat, sum: int, cur: seq<nat>)
    requires start <= |items| && InRange(|items|, cur)
    ensures LexSorted(Enum(items, t, start, sum, cur))
    decreases |items| - start, 1
  {
    if sum < t {
      EnumLoopLexSorted(items, t, sum, cur, start);
    }
  }

  lemma {:induction false} EnumLoopLexSorted(items: seq<Item>, t: int, sum: int, cur: seq<nat>, i: nat)
    requires i <= |items| && InRange(|items|, cur)
    ensures LexSorted(EnumLoop(items, t, sum, cur, i))
    decreases |items| - i, 0
  {
    if i < |items| {
      var first := Enum(items, t, i + 1, sum + items[i].cents, cur + [i]);
      var rest := EnumLoop(items, t, sum, cur, i + 1);
      EnumLexSorted(items, t, i + 1, sum + items[i].cents, cur + [i]);
      EnumLoopLexSorted(items, t, sum, cur, i + 1);
      forall a, b | a in first && b in rest
        ensures LexLess(a, b)
      {
        EnumSound(items, t, i + 1, sum + items[i].cents, cur + [i], a);
        EnumLoopSound(items, t, sum, cur, i + 1, b);
        assert a[..|cur| + 1] == cur + [i];
        assert a[..|cur|] == a[..|cur| + 1][..|cur|];
        LexLessAtDifference(a, b, |cur|);
      }
      ConcatLexSorted(first, rest);
    }
  }
}
