/**
 * `findCombinations`: a bounded depth-first search for the sets of entries
 * whose cents add up exactly to a target.
 *
 * The search itself is the `Searcher` class, whose fields are the closure
 * state of the source (`items`, `targetCents`, `maxCount`, `results`,
 * `current`) and whose `Dfs` method is the recursive `dfs`. Its contract ties
 * what it appends to `results` to `Enum`, a functional enumeration of the
 * index lists the search visits, in the order it visits them.
 */
module Combos {
  import opened Ordering
  import opened Entries
  import Money

  /** A match: its members listed by ascending index, and the sum recorded for it. */
  datatype Combo = Combo(items: seq<Item>, sum: int)

  /** `{ combos, truncated }`. */
  datatype SearchResult = SearchResult(combos: seq<Combo>, truncated: bool)

  /** `sourceEntries.map((e, i) => ({ index: i, cents: e.cents }))`: the index is the position. */
  function Tagged(entries: seq<Entry>): seq<Item>
  {
    seq(|entries|, i requires 0 <= i < |entries| => Item(i, entries[i].cents))
  }

  function Negate(it: Item): Item
  {
    Item(it.index, -it.cents)
  }

  function Negated(xs: seq<Item>): seq<Item>
  {
    seq(|xs|, k requires 0 <= k < |xs| => Negate(xs[k]))
  }

  /** The items in sign-normalised form: negated when the target is negative. */
  function Normalised(xs: seq<Item>, target: int): seq<Item>
  {
    if target < 0 then Negated(xs) else xs
  }

  /** `items.filter(it => it.cents > 0 && it.cents <= targetCents)`. */
  function Useful(xs: seq<Item>, t: int): (r: seq<Item>)
    ensures forall y :: y in r <==> y in xs && 0 < y.cents <= t
  {
    if xs == [] then []
    else
      assert xs == [xs[0]] + xs[1..];
      (if 0 < xs[0].cents <= t then [xs[0]] else []) + Useful(xs[1..], t)
  }

  /** The candidates the search runs over, in the order it tries them. */
  function Candidates(entries: seq<Entry>, target: int): seq<Item>
  {
    Sort(ByCents, Useful(Normalised(Sort(ByCents, Tagged(entries)), target), Money.Abs(target)))
  }

  /** Every position in `c` is a position of a list of length `n`. */
  predicate InRange(n: nat, c: seq<nat>)
  {
    forall k :: 0 <= k < |c| ==> c[k] < n
  }

  predicate AllInRange(n: nat, ls: seq<seq<nat>>)
  {
    forall k :: 0 <= k < |ls| ==> InRange(n, ls[k])
  }

  /**
   * The index lists that `dfs(start, sum)` records, in the order it records
   * them, when `cur` holds the positions chosen so far and no cap applies:
   * a leaf when the running sum hits the target, nothing when it overshoots,
   * otherwise every extension by a position from `start` on.
   */
  function Enum(items: seq<Item>, t: int, start: nat, sum: int, cur: seq<nat>): (r: seq<seq<nat>>)
    requires start <= |items| && InRange(|items|, cur)
    ensures AllInRange(|items|, r)
    decreases |items| - start, 1
  {
    if sum == t then [cur]
    else if sum > t then []
    else EnumLoop(items, t, sum, cur, start)
  }

  /** The loop of `dfs` from position `i` on: try `i`, then the positions after it. */
  function EnumLoop(items: seq<Item>, t: int, sum: int, cur: seq<nat>, i: nat): (r: seq<seq<nat>>)
    requires i <= |items| && InRange(|items|, cur)
    ensures AllInRange(|items|, r)
    decreases |items| - i, 0
  {
    if i == |items| then []
    else Enum(items, t, i + 1, sum + items[i].cents, cur + [i]) + EnumLoop(items, t, sum, cur, i + 1)
  }

  /** The first `m` elements of `ls` (all of them when there are fewer, none when `m <= 0`). */
  function Take<T>(ls: seq<T>, m: int): (r: seq<T>)
    ensures |r| == if m <= 0 then 0 else if m < |ls| then m else |ls|
  {
    if m <= 0 then [] else if m < |ls| then ls[..m] else ls
  }

  /** What is taken is a prefix. */
  lemma TakePrefix<T>(ls: seq<T>, m: int)
    ensures |Take(ls, m)| <= |ls| && Take(ls, m) == ls[..|Take(ls, m)|]
  {
  }

  /** The items at the positions in `c`. */
  function Pick(items: seq<Item>, c: seq<nat>): seq<Item>
    requires InRange(|items|, c)
  {
    seq(|c|, k requires 0 <= k < |c| => items[c[k]])
  }

  /** `{ items: current.slice().map(i => items[i]).sort((a, b) => a.index - b.index), sum }`. */
  function ComboOf(items: seq<Item>, sum: int, c: seq<nat>): Combo
    requires InRange(|items|, c)
  {
    Combo(Sort(ByIndex, Pick(items, c)), sum)
  }

  function ToCombos(items: seq<Item>, sum: int, ls: seq<seq<nat>>): (r: seq<Combo>)
    requires AllInRange(|items|, ls)
    ensures |r| == |ls|
  {
    seq(|ls|, k requires 0 <= k < |ls| => ComboOf(items, sum, ls[k]))
  }

  /**
   * `before` followed by the combos of the lists in `ls`, as many as fit
   * until there are `maxCount` in all.
   */
  function Extend(items: seq<Item>, t: int, maxCount: int, before: seq<Combo>, ls: seq<seq<nat>>): seq<Combo>
    requires AllInRange(|items|, ls)
  {
    before + ToCombos(items, t, Take(ls, maxCount - |before|))
  }

  /** What `findCombinations` returns: the first `maxCount` matches in the order found. */
  function Found(entries: seq<Entry>, target: int, maxCount: int): seq<Combo>
  {
    var c := Candidates(entries, target);
    var t := Money.Abs(target);
    ToCombos(c, t, Take(Enum(c, t, 0, 0, []), maxCount))
  }

  function Search(entries: seq<Entry>, target: int, maxCount: int): SearchResult
  {
    var found := Found(entries, target, maxCount);
    SearchResult(found, |found| >= maxCount)
  }

  lemma TakeAppend<T>(a: seq<T>, b: seq<T>, m: int)
    ensures Take(a + b, m) == Take(a, m) + Take(b, m - |Take(a, m)|)
  {
    if 0 < m < |a| {
      assert (a + b)[..m] == a[..m];
    }
  }

  lemma ToCombosAppend(items: seq<Item>, sum: int, a: seq<seq<nat>>, b: seq<seq<nat>>)
    requires AllInRange(|items|, a) && AllInRange(|items|, b)
    ensures AllInRange(|items|, a + b)
    ensures ToCombos(items, sum, a + b) == ToCombos(items, sum, a) + ToCombos(items, sum, b)
  {
  }

  /**
   * Appending the capped matches of `first` and then the matches of `rest`,
   * capped by what is left, appends the capped matches of `first + rest`.
   */
  lemma CappedAppend(items: seq<Item>, t: int, maxCount: int, first: seq<seq<nat>>, rest: seq<seq<nat>>,
                     before: seq<Combo>, after: seq<Combo>)
    requires AllInRange(|items|, first) && AllInRange(|items|, rest)
    requires after == Extend(items, t, maxCount, before, first)
    ensures AllInRange(|items|, first + rest)
    ensures Extend(items, t, maxCount, after, rest) == Extend(items, t, maxCount, before, first + rest)
  {
    var m := maxCount - |before|;
    var a := Take(first, m);
    TakeInRange(|items|, first, m);
    assert after == before + ToCombos(items, t, a);
    var b := Take(rest, maxCount - |after|);
    TakeInRange(|items|, rest, maxCount - |after|);
    TakeAppend(first, rest, m);
    ToCombosAppend(items, t, first, rest);
    ToCombosAppend(items, t, a, b);
    var ca, cb := ToCombos(items, t, a), ToCombos(items, t, b);
    assert Extend(items, t, maxCount, after, rest) == after + cb;
    assert Extend(items, t, maxCount, before, first + rest) == before + ToCombos(items, t, a + b);
    Regroup(before, ca, cb, after, ToCombos(items, t, a + b));
  }

  lemma Regroup<T>(before: seq<T>, ca: seq<T>, cb: seq<T>, after: seq<T>, whole: seq<T>)
    requires after == before + ca && whole == ca + cb
    ensures after + cb == before + whole
  {
  }

  lemma TakeInRange(n: nat, ls: seq<seq<nat>>, m: int)
    requires AllInRange(n, ls)
    ensures AllInRange(n, Take(ls, m))
  {
  }

  /**
   * One turn of the loop in `dfs`: what the recursive call for position `i`
   * appends, followed by what the rest of the loop would append, is what the
   * loop from `i` appends.
   */
  lemma LoopStep(items: seq<Item>, t: int, maxCount: int, sum: int, cur: seq<nat>, i: nat,
                 before: seq<Combo>, after: seq<Combo>)
    requires i < |items| && InRange(|items|, cur)
    requires after == Extend(items, t, maxCount, before, Enum(items, t, i + 1, sum + items[i].cents, cur + [i]))
    ensures Extend(items, t, maxCount, after, EnumLoop(items, t, sum, cur, i + 1))
         == Extend(items, t, maxCount, before, EnumLoop(items, t, sum, cur, i))
  {
    var first := Enum(items, t, i + 1, sum + items[i].cents, cur + [i]);
    var rest := EnumLoop(items, t, sum, cur, i + 1);
    assert EnumLoop(items, t, sum, cur, i) == first + rest;
    CappedAppend(items, t, maxCount, first, rest, before, after);
  }

  /** The closure state of one `findCombinations` call. */
  class Searcher {
    const items: seq<Item>
    const target: int
    const maxCount: int
    var results: seq<Combo>
    var current: seq<nat>

    constructor (items: seq<Item>, target: int, maxCount: int)
      ensures this.items == items && this.target == target && this.maxCount == maxCount
      ensures results == [] && current == []
    {
      this.items := items;
      this.target := target;
      this.maxCount := maxCount;
      results := [];
      current := [];
    }

    /**
     * `dfs(start, sum)`: appends the matches below the current path, in
     * order, until `results` holds `maxCount` of them, and leaves the path
     * as it found it.
     */
    method Dfs(start: nat, sum: int)
      requires start <= |items| && InRange(|items|, current)
      modifies this
      decreases |items| - start
      ensures current == old(current)
      ensures results == Extend(items, target, maxCount, old(results), Enum(items, target, start, sum, old(current)))
    {
      ghost var goal := Extend(items, target, maxCount, results, Enum(items, target, start, sum, current));
      if |results| >= maxCount {
        NoneWhenFull(items, target, maxCount, results, Enum(items, target, start, sum, current));
        return;
      }
      if sum == target {
        LeafFound(items, target, maxCount, start, current, results);
        results := results + [ComboOf(items, sum, current)];
        return;
      }
      if sum > target {
        return;
      }
      assert Enum(items, target, start, sum, current) == EnumLoop(items, target, sum, current, start);
      for i := start to |items|
        invariant current == old(current)
        invariant |results| < maxCount
        invariant Extend(items, target, maxCount, results, EnumLoop(items, target, sum, current, i)) == goal
      {
        ghost var before := results;
        ghost var path := current;
        ExtendInRange(|items|, current, i);
        current := current + [i];
        Dfs(i + 1, sum + items[i].cents);
        assert current[..|current| - 1] == path;
        current := current[..|current| - 1];
        LoopStep(items, target, maxCount, sum, current, i, before, results);
        if |results| >= maxCount {
          return;
        }
      }
      assert EnumLoop(items, target, sum, current, |items|) == [];
    }
  }

  lemma NoneWhenFull(items: seq<Item>, t: int, maxCount: int, before: seq<Combo>, ls: seq<seq<nat>>)
    requires AllInRange(|items|, ls) && |before| >= maxCount
    ensures Extend(items, t, maxCount, before, ls) == before
  {
  }

  lemma LeafFound(items: seq<Item>, t: int, maxCount: int, start: nat, cur: seq<nat>, before: seq<Combo>)
    requires start <= |items| && InRange(|items|, cur) && |before| < maxCount
    ensures Extend(items, t, maxCount, before, Enum(items, t, start, t, cur)) == before + [ComboOf(items, t, cur)]
  {
    assert Enum(items, t, start, t, cur) == [cur];
  }

  lemma ExtendInRange(n: nat, cur: seq<nat>, i: nat)
    requires InRange(n, cur) && i < n
    ensures InRange(n, cur + [i])
  {
  }

  /**
   * `findCombinations(sourceEntries, targetCents, maxCount)`: the search
   * over the sign-normalised, filtered and sorted candidates.
   */
  method FindCombinations(entries: seq<Entry>, target: int, maxCount: int) returns (r: SearchResult)
    ensures r == Search(entries, target, maxCount)
  {
    var items := Sort(ByCents, Tagged(entries));
    var t := target;
    if t < 0 {
      ghost var sorted := items;
      for k := 0 to |items|
        invariant |items| == |sorted|
        invariant forall j :: 0 <= j < k ==> items[j] == Negate(sorted[j])
        invariant forall j :: k <= j < |items| ==> items[j] == sorted[j]
      {
        items := items[k := Negate(items[k])];
      }
      assert items == Negated(sorted);
      t := -t;
    }
    items := Sort(ByCents, Useful(items, t));
    assert t == Money.Abs(target) && items == Candidates(entries, target);
    var searcher := new Searcher(items, t, maxCount);
    searcher.Dfs(0, 0);
    assert searcher.results == Found(entries, target, maxCount);
    r := SearchResult(searcher.results, |searcher.results| >= maxCount);
  }
}
