/**
 * `findCombinations` with the sign restored. For a negative target the
 * search runs on negated amounts and computes `sign`, but never applies it
 * again: the combinations it returns carry the negated cents and a positive
 * sum. This module states the behaviour the sign handling was evidently
 * meant to have, where each returned combination speaks about the entries
 * as they were entered.
 */
module SignedCombos {
  import opened Ordering
  import opened Entries
  import opened Combos
  import opened ComboProperties
  import Money

  /** A combination of the normalised search, mapped back to the target's sign. */
  function Restore(target: int, combo: Combo): Combo
  {
    if target < 0 then Combo(Negated(combo.items), -combo.sum) else combo
  }

  function RestoreAll(target: int, combos: seq<Combo>): (r: seq<Combo>)
    ensures |r| == |combos|
  {
    seq(|combos|, k requires 0 <= k < |combos| => Restore(target, combos[k]))
  }

  /** The search with every combination mapped back to the target's sign; `truncated` is unchanged. */
  function SearchSigned(entries: seq<Entry>, target: int, maxCount: int): SearchResult
  {
    var r := Search(entries, target, maxCount);
    SearchResult(RestoreAll(target, r.combos), r.truncated)
  }

  lemma {:induction false} SumNegated(xs: seq<Item>)
    ensures SumCents(Negated(xs)) == -SumCents(xs)
  {
    if xs != [] {
      assert Negated(xs)[1..] == Negated(xs[1..]);
      SumNegated(xs[1..]);
    }
  }

  /**
   * Every combination of the signed search sums to the target itself, and
   * each member carries the index and the cents of the entry it stands for.
   */
  lemma SignedCombosExact(entries: seq<Entry>, target: int, maxCount: int, p: nat)
    requires p < |SearchSigned(entries, target, maxCount).combos|
    ensures var combo := SearchSigned(entries, target, maxCount).combos[p];
      && combo.sum == target
      && SumCents(combo.items) == target
      && forall it :: it in combo.items ==> 0 <= it.index < |entries| && it.cents == entries[it.index].cents
  {
    var raw := Search(entries, target, maxCount).combos[p];
    ComboSumExact(entries, target, maxCount, p);
    assert SearchSigned(entries, target, maxCount).combos[p] == Restore(target, raw);
    RestoreExact(entries, target, raw);
  }

  /** Restoring the sign of an exact combination of candidates gives one of the entries themselves. */
  lemma RestoreExact(entries: seq<Entry>, target: int, raw: Combo)
    requires raw.sum == Money.Abs(target) && SumCents(raw.items) == Money.Abs(target)
    requires forall it :: it in raw.items ==> IsCandidate(entries, target, it)
    ensures var combo := Restore(target, raw);
      && combo.sum == target
      && SumCents(combo.items) == target
      && forall it :: it in combo.items ==> 0 <= it.index < |entries| && it.cents == entries[it.index].cents
  {
    if target < 0 {
      var combo := Restore(target, raw);
      SumNegated(raw.items);
      forall it | it in combo.items
        ensures 0 <= it.index < |entries| && it.cents == entries[it.index].cents
      {
        var k :| 0 <= k < |raw.items| && combo.items[k] == it;
        assert raw.items[k] in raw.items;
      }
    }
  }

  /** For a non-negative target nothing changes. */
  lemma SignedAgreesWhenPositive(entries: seq<Entry>, target: int, maxCount: int)
    requires target >= 0
    ensures SearchSigned(entries, target, maxCount) == Search(entries, target, maxCount)
  {
  }

  /** `findCombinations` followed by the missing step: mapping every result back with `sign`. */
  method FindSignedCombinations(entries: seq<Entry>, target: int, maxCount: int) returns (r: SearchResult)
    ensures r == SearchSigned(entries, target, maxCount)
  {
    var found := FindCombinations(entries, target, maxCount);
    var combos := found.combos;
    if target < 0 {
      for k := 0 to |combos|
        invariant |combos| == |found.combos|
        invariant forall j :: 0 <= j < k ==> combos[j] == Restore(target, found.combos[j])
        invariant forall j :: k <= j < |combos| ==> combos[j] == found.combos[j]
      {
        combos := combos[k := Combo(Negated(combos[k].items), -combos[k].sum)];
      }
    }
    r := SearchResult(combos, found.truncated);
  }
}
