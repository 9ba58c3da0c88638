/**
 * What `findCombinations` promises its caller, stated on `Search`, the
 * function its method model is proved equal to.
 */
module ComboProperties {
  import opened Ordering
  import opened Entries
  import opened Combos
  import opened Enumeration
  import Money

  /** An entry's cents in the sign-normalised domain: negated when the target is negative. */
  function NormalisedCents(target: int, cents: int): int
  {
    if target < 0 then -cents else cents
  }

  /**
   * The candidates of a search: an entry, tagged with its position, whose
   * normalised cents are positive and at most the normalised target.
   */
  predicate IsCandidate(entries: seq<Entry>, target: int, it: Item)
  {
    && 0 <= it.index < |entries|
    && it.cents == NormalisedCents(target, entries[it.index].cents)
    && 0 < it.cents <= Money.Abs(target)
  }

  lemma TaggedMembers(entries: seq<Entry>, it: Item)
    ensures it in Tagged(entries) <==> 0 <= it.index < |entries| && it.cents == entries[it.index].cents
  {
    if 0 <= it.index < |entries| && it.cents == entries[it.index].cents {
      assert Tagged(entries)[it.index] == it;
    }
  }

  lemma NormalisedMembers(xs: seq<Item>, target: int, it: Item)
    ensures it in Normalised(xs, target) <==> Item(it.index, NormalisedCents(target, it.cents)) in xs
  {
    if target < 0 {
      if Negate(it) in xs {
        var k :| 0 <= k < |xs| && xs[k] == Negate(it);
        assert Negated(xs)[k] == it;
      }
    }
  }

  lemma TaggedTies(entries: seq<Entry>)
    ensures TiesInIndexOrder(ByCents, Tagged(entries)) && DistinctIndices(Tagged(entries))
  {
  }

  /** Negating every item keeps equal keys in index order when the list was strictly ordered. */
  lemma NormalisedTies(xs: seq<Item>, target: int)
    requires StrictlyOrdered(ByCents, xs) && DistinctIndices(xs)
    ensures TiesInIndexOrder(ByCents, Normalised(xs, target)) && DistinctIndices(Normalised(xs, target))
  {
    var n := Normalised(xs, target);
    forall i, j | 0 <= i < j < |n| && n[i].cents == n[j].cents
      ensures n[i].index < n[j].index
    {
      assert Before(ByCents, xs[i], xs[j]);
    }
  }

  /** An element of the filtered tail of `xs` sits at some position after the head. */
  lemma UsefulTailMember(xs: seq<Item>, t: int, y: Item)
    requires xs != [] && y in Useful(xs[1..], t)
    ensures exists k :: 1 <= k < |xs| && xs[k] == y
  {
    assert y in xs[1..];
    var k :| 0 <= k < |xs[1..]| && xs[1..][k] == y;
    assert xs[k + 1] == y;
  }

  lemma TailTies(xs: seq<Item>)
    requires xs != [] && TiesInIndexOrder(ByCents, xs) && DistinctIndices(xs)
    ensures TiesInIndexOrder(ByCents, xs[1..]) && DistinctIndices(xs[1..])
  {
    var rest := xs[1..];
    forall i, j | 0 <= i < j < |rest|
      ensures rest[i] == xs[i + 1] && rest[j] == xs[j + 1]
    {
    }
  }

  lemma ConsTies(x: Item, u: seq<Item>)
    requires TiesInIndexOrder(ByCents, u) && DistinctIndices(u)
    requires forall y :: y in u ==> y.index != x.index && (y.cents == x.cents ==> x.index < y.index)
    ensures TiesInIndexOrder(ByCents, [x] + u) && DistinctIndices([x] + u)
  {
    var r := [x] + u;
    forall i, j | 0 <= i < j < |r|
      ensures r[i].index != r[j].index
      ensures r[i].cents == r[j].cents ==> r[i].index < r[j].index
    {
      assert r[j] == u[j - 1];
      if i > 0 {
        assert r[i] == u[i - 1];
      }
    }
  }

  /** The filter keeps a subsequence, so it keeps both orderings. */
  lemma {:induction false} UsefulTies(xs: seq<Item>, t: int)
    requires TiesInIndexOrder(ByCents, xs) && DistinctIndices(xs)
    ensures TiesInIndexOrder(ByCents, Useful(xs, t)) && DistinctIndices(Useful(xs, t))
  {
    if xs != [] {
      TailTies(xs);
      UsefulTies(xs[1..], t);
      var u := Useful(xs[1..], t);
      assert Useful(xs, t) == (if 0 < xs[0].cents <= t then [xs[0]] else []) + u;
      if 0 < xs[0].cents <= t {
        forall y | y in u
          ensures y.index != xs[0].index
          ensures y.cents == xs[0].cents ==> xs[0].index < y.index
        {
          UsefulTailMember(xs, t, y);
        }
        ConsTies(xs[0], u);
      } else {
        assert Useful(xs, t) == u;
      }
    }
  }

  lemma CandidatesOrdered(entries: seq<Entry>, target: int)
    ensures StrictlyOrdered(ByCents, Candidates(entries, target))
    ensures DistinctIndices(Candidates(entries, target))
  {
    var tagged := Tagged(entries);
    TaggedTies(entries);
    var sorted := Sort(ByCents, tagged);
    SortOrdered(ByCents, tagged);
    SortDistinct(ByCents, tagged);
    var n := Normalised(sorted, target);
    NormalisedTies(sorted, target);
    var u := Useful(n, Money.Abs(target));
    UsefulTies(n, Money.Abs(target));
    SortOrdered(ByCents, u);
    SortDistinct(ByCents, u);
  }

  lemma CandidateMember(entries: seq<Entry>, target: int, it: Item)
    ensures it in Candidates(entries, target) <==> IsCandidate(entries, target, it)
  {
    var tagged := Tagged(entries);
    var sorted := Sort(ByCents, tagged);
    var n := Normalised(sorted, target);
    var u := Useful(n, Money.Abs(target));
    assert it in Candidates(entries, target) <==> it in multiset(u);
    assert it in u <==> it in n && 0 < it.cents <= Money.Abs(target);
    NormalisedMembers(sorted, target, it);
    var pre := Item(it.index, NormalisedCents(target, it.cents));
    assert pre in sorted <==> pre in multiset(tagged);
    TaggedMembers(entries, pre);
  }

  /**
   * The candidates: strictly increasing by (cents, position), positions
   * distinct, and exactly the entries whose normalised cents lie in
   * (0, |target|]. With `StrictlyOrderedUnique` this fixes the list.
   */
  lemma CandidatesCharacterised(entries: seq<Entry>, target: int)
    ensures var c := Candidates(entries, target);
      && StrictlyOrdered(ByCents, c) && DistinctIndices(c)
      && forall it :: it in c <==> IsCandidate(entries, target, it)
  {
    CandidatesOrdered(entries, target);
    forall it
      ensures it in Candidates(entries, target) <==> IsCandidate(entries, target, it)
    {
      CandidateMember(entries, target, it);
    }
  }

  lemma CandidatesPositive(entries: seq<Entry>, target: int)
    ensures var c := Candidates(entries, target);
      forall k :: 0 <= k < |c| ==> 0 < c[k].cents <= Money.Abs(target)
  {
    CandidatesCharacterised(entries, target);
    var c := Candidates(entries, target);
    forall k | 0 <= k < |c|
      ensures 0 < c[k].cents <= Money.Abs(target)
    {
      assert c[k] in c;
    }
  }

  /** The position lists the search records, in the order it records them. */
  function Positions(entries: seq<Entry>, target: int, maxCount: int): (r: seq<seq<nat>>)
    ensures AllInRange(|Candidates(entries, target)|, r)
  {
    var c := Candidates(entries, target);
    Take(Enum(c, Money.Abs(target), 0, 0, []), maxCount)
  }

  lemma FoundAt(entries: seq<Entry>, target: int, maxCount: int, p: nat)
    requires p < |Search(entries, target, maxCount).combos|
    ensures var c := Candidates(entries, target);
      var pos := Positions(entries, target, maxCount);
      && p < |pos| && pos[p] in Enum(c, Money.Abs(target), 0, 0, [])
      && Search(entries, target, maxCount).combos[p] == ComboOf(c, Money.Abs(target), pos[p])
  {
    var c := Candidates(entries, target);
    var all := Enum(c, Money.Abs(target), 0, 0, []);
    var pos := Positions(entries, target, maxCount);
    assert pos[p] == all[p];
  }

  lemma PickMembers(items: seq<Item>, c: seq<nat>, it: Item)
    requires InRange(|items|, c)
    ensures it in Sort(ByIndex, Pick(items, c)) <==> exists k :: 0 <= k < |c| && items[c[k]] == it
  {
    var pick := Pick(items, c);
    var sorted := Sort(ByIndex, pick);
    assert multiset(sorted) == multiset(pick);
    assert (it in sorted) == (it in multiset(sorted));
    assert (it in pick) == (it in multiset(pick));
    if it in pick {
      var k :| 0 <= k < |pick| && pick[k] == it;
      assert items[c[k]] == it;
    }
    if exists k :: 0 <= k < |c| && items[c[k]] == it {
      var k :| 0 <= k < |c| && items[c[k]] == it;
      assert pick[k] == it;
    }
  }

  lemma {:induction false} SumAtPick(items: seq<Item>, c: seq<nat>)
    requires InRange(|items|, c)
    ensures SumAt(items, c) == SumCents(Pick(items, c))
  {
    if c != [] {
      SumAtPick(items, c[1..]);
      assert Pick(items, c)[1..] == Pick(items, c[1..]);
    }
  }

  /**
   * Every returned combination is exact: its recorded sum is |target|, its
   * members add up to |target|, and every member is a candidate (an entry at
   * that position, with its cents negated when the target is negative and
   * lying in (0, |target|]).
   */
  lemma ComboSumExact(entries: seq<Entry>, target: int, maxCount: int, p: nat)
    requires p < |Search(entries, target, maxCount).combos|
    ensures var combo := Search(entries, target, maxCount).combos[p];
      && combo.sum == Money.Abs(target)
      && SumCents(combo.items) == Money.Abs(target)
      && forall it :: it in combo.items ==> IsCandidate(entries, target, it)
  {
    var c := Candidates(entries, target);
    var t := Money.Abs(target);
    var pos := Positions(entries, target, maxCount);
    FoundAt(entries, target, maxCount, p);
    EnumSound(c, t, 0, 0, [], pos[p]);
    assert pos[p][0..] == pos[p];
    SumAtPick(c, pos[p]);
    SortKeepsSum(ByIndex, Pick(c, pos[p]));
    CandidatesCharacterised(entries, target);
    forall it | it in Search(entries, target, maxCount).combos[p].items
      ensures IsCandidate(entries, target, it)
    {
      PickMembers(c, pos[p], it);
      var k :| 0 <= k < |pos[p]| && c[pos[p][k]] == it;
    }
  }

  /** With a negative target the members keep their negated cents and the recorded sum is `-target`. */
  lemma NegativeTarget(entries: seq<Entry>, target: int, maxCount: int, p: nat)
    requires target < 0
    requires p < |Search(entries, target, maxCount).combos|
    ensures var combo := Search(entries, target, maxCount).combos[p];
      && combo.sum == -target
      && forall it :: it in combo.items ==>
           0 <= it.index < |entries| && it.cents == -entries[it.index].cents && entries[it.index].cents < 0
  {
    ComboSumExact(entries, target, maxCount, p);
  }

  lemma PickDistinct(items: seq<Item>, c: seq<nat>)
    requires InRange(|items|, c) && Increasing(c) && DistinctIndices(items)
    ensures DistinctIndices(Pick(items, c))
  {
  }

  /**
   * Within a combination the members come from strictly increasing
   * candidate positions and are listed by strictly increasing index.
   */
  lemma MembersOrdered(entries: seq<Entry>, target: int, maxCount: int, p: nat)
    requires p < |Search(entries, target, maxCount).combos|
    ensures Increasing(Positions(entries, target, maxCount)[p])
    ensures StrictlyOrdered(ByIndex, Search(entries, target, maxCount).combos[p].items)
  {
    var c := Candidates(entries, target);
    var pos := Positions(entries, target, maxCount);
    FoundAt(entries, target, maxCount, p);
    EnumSound(c, Money.Abs(target), 0, 0, [], pos[p]);
    assert pos[p][0..] == pos[p];
    CandidatesCharacterised(entries, target);
    PickDistinct(c, pos[p]);
    SortOrdered(ByIndex, Pick(c, pos[p]));
  }

  /** The indices of a combination's members. */
  function IndexSet(combo: Combo): set<int>
  {
    set it | it in combo.items :: it.index
  }

  lemma IncreasingTail(a: seq<nat>, x: nat)
    requires Increasing(a) && a != []
    ensures Increasing(a[1..])
    ensures x in a[1..] <==> x in a && x != a[0]
  {
    if x in a && x != a[0] {
      var i :| 0 <= i < |a| && a[i] == x;
      assert a[1..][i - 1] == x;
    }
    if x in a[1..] {
      var i :| 0 <= i < |a[1..]| && a[1..][i] == x;
      assert a[i + 1] == x;
    }
  }

  /** Two strictly increasing lists with the same elements are equal. */
  lemma {:induction false} IncreasingUnique(a: seq<nat>, b: seq<nat>)
    requires Increasing(a) && Increasing(b)
    requires forall x :: x in a <==> x in b
    ensures a == b
  {
    if b != [] {
      assert b[0] in a;
    }
    if a != [] {
      assert a[0] in b && b[0] in a;
      var j :| 0 <= j < |b| && b[j] == a[0];
      var i :| 0 <= i < |a| && a[i] == b[0];
      assert b[0] <= b[j] && a[0] <= a[i];
      assert a[0] == b[0];
      forall x
        ensures x in a[1..] <==> x in b[1..]
      {
        IncreasingTail(a, x);
        IncreasingTail(b, x);
      }
      IncreasingTail(a, 0);
      IncreasingTail(b, 0);
      IncreasingUnique(a[1..], b[1..]);
      assert a == [a[0]] + a[1..] && b == [b[0]] + b[1..];
    }
  }

  /** A position outside `b` gives a member index that the combination of `b` lacks. */
  lemma IndexOutside(items: seq<Item>, sum: int, a: seq<nat>, b: seq<nat>, k: nat)
    requires InRange(|items|, a) && InRange(|items|, b) && DistinctIndices(items)
    requires k in a && k !in b
    ensures items[k].index in IndexSet(ComboOf(items, sum, a))
    ensures items[k].index !in IndexSet(ComboOf(items, sum, b))
  {
    var i :| 0 <= i < |a| && a[i] == k;
    PickMembers(items, a, items[k]);
    forall it | it in ComboOf(items, sum, b).items
      ensures it.index != items[k].index
    {
      PickMembers(items, b, it);
      var j :| 0 <= j < |b| && items[b[j]] == it;
      assert b[j] != k;
    }
  }

  /** Different increasing position lists give combinations with different member sets. */
  lemma ComboOfInjective(items: seq<Item>, sum: int, a: seq<nat>, b: seq<nat>)
    requires InRange(|items|, a) && InRange(|items|, b) && DistinctIndices(items)
    requires Increasing(a) && Increasing(b) && a != b
    ensures IndexSet(ComboOf(items, sum, a)) != IndexSet(ComboOf(items, sum, b))
  {
    if forall x :: x in a <==> x in b {
      IncreasingUnique(a, b);
    }
    var k :| (k in a && k !in b) || (k in b && k !in a);
    if k in a {
      IndexOutside(items, sum, a, b, k);
    } else {
      IndexOutside(items, sum, b, a, k);
    }
  }

  lemma PositionsLexSorted(entries: seq<Entry>, target: int, maxCount: int)
    ensures LexSorted(Positions(entries, target, maxCount))
  {
    var c := Candidates(entries, target);
    EnumLexSorted(c, Money.Abs(target), 0, 0, []);
  }

  /** No two returned combinations have the same member set. */
  lemma DistinctCombos(entries: seq<Entry>, target: int, maxCount: int, p: nat, q: nat)
    requires p < q < |Search(entries, target, maxCount).combos|
    ensures IndexSet(Search(entries, target, maxCount).combos[p])
         != IndexSet(Search(entries, target, maxCount).combos[q])
  {
    var c := Candidates(entries, target);
    var pos := Positions(entries, target, maxCount);
    FoundAt(entries, target, maxCount, p);
    FoundAt(entries, target, maxCount, q);
    PositionsLexSorted(entries, target, maxCount);
    assert LexLess(pos[p], pos[q]);
    LexLessIrreflexive(pos[p]);
    MembersOrdered(entries, target, maxCount, p);
    MembersOrdered(entries, target, maxCount, q);
    CandidatesCharacterised(entries, target);
    ComboOfInjective(c, Money.Abs(target), pos[p], pos[q]);
  }

  /**
   * The cap: never more than `maxCount` combinations (none when `maxCount`
   * is not positive), and `truncated` exactly when the count reached
   * `maxCount`; when it is not set, nothing the search would find was cut off.
   */
  lemma CapRespected(entries: seq<Entry>, target: int, maxCount: int)
    ensures var r := Search(entries, target, maxCount);
      var all := Enum(Candidates(entries, target), Money.Abs(target), 0, 0, []);
      && |r.combos| <= (if maxCount <= 0 then 0 else maxCount)
      && (r.truncated <==> |r.combos| >= maxCount)
      && (!r.truncated ==> r.combos == ToCombos(Candidates(entries, target), Money.Abs(target), all))
  {
  }

  /**
   * Completeness: when the result is not truncated, every choice of distinct
   * candidates whose cents add up to |target| is returned exactly once.
   */
  lemma CompleteWhenNotTruncated(entries: seq<Entry>, target: int, maxCount: int, choice: seq<nat>)
    requires !Search(entries, target, maxCount).truncated
    requires Increasing(choice) && InRange(|Candidates(entries, target)|, choice)
    requires SumAt(Candidates(entries, target), choice) == Money.Abs(target)
    ensures var combo := ComboOf(Candidates(entries, target), Money.Abs(target), choice);
      multiset(Search(entries, target, maxCount).combos)[combo] == 1
  {
    var c := Candidates(entries, target);
    var t := Money.Abs(target);
    var combos := Search(entries, target, maxCount).combos;
    var pos := Positions(entries, target, maxCount);
    CandidatesPositive(entries, target);
    EnumComplete(c, t, 0, 0, [], choice);
    assert [] + choice == choice;
    var r :| 0 <= r < |pos| && pos[r] == choice;
    assert combos[r] == ComboOf(c, t, choice);
    ComboOnce(entries, target, maxCount, r);
  }

  /** Each returned combination occurs exactly once in the result. */
  lemma ComboOnce(entries: seq<Entry>, target: int, maxCount: int, r: nat)
    requires r < |Search(entries, target, maxCount).combos|
    ensures var combos := Search(entries, target, maxCount).combos;
      multiset(combos)[combos[r]] == 1
  {
    var combos := Search(entries, target, maxCount).combos;
    forall q | 0 <= q < |combos| && q != r
      ensures combos[q] != combos[r]
    {
      if q < r {
        DistinctCombos(entries, target, maxCount, q, r);
      } else {
        DistinctCombos(entries, target, maxCount, r, q);
      }
    }
    OnlyOnce(combos, r);
  }

  lemma {:induction false} OnlyOnce<T>(s: seq<T>, r: nat)
    requires r < |s| && forall q :: 0 <= q < |s| && q != r ==> s[q] != s[r]
    ensures multiset(s)[s[r]] == 1
  {
    var x := s[r];
    assert s == s[..r] + [x] + s[r + 1..];
    assert x !in s[..r];
    assert x !in s[r + 1..];
  }

  /**
   * Discovery order: the returned position lists are in strictly increasing
   * lexicographic order, and every exact choice that was not returned comes
   * after all of them, so a truncated result holds the first `maxCount`.
   */
  lemma FoundFirst(entries: seq<Entry>, target: int, maxCount: int, choice: seq<nat>)
    requires Increasing(choice) && InRange(|Candidates(entries, target)|, choice)
    requires SumAt(Candidates(entries, target), choice) == Money.Abs(target)
    requires choice !in Positions(entries, target, maxCount)
    ensures LexSorted(Positions(entries, target, maxCount))
    ensures forall p :: 0 <= p < |Positions(entries, target, maxCount)| ==>
      LexLess(Positions(entries, target, maxCount)[p], choice)
  {
    CandidatesPositive(entries, target);
    FirstOfEnum(Candidates(entries, target), Money.Abs(target), maxCount, choice);
  }

  /** `FoundFirst` for any positive items. */
  lemma FirstOfEnum(c: seq<Item>, t: int, maxCount: int, choice: seq<nat>)
    requires forall k :: 0 <= k < |c| ==> c[k].cents > 0
    requires Increasing(choice) && InRange(|c|, choice) && SumAt(c, choice) == t
    requires choice !in Take(Enum(c, t, 0, 0, []), maxCount)
    ensures LexSorted(Take(Enum(c, t, 0, 0, []), maxCount))
    ensures forall p :: 0 <= p < |Take(Enum(c, t, 0, 0, []), maxCount)| ==>
      LexLess(Take(Enum(c, t, 0, 0, []), maxCount)[p], choice)
  {
    var all := Enum(c, t, 0, 0, []);
    var pos := Take(all, maxCount);
    EnumComplete(c, t, 0, 0, [], choice);
    assert [] + choice == choice;
    EnumLexSorted(c, t, 0, 0, []);
    var r :| 0 <= r < |all| && all[r] == choice;
    PrefixBefore(all, maxCount, r);
    TakeLexSorted(all, maxCount);
    forall p | 0 <= p < |pos|
      ensures LexLess(pos[p], choice)
    {
      assert pos[p] == all[p];
    }
  }

  /** An element not among the first `m` sits after all of them. */
  lemma PrefixBefore<T>(all: seq<T>, m: int, r: nat)
    requires r < |all| && all[r] !in Take(all, m)
    ensures |Take(all, m)| <= r
    ensures forall p :: 0 <= p < |Take(all, m)| ==> Take(all, m)[p] == all[p]
  {
    var pre := Take(all, m);
    assert forall p :: 0 <= p < |pre| ==> pre[p] == all[p];
    assert |pre| <= r;
  }

  lemma TakeLexSorted(all: seq<seq<nat>>, m: int)
    requires LexSorted(all)
    ensures LexSorted(Take(all, m))
  {
    var pre := Take(all, m);
    assert forall p :: 0 <= p < |pre| ==> pre[p] == all[p];
  }

  /** No entries (and a nonzero target, which the caller guarantees) give no combinations, not truncated. */
  lemma NoEntries(target: int, maxCount: int)
    requires target != 0 && maxCount >= 1
    ensures Search([], target, maxCount) == SearchResult([], false)
  {
    var c := Candidates([], target);
    assert Tagged([]) == [];
    assert c == [];
  }

  /** A zero target, which the caller never passes, would yield the single empty combination. */
  lemma ZeroTarget(entries: seq<Entry>, maxCount: int)
    requires maxCount >= 1
    ensures Search(entries, 0, maxCount) == SearchResult([Combo([], 0)], maxCount == 1)
  {
    var c := Candidates(entries, 0);
    assert Enum(c, 0, 0, 0, []) == [[]];
    assert Pick(c, []) == [];
  }

  /**
   * `truncated` is set when the count merely reaches `maxCount`: one entry
   * of 100 cents, target 100 and a cap of 1 report `truncated` although the
   * search found the only match there is.
   */
  lemma TruncatedWhenExactlyFull()
    ensures var entries := [Entry(0, 100, "1.00")];
      && Search(entries, 100, 1) == SearchResult([Combo([Item(0, 100)], 100)], true)
      && |Enum(Candidates(entries, 100), 100, 0, 0, [])| == 1
  {
    var entries := [Entry(0, 100, "1.00")];
    assert Tagged(entries) == [Item(0, 100)];
    assert Sort(ByCents, [Item(0, 100)]) == [Item(0, 100)];
    assert Useful([Item(0, 100)], 100) == [Item(0, 100)];
    var c := Candidates(entries, 100);
    assert c == [Item(0, 100)];
    assert EnumLoop(c, 100, 0, [], 1) == [];
    assert [] + [0] == [0];
    assert Enum(c, 100, 1, 100, [0]) == [[0]];
    assert EnumLoop(c, 100, 0, [], 0) == Enum(c, 100, 1, c[0].cents, [] + [0]) + EnumLoop(c, 100, 0, [], 1);
    assert Enum(c, 100, 0, 0, []) == [[0]];
    assert Pick(c, [0]) == [Item(0, 100)];
  }

  /**
   * The sign is not restored: one entry of -5.00 and a target of -5.00
   * give a combination whose member and sum read +5.00.
   */
  lemma NegativeSignLost()
    ensures var entries := [Entry(0, -500, "-5.00")];
      Search(entries, -500, 2) == SearchResult([Combo([Item(0, 500)], 500)], false)
  {
    var entries := [Entry(0, -500, "-5.00")];
    assert Tagged(entries) == [Item(0, -500)];
    assert Sort(ByCents, [Item(0, -500)]) == [Item(0, -500)];
    assert Normalised([Item(0, -500)], -500) == [Item(0, 500)];
    assert Useful([Item(0, 500)], 500) == [Item(0, 500)];
    assert Sort(ByCents, [Item(0, 500)]) == [Item(0, 500)];
    var c := Candidates(entries, -500);
    assert c == [Item(0, 500)];
    assert EnumLoop(c, 500, 0, [], 1) == [];
    assert [] + [0] == [0];
    assert Enum(c, 500, 1, 500, [0]) == [[0]];
    assert EnumLoop(c, 500, 0, [], 0) == Enum(c, 500, 1, c[0].cents, [] + [0]) + EnumLoop(c, 500, 0, [], 1);
    assert Enum(c, 500, 0, 0, []) == [[0]];
    assert Pick(c, [0]) == [Item(0, 500)];
  }

  /** The entries with every amount negated. */
  function NegEntries(entries: seq<Entry>): (r: seq<Entry>)
    ensures |r| == |entries|
  {
    seq(|entries|, k requires 0 <= k < |entries| => Entry(entries[k].index, -entries[k].cents, entries[k].text))
  }

  /** An item is a candidate for the negated entries and target iff it is one for the originals. */
  lemma NegCandidate(entries: seq<Entry>, t: int, it: Item)
    requires t > 0
    ensures IsCandidate(NegEntries(entries), -t, it) <==> IsCandidate(entries, t, it)
  {
  }

  /** Negating every entry and the target leaves the candidate list unchanged. */
  lemma NegCandidates(entries: seq<Entry>, t: int)
    requires t > 0
    ensures Candidates(NegEntries(entries), -t) == Candidates(entries, t)
  {
    var neg := NegEntries(entries);
    var a, b := Candidates(neg, -t), Candidates(entries, t);
    CandidatesCharacterised(entries, t);
    CandidatesCharacterised(neg, -t);
    forall it
      ensures it in a <==> it in b
    {
      NegCandidate(entries, t, it);
    }
    SameMembersUnique(ByCents, a, b);
  }

  /**
   * Sign symmetry: negating every entry and the target gives exactly the
   * same result, because the search runs in the sign-normalised domain.
   */
  lemma SignSymmetry(entries: seq<Entry>, t: int, maxCount: int)
    requires t > 0
    ensures Search(NegEntries(entries), -t, maxCount) == Search(entries, t, maxCount)
  {
    NegCandidates(entries, t);
  }
}
