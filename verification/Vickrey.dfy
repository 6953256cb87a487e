/**
 The allocation of scarce compute by sealed bids: the highest bids win a slot each, and every
 winner pays the highest losing bid.
 */
module Vickrey {
  import opened Sorting
  import Text

  datatype Bid = Bid(agent: string, roi: real)
  datatype Award = Award(agent: string, price: real)

  /** The sort key `(-roi, agent)`. */
  predicate Before(a: Bid, b: Bid) {
    a.roi > b.roi || (a.roi == b.roi && Text.Less(a.agent, b.agent))
  }

  function Eligible(bids: seq<Bid>): seq<Bid> {
    if bids == [] then []
    else (if bids[0].roi > 0.0 then [bids[0]] else []) + Eligible(bids[1..])
  }

  function Ranked(bids: seq<Bid>): seq<Bid> {
    Sort(Before, Eligible(bids))
  }

  /** How many slots are filled. */
  function Filled(bids: seq<Bid>, slots: int): nat {
    var n := |Ranked(bids)|;
    if slots < 0 then 0 else if slots < n then slots else n
  }

  /** The bid behind the last slot, 0 if there is none; not used when `slots` is negative. */
  function Clearing(bids: seq<Bid>, slots: int): real {
    if 0 <= slots < |Ranked(bids)| then Ranked(bids)[slots].roi else 0.0
  }

  function Min(a: real, b: real): real {
    if a <= b then a else b
  }

  function Allocate(bids: seq<Bid>, slots: int): (awards: seq<Award>)
    ensures |awards| == Filled(bids, slots)
  {
    seq(Filled(bids, slots), i requires 0 <= i < Filled(bids, slots) =>
      Award(Ranked(bids)[i].agent, Min(Ranked(bids)[i].roi, Clearing(bids, slots))))
  }

  // ----- the ranking -----

  ghost predicate Descending(s: seq<Bid>) {
    && (forall i :: 0 <= i < |s| ==> s[i].roi > 0.0)
    && (forall i, j :: 0 <= i <= j < |s| ==> s[i].roi >= s[j].roi)
  }

  lemma BeforeIsOrder()
    ensures StrictWeakOrder(Before)
  {
    forall a: Bid { Text.LessIsStrictTotal(a.agent, a.agent); }
    forall a: Bid, b: Bid, c: Bid | Before(a, b) && Before(b, c) ensures Before(a, c) {
      if a.roi == c.roi { Text.LessTransitive(a.agent, b.agent, c.agent); }
    }
    forall a: Bid, b: Bid, c: Bid | Before(a, c) ensures Before(a, b) || Before(b, c) {
      Text.LessIsStrictTotal(a.agent, b.agent);
      Text.LessIsStrictTotal(b.agent, c.agent);
    }
  }

  lemma {:induction false} EligibleArePositive(bids: seq<Bid>)
    ensures forall b :: b in Eligible(bids) <==> b in bids && b.roi > 0.0
  {
    if bids != [] { EligibleArePositive(bids[1..]); }
  }

  lemma RankedShape(bids: seq<Bid>)
    ensures Sorted(Before, Ranked(bids))
    ensures Descending(Ranked(bids))
  {
    hide Text.Less, Insert, Sort, Eligible;
    BeforeIsOrder();
    SortSorted(Before, Eligible(bids));
    EligibleArePositive(bids);
    SortPermutes(Before, Eligible(bids));
    var r := Ranked(bids);
    assert forall i, j :: 0 <= i < j < |r| ==> !Before(r[j], r[i]);
    assert forall i :: 0 <= i < |r| ==> r[i] in r;
  }

  /** All winners pay one price, no more than they bid, no less than any losing bid; a slot stays
      empty only when every positive bid has won. */
  lemma UniformPrice(bids: seq<Bid>, slots: int)
    ensures var awards := Allocate(bids, slots);
      && (forall i :: 0 <= i < |awards| ==>
            awards[i].price == Clearing(bids, slots) && 0.0 <= awards[i].price <= Ranked(bids)[i].roi)
      && (forall i :: |awards| <= i < |Ranked(bids)| && slots >= 0 ==> Ranked(bids)[i].roi <= Clearing(bids, slots))
      && (|awards| < slots ==> |awards| == |Eligible(bids)| && Clearing(bids, slots) == 0.0)
  {
    RankedShape(bids);
    SortPermutes(Before, Eligible(bids));
  }

  // ----- the winners are worth the most -----

  function Sum(s: seq<Bid>): real {
    if s == [] then 0.0 else s[0].roi + Sum(s[1..])
  }

  function Top(s: seq<Bid>, k: nat): seq<Bid> {
    if k <= |s| then s[..k] else s
  }

  /** The bids that a selection picks. */
  function Picked(bids: seq<Bid>, pick: seq<bool>): seq<Bid>
    requires |pick| == |bids|
  {
    if bids == [] then []
    else (if pick[0] then [bids[0]] else []) + Picked(bids[1..], pick[1..])
  }

  lemma {:induction false} TopGrows(s: seq<Bid>, k: nat)
    requires Descending(s)
    ensures Sum(Top(s, k + 1)) >= Sum(Top(s, k)) >= 0.0
    ensures Sum(Top(s, k + 1)) <= (if s == [] then 0.0 else s[0].roi) + Sum(Top(s, k))
  {
    if s != [] && k > 0 {
      TopGrows(s[1..], k - 1);
      assert Top(s, k)[1..] == Top(s[1..], k - 1);
      assert Top(s, k + 1)[1..] == Top(s[1..], k);
      if |s| > 1 { assert s[1..][0].roi <= s[0].roi; }
    } else if s != [] {
      assert Top(s, 1)[1..] == [];
    }
  }

  lemma SumCons(b: Bid, s: seq<Bid>, k: nat)
    ensures Sum(Top([b] + s, k + 1)) == b.roi + Sum(Top(s, k))
  {
    assert Top([b] + s, k + 1)[1..] == Top(s, k);
  }

  /** A bid put into a ranking displaces at most the last of the top bids. */
  lemma {:induction false} InsertTop(b: Bid, s: seq<Bid>, k: nat)
    requires Descending(s) && b.roi > 0.0
    ensures Sum(Top(Insert(Before, b, s), k + 1)) >= b.roi + Sum(Top(s, k))
    ensures Sum(Top(Insert(Before, b, s), k)) >= Sum(Top(s, k))
  {
    hide Insert, Sum, Top, Before;
    if s == [] || !Before(s[0], b) {
      InsertTopFront(b, s, k);
    } else {
      var h, t := s[0], s[1..];
      assert s == [h] + t;
      InsertTopBehind(b, h, t, k);
      if k > 0 {
        InsertTop(b, t, k - 1);
        SumCons(h, Insert(Before, b, t), k - 1);
        SumCons(h, t, k - 1);
      } else {
        TopZero(s);
        TopZero(t);
        TopZero(Insert(Before, b, s));
        TopZero(Insert(Before, b, t));
      }
    }
  }

  lemma InsertTopFront(b: Bid, s: seq<Bid>, k: nat)
    requires Descending(s) && b.roi > 0.0 && (s == [] || !Before(s[0], b))
    ensures Sum(Top(Insert(Before, b, s), k + 1)) >= b.roi + Sum(Top(s, k))
    ensures Sum(Top(Insert(Before, b, s), k)) >= Sum(Top(s, k))
  {
    assert s != [] ==> b.roi >= s[0].roi;
    hide Before;
    assert Insert(Before, b, s) == [b] + s;
    SumCons(b, s, k);
    if k > 0 {
      SumCons(b, s, k - 1);
      TopGrows(s, k - 1);
    } else {
      TopZero(s);
      TopZero([b] + s);
    }
  }

  lemma InsertTopBehind(b: Bid, h: Bid, t: seq<Bid>, k: nat)
    requires Before(h, b)
    ensures Insert(Before, b, [h] + t) == [h] + Insert(Before, b, t) && h.roi >= b.roi
    ensures Sum(Top(Insert(Before, b, [h] + t), k + 1)) == h.roi + Sum(Top(Insert(Before, b, t), k))
  {
    InsertBehind(Before, b, h, t);
    SumCons(h, Insert(Before, b, t), k);
  }

  lemma TopZero(s: seq<Bid>)
    ensures Sum(Top(s, 0)) == 0.0
  {
  }

  /** No selection of at most `slots` bids is worth more than the winners, ties included. */
  lemma {:induction false} WinnersAreOptimal(bids: seq<Bid>, pick: seq<bool>, slots: nat)
    requires |pick| == |bids| && |Picked(bids, pick)| <= slots
    ensures Sum(Top(Ranked(bids), slots)) >= Sum(Picked(bids, pick))
  {
    hide *;
    PickedCons(bids, pick);
    if bids == [] {
      RankedShape(bids);
      TopGrows(Ranked(bids), slots);
    } else {
      var b, rest := bids[0], bids[1..];
      RankedShape(rest);
      RankedCons(bids);
      if pick[0] {
        WinnersAreOptimal(rest, pick[1..], slots - 1);
        TopGrows(Ranked(rest), slots - 1);
        if b.roi > 0.0 { InsertTop(b, Ranked(rest), slots - 1); }
      } else {
        WinnersAreOptimal(rest, pick[1..], slots);
        if b.roi > 0.0 { InsertTop(b, Ranked(rest), slots); }
      }
    }
  }

  lemma PickedCons(bids: seq<Bid>, pick: seq<bool>)
    requires |pick| == |bids|
    ensures bids == [] ==> Sum(Picked(bids, pick)) == 0.0
    ensures bids != [] ==> var p := Picked(bids[1..], pick[1..]);
      && |Picked(bids, pick)| == |p| + (if pick[0] then 1 else 0)
      && Sum(Picked(bids, pick)) == Sum(p) + (if pick[0] then bids[0].roi else 0.0)
  {
    if bids != [] {
      var p := Picked(bids[1..], pick[1..]);
      if pick[0] {
        assert Picked(bids, pick) == [bids[0]] + p && ([bids[0]] + p)[1..] == p;
      } else {
        assert Picked(bids, pick) == p;
      }
    }
  }

  lemma RankedCons(bids: seq<Bid>)
    requires bids != []
    ensures Ranked(bids) == if bids[0].roi > 0.0 then Insert(Before, bids[0], Ranked(bids[1..]))
                            else Ranked(bids[1..])
  {
    hide Before;
    if bids[0].roi > 0.0 {
      assert Eligible(bids)[1..] == Eligible(bids[1..]);
    } else {
      assert Eligible(bids) == Eligible(bids[1..]);
    }
  }

  // ----- truthfulness -----

  ghost predicate OneBidEach(bids: seq<Bid>) {
    forall i, j :: 0 <= i < j < |bids| ==> bids[i].agent != bids[j].agent
  }

  /** `Allocate` gives a slot to this agent. */
  ghost predicate Wins(bids: seq<Bid>, slots: int, agent: string) {
    exists i :: 0 <= i < |Allocate(bids, slots)| && Allocate(bids, slots)[i].agent == agent
  }

  /** What an agent that values a slot at `value` gains: its value less the price it is charged. */
  ghost function Utility(bids: seq<Bid>, slots: int, agent: string, value: real): real {
    if Wins(bids, slots, agent) then
      var i :| 0 <= i < |Allocate(bids, slots)| && Allocate(bids, slots)[i].agent == agent;
      value - Allocate(bids, slots)[i].price
    else 0.0
  }

  function Others(bids: seq<Bid>, i: nat): seq<Bid>
    requires i < |bids|
  {
    bids[..i] + bids[i + 1..]
  }

  /** The price an agent faces, from the other bids alone: the last bid it would have to beat. */
  function Threshold(others: seq<Bid>, slots: int): real {
    if 1 <= slots <= |Ranked(others)| then Ranked(others)[slots - 1].roi else 0.0
  }

  lemma EligibleHead(s: seq<Bid>)
    requires s != []
    ensures Eligible(s) == (if s[0].roi > 0.0 then [s[0]] else []) + Eligible(s[1..])
  {
  }

  lemma {:induction false} EligibleAppend(a: seq<Bid>, b: seq<Bid>)
    ensures Eligible(a + b) == Eligible(a) + Eligible(b)
  {
    hide Eligible;
    if a == [] {
      assert a + b == b;
      EligibleNil();
    } else {
      var t := a[1..];
      assert (a + b)[1..] == t + b && (a + b)[0] == a[0];
      EligibleHead(a);
      EligibleHead(a + b);
      EligibleAppend(t, b);
      Text.ConcatAssociates(if a[0].roi > 0.0 then [a[0]] else [], Eligible(t), Eligible(b));
    }
  }

  lemma EligibleNil()
    ensures Eligible([]) == []
  {
  }

  /** The ranking with a positive bid is the ranking of the others with that bid inserted. */
  lemma RankedPull(bids: seq<Bid>, i: nat)
    requires i < |bids| && OneBidEach(bids)
    ensures Ranked(bids) == if bids[i].roi > 0.0 then Insert(Before, bids[i], Ranked(Others(bids, i)))
                            else Ranked(Others(bids, i))
    ensures forall b :: b in Ranked(Others(bids, i)) ==> b.agent != bids[i].agent
  {
    hide Text.Less, Insert, Sort;
    var b, others := bids[i], Eligible(Others(bids, i));
    OthersDiffer(bids, i);
    var k := EligiblePull(bids, i);
    if b.roi > 0.0 {
      var s := Eligible(bids);
      forall j | 0 <= j < |s| && j != k ensures Before(s[k], s[j]) || Before(s[j], s[k]) {
        assert s[j] == others[if j < k then j else j - 1];
        Text.LessIsStrictTotal(s[j].agent, b.agent);
      }
      BeforeIsOrder();
      SortPull(Before, s, k);
    }
  }

  /** Removing one bid removes it from the eligible ones, where it stands at index `k`. */
  lemma EligiblePull(bids: seq<Bid>, i: nat) returns (k: nat)
    requires i < |bids|
    ensures var s, others := Eligible(bids), Eligible(Others(bids, i));
      if bids[i].roi > 0.0 then
        k < |s| && s[k] == bids[i] && s[..k] + s[k + 1..] == others
      else s == others
  {
    var front, back, b := bids[..i], bids[i + 1..], bids[i];
    assert bids == front + ([b] + back);
    EligibleAppend(front, [b] + back);
    EligibleAppend(front, back);
    assert ([b] + back)[1..] == back;
    k := |Eligible(front)|;
    if b.roi > 0.0 {
      assert Eligible(bids) == Eligible(front) + ([b] + Eligible(back));
    }
  }

  lemma OthersDiffer(bids: seq<Bid>, i: nat)
    requires i < |bids| && OneBidEach(bids)
    ensures forall b :: b in Eligible(Others(bids, i)) ==> b.agent != bids[i].agent
    ensures forall b :: b in Ranked(Others(bids, i)) ==> b in Eligible(Others(bids, i))
  {
    EligibleArePositive(Others(bids, i));
    SortPermutes(Before, Eligible(Others(bids, i)));
  }

  /** Where a single bid of an agent comes to stand, and what it means. */
  lemma PlaceOfOne(bids: seq<Bid>, i: nat, slots: nat) returns (p: nat)
    requires i < |bids| && OneBidEach(bids) && bids[i].roi > 0.0
    ensures var b, others, r := bids[i], Ranked(Others(bids, i)), Ranked(bids);
      && p <= |others| && |r| == |others| + 1 && r[p] == b
      && (forall q :: 0 <= q < |r| && q != p ==> r[q].agent != b.agent)
      && (0 < slots <= |others| ==> if p < slots then b.roi >= others[slots - 1].roi == r[slots].roi
                                    else b.roi <= others[slots - 1].roi)
  {
    hide Text.Less, Ranked, Others, Insert;
    var b, others, r := bids[i], Ranked(Others(bids, i)), Ranked(bids);
    RankedPull(bids, i);
    RankedShape(bids);
    p := InsertAt(Before, b, others);
    assert r == others[..p] + [b] + others[p..];
    forall q | 0 <= q < |r| && q != p ensures r[q].agent != b.agent {
      assert r[q] == others[if q < p then q else q - 1];
    }
    if 0 < slots <= |others| {
      if p < slots {
        assert r[slots] == others[slots - 1] && r[p].roi >= r[slots].roi;
      } else {
        assert Before(others[slots - 1], b);
      }
    }
  }

  /** Winning is worth the value less the threshold, which does not depend on the agent's own bid;
      an agent that wins bid at least the threshold and one that loses at most the threshold. */
  lemma OutcomeOfBid(bids: seq<Bid>, i: nat, slots: int, value: real)
    requires i < |bids| && OneBidEach(bids)
    ensures var t := Threshold(Others(bids, i), slots);
      && t >= 0.0
      && (Wins(bids, slots, bids[i].agent) ==>
            slots > 0 && bids[i].roi > 0.0 && bids[i].roi >= t
            && Utility(bids, slots, bids[i].agent, value) == value - t)
      && (!Wins(bids, slots, bids[i].agent) && slots > 0 && bids[i].roi > 0.0 ==> bids[i].roi <= t)
  {
    hide Text.Less, Ranked, Others, Insert, Eligible;
    RankedShape(Others(bids, i));
    if bids[i].roi > 0.0 && slots > 0 {
      var p := PlaceOfOne(bids, i, slots);
      if p < slots { assert Allocate(bids, slots)[p].agent == bids[i].agent; }
    } else {
      RankedPull(bids, i);
    }
  }

  /** Bidding the true value is a best reply to every profile of other bids. */
  lemma TruthIsDominant(bids: seq<Bid>, i: nat, slots: int, value: real)
    requires i < |bids| && OneBidEach(bids)
    ensures var a := bids[i].agent;
      Utility(bids[i := Bid(a, value)], slots, a, value) >= Utility(bids, slots, a, value)
  {
    var truthful := bids[i := Bid(bids[i].agent, value)];
    assert Others(truthful, i) == Others(bids, i);
    OutcomeOfBid(bids, i, slots, value);
    OutcomeOfBid(truthful, i, slots, value);
  }

  /** The price a winner is charged does not depend on its own bid. */
  lemma PriceIgnoresOwnBid(bids: seq<Bid>, i: nat, slots: int, roi: real, value: real)
    requires i < |bids| && OneBidEach(bids)
    requires Wins(bids, slots, bids[i].agent) && Wins(bids[i := Bid(bids[i].agent, roi)], slots, bids[i].agent)
    ensures var a := bids[i].agent;
      Utility(bids[i := Bid(a, roi)], slots, a, value) == Utility(bids, slots, a, value)
  {
    var other := bids[i := Bid(bids[i].agent, roi)];
    assert Others(other, i) == Others(bids, i);
    OutcomeOfBid(bids, i, slots, value);
    OutcomeOfBid(other, i, slots, value);
  }

  /** What an agent gains that values its first slot at `worth[0]`, its second at `worth[1]`, and so on: the
      worth of the slots it is awarded, less their prices. */
  function Gain(awards: seq<Award>, agent: string, worth: seq<real>): real {
    if awards == [] then 0.0
    else if awards[0].agent != agent then Gain(awards[1..], agent, worth)
    else if worth == [] then Gain(awards[1..], agent, []) - awards[0].price
    else worth[0] - awards[0].price + Gain(awards[1..], agent, worth[1..])
  }

  // ----- two bids of one agent -----

  lemma {:induction false} GainNone(awards: seq<Award>, agent: string, worth: seq<real>)
    requires forall k :: 0 <= k < |awards| ==> awards[k].agent != agent
    ensures Gain(awards, agent, worth) == 0.0
  {
    if awards != [] { GainNone(awards[1..], agent, worth); }
  }

  lemma {:induction false} GainOne(awards: seq<Award>, agent: string, worth: seq<real>, i: nat)
    requires i < |awards| && worth != []
    requires forall k :: 0 <= k < |awards| ==> (awards[k].agent == agent <==> k == i)
    ensures Gain(awards, agent, worth) == worth[0] - awards[i].price
  {
    if i == 0 {
      GainNone(awards[1..], agent, worth[1..]);
    } else {
      GainOne(awards[1..], agent, worth, i - 1);
    }
  }

  lemma {:induction false} GainTwo(awards: seq<Award>, agent: string, worth: seq<real>, i: nat, j: nat)
    requires i < j < |awards| && |worth| >= 2
    requires forall k :: 0 <= k < |awards| ==> (awards[k].agent == agent <==> k == i || k == j)
    ensures Gain(awards, agent, worth) == worth[0] - awards[i].price + worth[1] - awards[j].price
  {
    if i == 0 {
      GainOne(awards[1..], agent, worth[1..], j - 1);
    } else {
      GainTwo(awards[1..], agent, worth, i - 1, j - 1);
    }
  }

  lemma {:induction false} EligibleContents(s: seq<Bid>, b: Bid)
    ensures multiset(Eligible(s))[b] == if b.roi > 0.0 then multiset(s)[b] else 0
  {
    if s != [] {
      EligibleContents(s[1..], b);
      assert s == [s[0]] + s[1..];
    }
  }

  lemma SameFirst(s: seq<Bid>, t: seq<Bid>)
    requires Sorted(Before, s) && Sorted(Before, t) && s != [] && t != [] && t[0] in s && s[0] in t
    ensures s[0] == t[0]
  {
    hide Text.Less;
    assert s[0] == t[0] || !Before(t[0], s[0]);
    assert s[0] == t[0] || !Before(s[0], t[0]);
    Text.LessIsStrictTotal(s[0].agent, t[0].agent);
  }

  lemma SortedTail(s: seq<Bid>)
    requires Sorted(Before, s) && s != []
    ensures Sorted(Before, s[1..])
    ensures multiset(s[1..]) == multiset(s) - multiset{s[0]}
  {
    assert s == [s[0]] + s[1..];
  }

  /** A ranking is determined by the bids in it. */
  lemma {:induction false} RankingIsUnique(s: seq<Bid>, t: seq<Bid>)
    requires Sorted(Before, s) && Sorted(Before, t) && multiset(s) == multiset(t)
    ensures s == t
  {
    hide Before, Sorted;
    assert |s| == |multiset(s)| == |multiset(t)| == |t|;
    if s != [] {
      assert s[0] in multiset(t) && t[0] in multiset(s);
      SameFirst(s, t);
      SortedTail(s);
      SortedTail(t);
      RankingIsUnique(s[1..], t[1..]);
      assert s == [s[0]] + s[1..] && t == [t[0]] + t[1..];
    }
  }

  /** The order in which bids arrive does not matter. */
  lemma RankedByContents(s: seq<Bid>, t: seq<Bid>)
    requires multiset(s) == multiset(t)
    ensures Ranked(s) == Ranked(t)
  {
    hide Sort, Insert, Eligible, Before;
    forall b ensures multiset(Eligible(s))[b] == multiset(Eligible(t))[b] {
      EligibleContents(s, b);
      EligibleContents(t, b);
    }
    assert multiset(Eligible(s)) == multiset(Eligible(t));
    SortPermutes(Before, Eligible(s));
    SortPermutes(Before, Eligible(t));
    RankedShape(s);
    RankedShape(t);
    RankingIsUnique(Ranked(s), Ranked(t));
  }

  ghost predicate Without(s: seq<Bid>, agent: string) {
    forall b :: b in s ==> b.agent != agent
  }

  lemma RankedWithout(others: seq<Bid>, agent: string)
    requires Without(others, agent)
    ensures Without(Ranked(others), agent)
  {
    hide Sort, Before, Eligible;
    SortPermutes(Before, Eligible(others));
    EligibleArePositive(others);
  }

  /** With one bid the agent pays the threshold of the others. */
  lemma GainOfOneBid(bids: seq<Bid>, a: string, first: real, second: real, others: seq<Bid>, slots: nat)
    requires first > 0.0 && slots >= 1 && Without(others, a)
    requires Ranked(bids) == Insert(Before, Bid(a, first), Ranked(others))
    ensures var gain, t := Gain(Allocate(bids, slots), a, [first, second]), Threshold(others, slots);
      if first > t then gain == first - t else gain == 0.0
  {
    hide Ranked, Insert, Sorted, Gain, Min;
    var o, r, awards := Ranked(others), Ranked(bids), Allocate(bids, slots);
    RankedWithout(others, a);
    RankedShape(others);
    UniformPrice(bids, slots);
    var q := InsertAt(Before, Bid(a, first), o);
    assert forall k :: 0 <= k < |r| ==> r[k] == if k < q then o[k] else if k == q then Bid(a, first) else o[k - 1];
    if q < slots {
      GainOne(awards, a, [first, second], q);
      if slots <= |o| { assert o[q].roi >= o[slots - 1].roi; }
    } else {
      GainNone(awards, a, [first, second]);
    }
  }

  ghost predicate Placed(r: seq<Bid>, o: seq<Bid>, x: Bid, y: Bid, q: nat, p: nat) {
    q <= p <= |o| && r == o[..q] + [x] + o[q..p] + [y] + o[p..]
  }

  /** Where two bids of one agent come to stand in a ranking. */
  lemma PlacesOfTwo(a: string, first: real, second: real, o: seq<Bid>) returns (q: nat, p: nat)
    requires first >= second
    ensures q <= p <= |o|
    ensures q > 0 ==> o[q - 1].roi >= first
    ensures p > 0 ==> o[p - 1].roi >= second
    ensures q < |o| ==> o[q].roi <= first
    ensures p < |o| ==> o[p].roi <= second
    ensures Placed(Insert(Before, Bid(a, first), Insert(Before, Bid(a, second), o)), o, Bid(a, first), Bid(a, second), q, p)
  {
    hide Insert, Text.Less;
    p := InsertAt(Before, Bid(a, second), o);
    var m := Insert(Before, Bid(a, second), o);
    q := InsertAt(Before, Bid(a, first), m);
    Text.LessIsStrictTotal(a, a);
    assert m[p] == Bid(a, second) && !Before(m[p], Bid(a, first));
    assert q <= p;
    assert m[..q] == o[..q] && m[q..] == o[q..p] + [Bid(a, second)] + o[p..];
    assert q > 0 ==> m[q - 1] == o[q - 1];
    assert q < p ==> m[q] == o[q];
  }

  lemma PlacedAt(r: seq<Bid>, o: seq<Bid>, x: Bid, y: Bid, q: nat, p: nat, k: nat)
    requires Placed(r, o, x, y, q, p) && k < |r|
    ensures |r| == |o| + 2
    ensures r[k] == if k < q then o[k] else if k == q then x
                    else if k <= p then o[k - 1] else if k == p + 1 then y else o[k - 2]
  {
  }

  lemma GainByPlaces(bids: seq<Bid>, a: string, first: real, second: real, o: seq<Bid>, slots: nat, q: nat, p: nat)
    requires Placed(Ranked(bids), o, Bid(a, first), Bid(a, second), q, p) && Without(o, a)
    ensures var gain, price := Gain(Allocate(bids, slots), a, [first, second]), Clearing(bids, slots);
      gain == if p + 1 < slots then first + second - 2.0 * price else if q < slots then first - price else 0.0
  {
    hide Ranked, Gain, Min, Clearing;
    var r, awards := Ranked(bids), Allocate(bids, slots);
    UniformPrice(bids, slots);
    forall k | 0 <= k < |awards| ensures awards[k].agent == a <==> k == q || k == p + 1 {
      PlacedAt(r, o, Bid(a, first), Bid(a, second), q, p, k);
      assert awards[k].agent == r[k].agent;
    }
    if p + 1 < slots {
      GainTwo(awards, a, [first, second], q, p + 1);
    } else if q < slots {
      GainOne(awards, a, [first, second], q);
    } else {
      GainNone(awards, a, [first, second]);
    }
  }

  /** With two bids, what it gains by what it pays for. */
  lemma GainOfTwoBids(bids: seq<Bid>, a: string, first: real, second: real, others: seq<Bid>, slots: nat)
    requires first >= second > 0.0 && slots >= 2 && Without(others, a)
    requires Ranked(bids) == Insert(Before, Bid(a, first), Insert(Before, Bid(a, second), Ranked(others)))
    ensures var gain := Gain(Allocate(bids, slots), a, [first, second]);
      var t1, t2 := Threshold(others, slots), Threshold(others, slots - 1);
      && t2 >= t1 >= 0.0
      && gain == if second > t2 then first + second - 2.0 * t2
                 else if first > t1 then first - (if second > t1 then second else t1)
                 else 0.0
  {
    hide Ranked, Insert, Sorted, Gain, Before, Text.Less, Allocate;
    var o, r := Ranked(others), Ranked(bids);
    RankedWithout(others, a);
    RankedShape(others);
    var q, p := PlacesOfTwo(a, first, second, o);
    GainByPlaces(bids, a, first, second, o, slots, q, p);
    assert |r| == |o| + 2;
    if slots < |r| { PlacedAt(r, o, Bid(a, first), Bid(a, second), q, p, slots); }
  }

  /** One bid per agent is needed for truthfulness.  An agent that bids for two slots what they are worth to it,
      among any other bids, gains by withholding the second bid exactly when it would win the first slot and the
      second bid is above the price that is left when it is withheld, but not by as much as would pay for what
      it adds to the price of both. */
  lemma WithholdingPaysIff(honest: seq<Bid>, shaded: seq<Bid>, a: string, first: real, second: real, others: seq<Bid>, slots: nat)
    requires first >= second > 0.0 && slots >= 2 && Without(others, a)
    requires multiset(honest) == multiset([Bid(a, first), Bid(a, second)] + others)
    requires multiset(shaded) == multiset([Bid(a, first), Bid(a, 0.0)] + others)
    ensures var t1, t2 := Threshold(others, slots), Threshold(others, slots - 1);
      (Gain(Allocate(shaded, slots), a, [first, second]) > Gain(Allocate(honest, slots), a, [first, second])
       <==> first > t1 && t1 < second < 2.0 * t2 - t1)
  {
    hide Ranked, Insert, Gain, Allocate, Before, Threshold;
    RankedOfPair(honest, Bid(a, first), Bid(a, second), others);
    RankedOfPair(shaded, Bid(a, first), Bid(a, 0.0), others);
    GainOfTwoBids(honest, a, first, second, others, slots);
    GainOfOneBid(shaded, a, first, second, others, slots);
  }

  lemma RankedOfPair(bids: seq<Bid>, x: Bid, y: Bid, others: seq<Bid>)
    requires x.roi > 0.0 && multiset(bids) == multiset([x, y] + others)
    ensures Ranked(bids) == Insert(Before, x, if y.roi > 0.0 then Insert(Before, y, Ranked(others)) else Ranked(others))
  {
    hide Ranked, Insert, Before;
    var pair, rest := [x, y] + others, [y] + others;
    RankedByContents(bids, pair);
    assert pair[1..] == rest && rest[1..] == others && pair[0] == x && rest[0] == y;
    RankedCons(pair);
    RankedCons(rest);
  }
}
