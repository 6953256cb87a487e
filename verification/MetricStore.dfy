/**
 The metrics of A/B tests: a dictionary of lists that grows with every record and is collected now and
 then, first by age and then, when it is still too large, by dropping the oldest records of all keys.
 */
module MetricStore {
  import opened Text
  import opened Sorting

  datatype Record = Record(test: string, variant: string, metric: string, value: real, at: real)

  /** TTL in seconds and MAX_METRICS_ENTRIES. */
  datatype Limits = Limits(ttl: int, maxEntries: nat)

  const HEADROOM := 1000
  const PERIOD := 60.0

  // ----- keys -----

  function Key(r: Record): string {
    r.test + ":" + r.variant + ":" + r.metric
  }

  /** Where the first colon is, or the length of the text. */
  function Colon(s: string): (n: nat)
    ensures n <= |s| && ':' !in s[..n] && (n < |s| ==> s[n] == ':')
  {
    if s == "" || s[0] == ':' then 0
    else
      var n := Colon(s[1..]);
      assert s[..n + 1] == [s[0]] + s[1..][..n];
      n + 1
  }

  /** The parts in front of and behind the first colon, "" behind if there is none. */
  function Cut(s: string): (string, string) {
    var n := Colon(s);
    (s[..n], if n < |s| then s[n + 1..] else "")
  }

  /** `key.split(":", 2)` of a key. */
  function Parts(key: string): (string, string, string) {
    var (test, rest) := Cut(key);
    var (variant, metric) := Cut(rest);
    (test, variant, metric)
  }

  lemma CutAtColon(a: string, b: string)
    ensures ':' !in a ==> Cut(a + ":" + b) == (a, b)
    ensures ':' in a ==> Cut(a + ":" + b).0 != a
  {
    hide Colon;
    var s := a + ":" + b;
    var n := Colon(s);
    assert s[|a|] == ':' && s[..|a|] == a && s[|a| + 1..] == b;
    if n < |a| { assert a[n] == s[n] == ':'; }
    ColonAtMost(s, |a|);
  }

  lemma {:induction false} ColonAtMost(s: string, i: nat)
    requires i < |s| && s[i] == ':'
    ensures Colon(s) <= i
  {
    if i > 0 { ColonAtMost(s[1..], i - 1); }
  }

  /** A record is found again under its own names exactly when neither the test nor the variant has a
      colon in its name. */
  lemma FoundAgainIff(r: Record)
    ensures Parts(Key(r)) == (r.test, r.variant, r.metric) <==> ':' !in r.test && ':' !in r.variant
  {
    hide Cut;
    var rest := r.variant + ":" + r.metric;
    CutAtColon(r.test, rest);
    CutAtColon(r.variant, r.metric);
    assert Key(r) == r.test + ":" + rest;
  }

  // ----- the dictionary -----

  type Bins = map<string, seq<Record>>

  function Bin(bins: Bins, k: string): seq<Record> {
    if k in bins then bins[k] else []
  }

  /** All records, in the order of the keys. */
  function Flat(keys: seq<string>, bins: Bins): seq<Record> {
    if keys == [] then [] else Flat(keys[..|keys| - 1], bins) + Bin(bins, keys[|keys| - 1])
  }

  ghost predicate WellBinned(keys: seq<string>, bins: Bins) {
    && (forall i, j :: 0 <= i < j < |keys| ==> keys[i] != keys[j])
    && (forall k :: k in keys <==> k in bins)
    && (forall k, r :: k in bins && r in bins[k] ==> Key(r) == k)
  }

  predicate NoneEmpty(bins: Bins) {
    forall k :: k in bins ==> bins[k] != []
  }

  function Unexpired(rs: seq<Record>, cutoff: real): seq<Record> {
    if rs == [] then []
    else Unexpired(rs[..|rs| - 1], cutoff) + (if rs[|rs| - 1].at > cutoff then [rs[|rs| - 1]] else [])
  }

  lemma {:induction false} UnexpiredConcat(a: seq<Record>, b: seq<Record>, cutoff: real)
    ensures Unexpired(a + b, cutoff) == Unexpired(a, cutoff) + Unexpired(b, cutoff)
  {
    if b == [] {
      assert a + b == a;
    } else {
      assert (a + b)[..|a + b| - 1] == a + b[..|b| - 1];
      UnexpiredConcat(a, b[..|b| - 1], cutoff);
    }
  }

  lemma {:induction false} UnexpiredHolds(rs: seq<Record>, cutoff: real, r: Record)
    ensures r in Unexpired(rs, cutoff) <==> r in rs && r.at > cutoff
  {
    if rs != [] {
      UnexpiredHolds(rs[..|rs| - 1], cutoff, r);
      assert rs == rs[..|rs| - 1] + [rs[|rs| - 1]];
    }
  }

  /** A bin that no key names does not matter. */
  lemma {:induction false} FlatFrame(keys: seq<string>, bins: Bins, k: string, rs: seq<Record>)
    requires k !in keys
    ensures Flat(keys, bins[k := rs]) == Flat(keys, bins)
  {
    if keys != [] {
      assert keys[|keys| - 1] in keys;
      FlatFrame(keys[..|keys| - 1], bins, k, rs);
    }
  }

  lemma FlatLast(keys: seq<string>, bins: Bins, k: string)
    ensures Flat(keys + [k], bins) == Flat(keys, bins) + Bin(bins, k)
  {
    assert (keys + [k])[..|keys|] == keys;
  }

  lemma BinOther(bins: Bins, k: string, rs: seq<Record>, other: string)
    ensures Bin(bins[k := rs], other) == if other == k then rs else Bin(bins, other)
  {
  }

  /** One more record in a bin is one more record. */
  lemma {:induction false} FlatGrows(keys: seq<string>, bins: Bins, k: string, r: Record)
    requires k in keys && forall i, j :: 0 <= i < j < |keys| ==> keys[i] != keys[j]
    ensures multiset(Flat(keys, bins[k := Bin(bins, k) + [r]])) == multiset(Flat(keys, bins)) + multiset{r}
  {
    hide Flat, Bin;
    var last := |keys| - 1;
    var front, more := keys[..last], bins[k := Bin(bins, k) + [r]];
    assert keys == front + [keys[last]];
    FlatLast(front, bins, keys[last]);
    FlatLast(front, more, keys[last]);
    BinOther(bins, k, Bin(bins, k) + [r], keys[last]);
    if keys[last] == k {
      assert k !in front;
      FlatFrame(front, bins, k, Bin(bins, k) + [r]);
    } else {
      FlatGrows(front, bins, k, r);
    }
  }

  /** A new key at the end, with its records. */
  lemma AddBin(keys: seq<string>, bins: Bins, k: string, rs: seq<Record>)
    requires WellBinned(keys, bins) && k !in keys && forall r :: r in rs ==> Key(r) == k
    ensures WellBinned(keys + [k], bins[k := rs])
    ensures Flat(keys + [k], bins[k := rs]) == Flat(keys, bins) + rs
    ensures NoneEmpty(bins) && rs != [] ==> NoneEmpty(bins[k := rs])
  {
    hide Key;
    FlatLast(keys, bins[k := rs], k);
    FlatFrame(keys, bins, k, rs);
  }

  /** One more record in a bin. */
  lemma AddRecord(keys: seq<string>, bins: Bins, r: Record)
    requires WellBinned(keys, bins) && Key(r) in keys
    ensures Key(r) in bins
    ensures var more := bins[Key(r) := bins[Key(r)] + [r]];
      && WellBinned(keys, more) && (NoneEmpty(bins) ==> NoneEmpty(more))
      && multiset(Flat(keys, more)) == multiset(Flat(keys, bins)) + multiset{r}
  {
    hide Key, Flat;
    FlatGrows(keys, bins, Key(r), r);
  }

  lemma BinOf(keys: seq<string>, bins: Bins, i: nat)
    requires WellBinned(keys, bins) && i < |keys|
    ensures keys[i] in bins && keys[i] !in keys[..i]
    ensures forall r :: r in bins[keys[i]] ==> Key(r) == keys[i]
    ensures Flat(keys[..i + 1], bins) == Flat(keys[..i], bins) + bins[keys[i]]
  {
    hide Key;
    assert keys[..i + 1] == keys[..i] + [keys[i]];
    FlatLast(keys[..i], bins, keys[i]);
  }

  lemma SameKeys(keys: seq<string>, bins: Bins)
    requires WellBinned(keys, bins)
    ensures forall k :: k in keys <==> k in bins
  {
  }

  lemma NoBins()
    ensures WellBinned([], map[]) && NoneEmpty(map[]) && Flat([], map[]) == []
  {
  }

  // ----- eviction -----

  predicate Older(a: Record, b: Record) {
    a.at < b.at
  }

  lemma OlderIsOrder()
    ensures StrictWeakOrder(Older)
  {
  }

  /** How many of `total` records stay: all of them within the limit, and otherwise a thousand less than the limit. */
  function Staying(lim: Limits, total: nat): (n: nat)
    ensures n <= lim.maxEntries && n <= total
  {
    if total <= lim.maxEntries then total else if lim.maxEntries >= 1000 then lim.maxEntries - 1000 else 0
  }

  lemma ExcessLeaves(lim: Limits, total: nat)
    ensures total - Excess(lim, total) == Staying(lim, total)
  {
  }

  /** How many of `total` records are dropped. */
  function Excess(lim: Limits, total: nat): (n: nat)
    ensures n <= total && (n == 0 <==> total <= lim.maxEntries)
    ensures total - n <= lim.maxEntries
  {
    if total <= lim.maxEntries then 0
    else if total - lim.maxEntries + HEADROOM <= total then total - lim.maxEntries + HEADROOM
    else total
  }

  /** Each key once, in the order in which the records name them first. */
  method KeysOf(rs: seq<Record>) returns (keys: seq<string>, bins: Bins)
    ensures WellBinned(keys, bins) && Flat(keys, bins) == []
    ensures forall r :: r in rs ==> Key(r) in keys
  {
    hide Key, Flat, WellBinned, NoneEmpty;
    NoBins();
    keys, bins := [], map[];
    for i := 0 to |rs|
      invariant WellBinned(keys, bins) && Flat(keys, bins) == []
      invariant forall j :: 0 <= j < i ==> Key(rs[j]) in keys
    {
      var k := Key(rs[i]);
      SameKeys(keys, bins);
      if k !in bins {
        AddBin(keys, bins, k, []);
        keys, bins := keys + [k], bins[k := []];
      }
    }
  }

  method WithoutEmpty(keys: seq<string>, bins: Bins) returns (ks: seq<string>, bs: Bins)
    requires WellBinned(keys, bins)
    ensures WellBinned(ks, bs) && NoneEmpty(bs) && Flat(ks, bs) == Flat(keys, bins)
  {
    hide Key, Flat, WellBinned, NoneEmpty;
    NoBins();
    FlatNothing(bins);
    ks, bs := [], map[];
    for i := 0 to |keys|
      invariant WellBinned(ks, bs) && NoneEmpty(bs) && Flat(ks, bs) == Flat(keys[..i], bins)
      invariant forall k :: k in ks ==> k in keys[..i]
    {
      var k := keys[i];
      BinOf(keys, bins, i);
      assert keys[..i + 1] == keys[..i] + [k];
      if bins[k] != [] {
        AddBin(ks, bs, k, bins[k]);
        ks, bs := ks + [k], bs[k := bins[k]];
      }
    }
    assert keys[..|keys|] == keys;
  }

  lemma FlatNothing(bins: Bins)
    ensures Flat([], bins) == []
  {
  }

  method Regroup(all: seq<Record>, kept: seq<Record>) returns (keys: seq<string>, bins: Bins)
    requires forall r :: r in kept ==> r in all
    ensures WellBinned(keys, bins) && NoneEmpty(bins)
    ensures multiset(Flat(keys, bins)) == multiset(kept)
  {
    hide Key, Flat, WellBinned, NoneEmpty;
    keys, bins := KeysOf(all);
    for i := 0 to |kept|
      invariant WellBinned(keys, bins) && (forall r :: r in all ==> Key(r) in keys)
      invariant multiset(Flat(keys, bins)) == multiset(kept[..i])
    {
      assert kept[i] in kept && kept[..i + 1] == kept[..i] + [kept[i]];
      AddRecord(keys, bins, kept[i]);
      var k := Key(kept[i]);
      bins := bins[k := bins[k] + [kept[i]]];
    }
    assert kept[..|kept|] == kept;
    keys, bins := WithoutEmpty(keys, bins);
  }

  lemma OldestFirst(all: seq<Record>, n: nat)
    requires n <= |Sort(Older, all)|
    ensures var s := Sort(Older, all);
      && multiset(s[..n]) + multiset(s[n..]) == multiset(all)
      && forall d, r :: d in s[..n] && r in s[n..] ==> d.at <= r.at
  {
    hide Sort, Sorted;
    var s := Sort(Older, all);
    OlderIsOrder();
    SortSorted(Older, all);
    SortPermutes(Older, all);
    assert s == s[..n] + s[n..];
    FrontIsOlder(s, n);
  }

  lemma FrontIsOlder(s: seq<Record>, n: nat)
    requires Sorted(Older, s) && n <= |s|
    ensures forall d, r :: d in s[..n] && r in s[n..] ==> d.at <= r.at
  {
    forall d, r | d in s[..n] && r in s[n..] ensures d.at <= r.at {
      var i :| 0 <= i < n && s[i] == d;
      var j :| n <= j < |s| && s[j] == r;
      assert !Older(s[j], s[i]);
    }
  }

  // ----- the store -----

  class Store {
    const lim: Limits
    var keys: seq<string>
    var bins: Bins
    var lastGc: real

    ghost predicate Valid()
      reads this
    {
      WellBinned(keys, bins) && NoneEmpty(bins)
    }

    ghost function Contents(): seq<Record>
      reads this
    {
      Flat(keys, bins)
    }

    constructor (lim: Limits, now: real)
      ensures Valid() && Contents() == [] && this.lim == lim && lastGc == now
    {
      this.lim, keys, bins, lastGc := lim, [], map[], now;
    }

    /** Removes the records past their time. */
    method Expire(cutoff: real)
      requires Valid()
      modifies this`keys, this`bins
      ensures Valid() && Contents() == Unexpired(old(Contents()), cutoff)
    {
      hide Key, Flat, WellBinned, NoneEmpty, Unexpired;
      NoBins();
      FlatNothing(bins);
      NothingExpires(cutoff);
      var ks: seq<string>, bs: Bins := [], map[];
      for i := 0 to |keys|
        invariant keys == old(keys) && bins == old(bins)
        invariant WellBinned(ks, bs) && NoneEmpty(bs)
        invariant Flat(ks, bs) == Unexpired(Flat(keys[..i], bins), cutoff)
        invariant forall k :: k in ks ==> k in keys[..i]
      {
        var k := keys[i];
        BinOf(keys, bins, i);
        var rs := Unexpired(bins[k], cutoff);
        assert keys[..i + 1] == keys[..i] + [k];
        UnexpiredConcat(Flat(keys[..i], bins), bins[k], cutoff);
        if rs != [] {
          forall r | r in rs ensures Key(r) == k { UnexpiredHolds(bins[k], cutoff, r); }
          AddBin(ks, bs, k, rs);
          ks, bs := ks + [k], bs[k := rs];
        }
      }
      assert keys[..|keys|] == keys;
      keys, bins := ks, bs;
    }

    /** Drops the oldest records of all keys when there are too many. */
    method Evict() returns (ghost dropped: seq<Record>)
      requires Valid()
      modifies this`keys, this`bins
      ensures Valid()
      ensures multiset(dropped) + multiset(Contents()) == multiset(old(Contents()))
      ensures |Contents()| == Staying(lim, |old(Contents())|)
      ensures forall d, r :: d in dropped && r in Contents() ==> d.at <= r.at
    {
      hide Key, Flat, WellBinned, NoneEmpty, Sort;
      dropped := [];
      var all := Flat(keys, bins);
      if |all| > lim.maxEntries {
        var sorted := Sort(Older, all);
        SortPermutes(Older, all);
        var n := Excess(lim, |all|);
        OldestFirst(all, n);
        TailIn(sorted, n);
        keys, bins := Regroup(sorted, sorted[n..]);
        SameMembers(Flat(keys, bins), sorted[n..]);
        dropped := sorted[..n];
        ExcessLeaves(lim, |all|);
      }
    }

    /** A collection that is due keeps every record within its time, but for the oldest ones when there
        are too many; afterwards the store is within its limit. */
    method TryGc(now: real) returns (ghost dropped: seq<Record>)
      requires Valid()
      modifies this
      ensures Valid()
      ensures now - old(lastGc) < 60.0 ==> Contents() == old(Contents()) && lastGc == old(lastGc)
      ensures now - old(lastGc) >= 60.0 ==>
        var alive := Unexpired(old(Contents()), now - lim.ttl as real);
        && lastGc == now
        && multiset(dropped) + multiset(Contents()) == multiset(alive)
        && |Contents()| == Staying(lim, |alive|)
        && forall d, r :: d in dropped && r in Contents() ==> d.at <= r.at
    {
      hide Key, Flat, WellBinned, NoneEmpty, Unexpired, Excess;
      dropped := [];
      if now - lastGc < PERIOD {
        return;
      }
      lastGc := now;
      Expire(now - lim.ttl as real);
      dropped := Evict();
    }

    /** Nothing is recorded for a missing name; otherwise one record is added, and a collection may
        follow. */
    method RecordMetric(test: string, variant: string, metric: string, value: real, now: real)
      returns (ok: bool, ghost dropped: seq<Record>)
      requires Valid()
      modifies this
      ensures Valid() && (ok <==> test != "" && variant != "" && metric != "")
      ensures !ok ==> keys == old(keys) && bins == old(bins) && lastGc == old(lastGc)
      ensures ok && now - old(lastGc) < 60.0 ==>
        && lastGc == old(lastGc)
        && multiset(Contents()) == multiset(old(Contents())) + multiset{Record(test, variant, metric, value, now)}
      ensures ok && now - old(lastGc) >= 60.0 ==>
        var alive := Unexpired(old(Contents()) + [Record(test, variant, metric, value, now)], now - lim.ttl as real);
        && lastGc == now
        && multiset(dropped) + multiset(Contents()) == multiset(alive)
        && |Contents()| == Staying(lim, |alive|)
        && (forall d, r :: d in dropped && r in Contents() ==> d.at <= r.at)
    {
      hide Key, Flat, WellBinned, NoneEmpty, Unexpired;
      dropped := [];
      if test == "" || variant == "" || metric == "" {
        return false, [];
      }
      var r := Record(test, variant, metric, value, now);
      var k := Key(r);
      ghost var was := Flat(keys, bins);
      SameKeys(keys, bins);
      if k in bins {
        AddRecord(keys, bins, r);
        bins := bins[k := bins[k] + [r]];
      } else {
        AddBin(keys, bins, k, [r]);
        keys, bins := keys + [k], bins[k := [r]];
      }
      ghost var grown := Flat(keys, bins);
      assert multiset(grown) == multiset(was) + multiset{r} == multiset(was + [r]);
      dropped := TryGc(now);
      SameUnexpired(was + [r], grown, now - lim.ttl as real);
      ok := true;
    }
  }

  lemma NothingExpires(cutoff: real)
    ensures Unexpired([], cutoff) == []
  {
  }

  lemma TailIn(s: seq<Record>, n: nat)
    requires n <= |s|
    ensures forall r :: r in s[n..] ==> r in s
  {
  }

  lemma SameMembers(a: seq<Record>, b: seq<Record>)
    requires multiset(a) == multiset(b)
    ensures |a| == |b| && forall r :: r in a <==> r in b
  {
    assert |multiset(a)| == |a| && |multiset(b)| == |b|;
    forall r ensures r in a <==> r in b {
      assert r in a <==> r in multiset(a);
    }
  }

  lemma LastCounts(front: seq<Record>, last: Record, rs: seq<Record>)
    requires rs == front + [last]
    ensures multiset(rs) == multiset(front) + multiset{last}
  {
  }

  /** Exactly the records past their time are left out. */
  lemma {:induction false} UnexpiredCounts(rs: seq<Record>, cutoff: real, r: Record)
    ensures multiset(Unexpired(rs, cutoff))[r] == if r.at > cutoff then multiset(rs)[r] else 0
  {
    if rs != [] {
      var front, last := rs[..|rs| - 1], rs[|rs| - 1];
      assert rs == front + [last];
      UnexpiredCounts(front, cutoff, r);
      LastCounts(front, last, rs);
      if last.at > cutoff {
        LastCounts(Unexpired(front, cutoff), last, Unexpired(rs, cutoff));
      } else {
        assert Unexpired(front, cutoff) + [] == Unexpired(front, cutoff);
      }
    }
  }

  lemma SameUnexpired(a: seq<Record>, b: seq<Record>, cutoff: real)
    requires multiset(a) == multiset(b)
    ensures multiset(Unexpired(a, cutoff)) == multiset(Unexpired(b, cutoff))
    ensures |Unexpired(a, cutoff)| == |Unexpired(b, cutoff)|
  {
    hide Unexpired;
    forall r ensures multiset(Unexpired(a, cutoff))[r] == multiset(Unexpired(b, cutoff))[r] {
      UnexpiredCounts(a, cutoff, r);
      UnexpiredCounts(b, cutoff, r);
    }
    assert multiset(Unexpired(a, cutoff)) == multiset(Unexpired(b, cutoff));
    SameMembers(Unexpired(a, cutoff), Unexpired(b, cutoff));
  }
}
