/**
 Admission control for approval cards: a rolling 24-hour cap per kind and a memory of recent cards.
 The gate prunes what it remembers at every call; the results compare it with a gate that keeps the
 full history.
 */
module ApprovalAdmission {
  import opened Text

  const WINDOW := 86400.0

  /** A card, its fields already trimmed and lower-cased. */
  datatype Row = Row(project: string, kind: string, title: string)

  /** `ttl` of 0 switches deduplication off. */
  datatype Settings = Settings(enabled: bool, gated: set<string>, cap: nat, ttl: nat)

  /** An admitted card of a gated kind; `fp` is "" when it is not deduplicated. */
  datatype Entry = Entry(at: real, kind: string, fp: string)

  datatype Decision = Admitted | Ungated | Duplicate | CapReached

  function Fingerprint(row: Row): string {
    if row.kind == "" then "" else row.project + "|" + row.kind + "|" + row.title
  }

  function Key(st: Settings, row: Row): string {
    if st.ttl == 0 then "" else Fingerprint(row)
  }

  predicate IsGated(st: Settings, row: Row) {
    st.enabled && row.kind in st.gated
  }

  // ----- the gate that forgets nothing -----

  /** The times of the admissions of one kind. */
  function Times(h: seq<Entry>, kind: string): seq<real> {
    if h == [] then []
    else
      var last := h[|h| - 1];
      Times(h[..|h| - 1], kind) + (if last.kind == kind then [last.at] else [])
  }

  /** Those still inside the rolling window. */
  function Fresh(ts: seq<real>, now: real): seq<real> {
    if ts == [] then []
    else
      var last := ts[|ts| - 1];
      Fresh(ts[..|ts| - 1], now) + (if now - last <= WINDOW then [last] else [])
  }

  /** When the fingerprint was last admitted. */
  function Latest(h: seq<Entry>, fp: string): Option<real> {
    if h == [] then None
    else if h[|h| - 1].fp == fp then Some(h[|h| - 1].at)
    else Latest(h[..|h| - 1], fp)
  }

  predicate Within(latest: Option<real>, now: real, ttl: nat) {
    latest.Some? && now - latest.value <= ttl as real
  }

  function Decide(st: Settings, h: seq<Entry>, row: Row, now: real): Decision {
    var fp := Key(st, row);
    if !IsGated(st, row) then Ungated
    else if fp != "" && Within(Latest(h, fp), now, st.ttl) then Duplicate
    else if |Fresh(Times(h, row.kind), now)| >= st.cap then CapReached
    else Admitted
  }

  // ----- what a history of admissions can look like -----

  /** Every entry was admitted by the full-history gate when it came, under a clock that does not run
      backwards. */
  ghost predicate Produced(st: Settings, h: seq<Entry>) {
    h == [] ||
    (var front, e := h[..|h| - 1], h[|h| - 1];
     && Produced(st, front)
     && (front != [] ==> front[|front| - 1].at <= e.at)
     && exists row: Row :: e == Entry(e.at, row.kind, Key(st, row)) && Decide(st, front, row, e.at) == Admitted)
  }

  /** How many of the times lie in a closed interval. */
  function InInterval(ts: seq<real>, lo: real, hi: real): nat {
    if ts == [] then 0
    else InInterval(ts[..|ts| - 1], lo, hi) + (if lo <= ts[|ts| - 1] <= hi then 1 else 0)
  }

  lemma {:induction false} IntervalIsFresh(ts: seq<real>, lo: real, now: real)
    requires now <= lo + WINDOW
    ensures InInterval(ts, lo, lo + WINDOW) <= |Fresh(ts, now)|
  {
    if ts != [] { IntervalIsFresh(ts[..|ts| - 1], lo, now); }
  }

  /** No interval of 24 hours, wherever it starts, holds more than `cap` admissions of a kind. */
  lemma {:induction false} CapHoldsInEveryInterval(st: Settings, h: seq<Entry>, kind: string, lo: real)
    requires Produced(st, h)
    ensures InInterval(Times(h, kind), lo, lo + WINDOW) <= st.cap
  {
    hide Fresh, Latest, Within, Fingerprint, Key, IsGated;
    if h != [] {
      var front, e := h[..|h| - 1], h[|h| - 1];
      CapHoldsInEveryInterval(st, front, kind, lo);
      var ts := Times(front, kind);
      if e.kind == kind {
        assert (ts + [e.at])[..|ts|] == ts;
        if lo <= e.at <= lo + WINDOW { IntervalIsFresh(ts, lo, e.at); }
      } else {
        assert ts + [] == ts;
      }
    }
  }

  lemma {:induction false} ProducedIsOrdered(st: Settings, h: seq<Entry>, i: nat)
    requires Produced(st, h) && i < |h|
    ensures h[i].at <= h[|h| - 1].at && Produced(st, h[..i + 1])
  {
    if i == |h| - 1 {
      assert h[..i + 1] == h;
    } else {
      ProducedIsOrdered(st, h[..|h| - 1], i);
      assert h[..|h| - 1][..i + 1] == h[..i + 1];
    }
  }

  lemma {:induction false} LatestIsLater(st: Settings, h: seq<Entry>, i: nat)
    requires Produced(st, h) && i < |h|
    ensures Latest(h, h[i].fp).Some? && Latest(h, h[i].fp).value >= h[i].at
  {
    if h[|h| - 1].fp == h[i].fp {
      ProducedIsOrdered(st, h, i);
    } else {
      LatestIsLater(st, h[..|h| - 1], i);
    }
  }

  /** No fingerprint is admitted twice within its time to live. */
  lemma NoRepeatWithinTtl(st: Settings, h: seq<Entry>, i: nat, j: nat)
    requires Produced(st, h) && i < j < |h| && h[i].fp == h[j].fp != ""
    ensures h[j].at - h[i].at > st.ttl as real
  {
    ProducedIsOrdered(st, h, j);
    var upto := h[..j + 1];
    var front := upto[..j];
    assert Produced(st, front) && front[i] == h[i];
    LatestIsLater(st, front, i);
  }

  // ----- what is decided -----

  lemma {:induction false} FreshCount(h: seq<Entry>, kind: string, now: real)
    ensures |Fresh(Times(h, kind), now)| == |RecentOf(h, kind, now)|
  {
    hide Fresh;
    if h == [] {
      FreshNothing(now);
    } else {
      var front, e := h[..|h| - 1], h[|h| - 1];
      var ts := Times(front, kind);
      FreshCount(front, kind, now);
      RecentNext(h, kind, now);
      if e.kind == kind { FreshLast(ts, e.at, now); } else { assert ts + [] == ts; }
    }
  }

  lemma FreshLast(ts: seq<real>, t: real, now: real)
    ensures |Fresh(ts + [t], now)| == |Fresh(ts, now)| + (if now - t <= 86400.0 then 1 else 0)
  {
    assert (ts + [t])[..|ts|] == ts;
  }

  /** The admissions of the kind in the last 24 hours. */
  function RecentOf(h: seq<Entry>, kind: string, now: real): set<int> {
    set i | 0 <= i < |h| && h[i].kind == kind && now - h[i].at <= 86400.0
  }

  lemma RecentNext(h: seq<Entry>, kind: string, now: real)
    requires h != []
    ensures |RecentOf(h, kind, now)| == |RecentOf(h[..|h| - 1], kind, now)|
      + (if h[|h| - 1].kind == kind && now - h[|h| - 1].at <= 86400.0 then 1 else 0)
  {
    var last := |h| - 1;
    assert RecentOf(h, kind, now) == RecentOf(h[..last], kind, now)
      + if h[last].kind == kind && now - h[last].at <= 86400.0 then {last} else {};
  }

  ghost predicate AdmittedAt(h: seq<Entry>, fp: string, at: real) {
    exists i :: 0 <= i < |h| && h[i].fp == fp && h[i].at == at
  }

  lemma {:induction false} LatestIsOne(h: seq<Entry>, fp: string)
    ensures Latest(h, fp).Some? ==> AdmittedAt(h, fp, Latest(h, fp).value)
  {
    if h != [] {
      var front := h[..|h| - 1];
      LatestIsOne(front, fp);
      assert forall i :: 0 <= i < |front| ==> h[i] == front[i];
    }
  }

  /** A card with this fingerprint was admitted within the time to live. */
  ghost predicate Repeats(st: Settings, h: seq<Entry>, row: Row, now: real) {
    && st.ttl > 0 && row.kind != ""
    && exists i :: 0 <= i < |h| && h[i].fp == Fingerprint(row) && now - h[i].at <= st.ttl as real
  }

  /** A card of a kind that is not gated passes; of a gated kind, a repeat is refused, then whatever exceeds the cap
      of the last 24 hours, and everything else is admitted. */
  lemma DecideIff(st: Settings, h: seq<Entry>, row: Row, now: real)
    requires Produced(st, h)
    ensures var d, gated := Decide(st, h, row, now), st.enabled && row.kind in st.gated;
      && (d == Ungated <==> !gated)
      && (d == Duplicate <==> gated && Repeats(st, h, row, now))
      && (d == CapReached <==> gated && !Repeats(st, h, row, now) && |RecentOf(h, row.kind, now)| >= st.cap)
      && (d == Admitted <==> gated && !Repeats(st, h, row, now) && |RecentOf(h, row.kind, now)| < st.cap)
  {
    hide Produced, Times, Fresh, Latest, RecentOf, Repeats, Fingerprint, Within;
    FreshCount(h, row.kind, now);
    RepeatsIff(st, h, row, now);
    EmptyKeyIff(st, row);
  }

  lemma EmptyKeyIff(st: Settings, row: Row)
    ensures Key(st, row) == "" <==> st.ttl == 0 || row.kind == ""
  {
  }

  lemma RepeatsIff(st: Settings, h: seq<Entry>, row: Row, now: real)
    requires Produced(st, h)
    ensures Repeats(st, h, row, now) <==> Key(st, row) != "" && Within(Latest(h, Key(st, row)), now, st.ttl)
  {
    hide Produced, Latest;
    EmptyKeyIff(st, row);
    if st.ttl > 0 && row.kind != "" {
      var fp := Fingerprint(row);
      LatestIsOne(h, fp);
      forall i | 0 <= i < |h| && h[i].fp == fp ensures Latest(h, fp).Some? && Latest(h, fp).value >= h[i].at {
        LatestIsLater(st, h, i);
      }
    }
  }

  function InsideOf(h: seq<Entry>, kind: string, lo: real, hi: real): set<int> {
    set i | 0 <= i < |h| && h[i].kind == kind && lo <= h[i].at <= hi
  }

  lemma InsideNext(h: seq<Entry>, kind: string, lo: real, hi: real)
    requires h != []
    ensures |InsideOf(h, kind, lo, hi)| == |InsideOf(h[..|h| - 1], kind, lo, hi)|
      + (if h[|h| - 1].kind == kind && lo <= h[|h| - 1].at <= hi then 1 else 0)
  {
    var last := |h| - 1;
    assert InsideOf(h, kind, lo, hi) == InsideOf(h[..last], kind, lo, hi)
      + if h[last].kind == kind && lo <= h[last].at <= hi then {last} else {};
  }

  /** The interval is closed: it counts the admissions at both of its ends. */
  lemma {:induction false} InIntervalIs(h: seq<Entry>, kind: string, lo: real, hi: real)
    ensures InInterval(Times(h, kind), lo, hi) == |InsideOf(h, kind, lo, hi)|
  {
    hide InsideOf;
    if h == [] {
      NothingInside(kind, lo, hi);
    } else {
      var front, e := h[..|h| - 1], h[|h| - 1];
      InIntervalIs(front, kind, lo, hi);
      InsideNext(h, kind, lo, hi);
      var ts := Times(front, kind);
      if e.kind == kind { assert (ts + [e.at])[..|ts|] == ts; } else { assert ts + [] == ts; }
    }
  }

  lemma NothingInside(kind: string, lo: real, hi: real)
    ensures InsideOf([], kind, lo, hi) == {}
  {
  }

  // ----- what a fingerprint tells -----

  /** The three parts with a bar behind the first two. */
  function Barred(row: Row): string {
    row.project + "|" + row.kind + "|" + row.title
  }

  lemma BarredAt(row: Row, i: nat)
    requires i < |Barred(row)|
    ensures var (p, k) := (|row.project|, |row.kind|);
      Barred(row)[i] == if i < p then row.project[i] else if i == p then '|' else if i < p + 1 + k then row.kind[i - p - 1]
                        else if i == p + 1 + k then '|' else row.title[i - p - k - 2]
  {
  }

  /** Another card has the fingerprint exactly when some bar of it can be read as another one's. */
  lemma FingerprintTellsIff(row: Row)
    requires row.kind != ""
    ensures (forall other: Row :: Fingerprint(other) == Fingerprint(row) ==> other == row) <==>
      '|' !in row.project && '|' !in row.title && ('|' !in row.kind || row.kind == "|")
  {
    if '|' !in row.project && '|' !in row.title && ('|' !in row.kind || row.kind == "|") {
      forall other: Row | Fingerprint(other) == Fingerprint(row) ensures other == row {
        SameParts(row, other);
      }
    } else {
      var other := ReadOtherwise(row);
      assert Fingerprint(other) == Fingerprint(row) && other != row;
    }
  }

  lemma SameParts(row: Row, other: Row)
    requires row.kind != "" && other.kind != "" && Barred(row) == Barred(other)
    requires '|' !in row.project && '|' !in row.title && ('|' !in row.kind || row.kind == "|")
    ensures other == row
  {
    hide Barred;
    var s, p, q := Barred(row), |other.project|, |other.project| + 1 + |other.kind|;
    BarredLength(row);
    BarredLength(other);
    BarredAt(other, p);
    BarredAt(other, q);
    OnlyBars(row, p);
    OnlyBars(row, q);
    assert p == |row.project| && q == |row.project| + 1 + |row.kind|;
    PartsOf(row);
    PartsOf(other);
  }

  lemma BarredLength(row: Row)
    ensures |Barred(row)| == |row.project| + |row.kind| + |row.title| + 2
  {
  }

  lemma OnlyBars(row: Row, i: nat)
    requires i < |Barred(row)| && Barred(row)[i] == '|'
    requires '|' !in row.project && '|' !in row.title && ('|' !in row.kind || row.kind == "|")
    ensures i == |row.project| || i == |row.project| + 1 + |row.kind| || (row.kind == "|" && i == |row.project| + 1)
  {
    hide Barred;
    BarredLength(row);
    BarredAt(row, i);
  }

  lemma PartsOf(row: Row)
    ensures var (s, p, q) := (Barred(row), |row.project|, |row.project| + 1 + |row.kind|);
      q < |s| && row == Row(s[..p], s[p + 1..q], s[q + 1..])
  {
  }

  lemma ReadOtherwise(row: Row) returns (other: Row)
    requires row.kind != "" && ('|' in row.project || '|' in row.title || ('|' in row.kind && row.kind != "|"))
    ensures other.kind != "" && other != row && Barred(other) == Barred(row)
  {
    if '|' in row.project {
      var x, y := AroundBar(row.project);
      other := Row(x, y + "|" + row.kind, row.title);
      assert |other.project| < |row.project|;
    } else if '|' in row.title {
      var x, y := AroundBar(row.title);
      other := Row(row.project, row.kind + "|" + x, y);
      assert |other.title| < |row.title|;
    } else if row.kind[0] == '|' {
      other := Row(row.project + "|", row.kind[1..], row.title);
      assert row.kind == "|" + row.kind[1..];
    } else {
      var x, y := AroundBar(row.kind);
      other := Row(row.project, x, y + "|" + row.title);
      assert |other.title| > |row.title|;
    }
  }

  lemma AroundBar(s: string) returns (x: string, y: string)
    requires '|' in s
    ensures s == x + "|" + y && (s[0] != '|' ==> x != "")
  {
    var i :| 0 <= i < |s| && s[i] == '|';
    x, y := s[..i], s[i + 1..];
  }

  /** So two different cards of one kind can be taken for repeats of each other. */
  lemma FingerprintsCollide(a: string, kind: string, title: string)
    requires kind != ""
    ensures var row, other := Row(a + "|" + kind, kind, title), Row(a, kind, kind + "|" + title);
      row != other && Fingerprint(row) == Fingerprint(other)
  {
    var row, other := Row(a + "|" + kind, kind, title), Row(a, kind, kind + "|" + title);
    assert |row.project| != |other.project|;
    assert Fingerprint(row) == a + "|" + kind + "|" + kind + "|" + title;
    assert Fingerprint(other) == a + "|" + kind + "|" + kind + "|" + title;
  }

  // ----- pruning -----

  /** Pruning at one time and again later is pruning later. */
  lemma {:induction false} FreshTwice(ts: seq<real>, t: real, now: real)
    requires t <= now
    ensures Fresh(Fresh(ts, t), now) == Fresh(ts, now)
  {
    if ts != [] {
      var front, last := ts[..|ts| - 1], ts[|ts| - 1];
      FreshTwice(front, t, now);
      if t - last <= WINDOW {
        assert (Fresh(front, t) + [last])[..|Fresh(front, t)|] == Fresh(front, t);
      } else {
        assert Fresh(front, t) + [] == Fresh(front, t);
        assert Fresh(front, now) + [] == Fresh(front, now);
      }
    }
  }

  /** The stamps kept at time `t` are exactly those the full history has in the window. */
  ghost predicate RemembersTimes(h: seq<Entry>, t: real, admitted: map<string, seq<real>>) {
    && (forall k :: (if k in admitted then admitted[k] else []) == Fresh(Times(h, k), t))
    && (forall k :: k in admitted ==> admitted[k] != [])
  }

  /** The fingerprints kept at time `t` are exactly those the full history has within their time. */
  ghost predicate RemembersCards(st: Settings, h: seq<Entry>, t: real, seen: map<string, real>) {
    && (forall fp :: fp in seen <==> fp != "" && Within(Latest(h, fp), t, st.ttl))
    && (forall fp :: fp in seen ==> Latest(h, fp) == Some(seen[fp]))
    && (st.ttl == 0 ==> forall fp :: fp != "" ==> Latest(h, fp).None?)
  }

  function PruneTimes(admitted: map<string, seq<real>>, now: real): map<string, seq<real>> {
    map k | k in admitted && Fresh(admitted[k], now) != [] :: Fresh(admitted[k], now)
  }

  function PruneCards(st: Settings, seen: map<string, real>, now: real): map<string, real> {
    if st.ttl == 0 then seen else map fp | fp in seen && now - seen[fp] <= st.ttl as real :: seen[fp]
  }

  lemma PruneRemembers(st: Settings, h: seq<Entry>, t: real, now: real, seen: map<string, real>, admitted: map<string, seq<real>>)
    requires RemembersTimes(h, t, admitted) && RemembersCards(st, h, t, seen) && t <= now
    ensures RemembersTimes(h, now, PruneTimes(admitted, now)) && RemembersCards(st, h, now, PruneCards(st, seen, now))
  {
    hide Times, Fresh, Latest;
    FreshNothing(now);
    forall k ensures Fresh(Fresh(Times(h, k), t), now) == Fresh(Times(h, k), now) {
      FreshTwice(Times(h, k), t, now);
    }
  }

  lemma FreshNothing(now: real)
    ensures Fresh([], now) == []
  {
  }

  lemma TimesAppend(h: seq<Entry>, e: Entry, k: string, now: real)
    requires e.at == now
    ensures Fresh(Times(h + [e], k), now) == Fresh(Times(h, k), now) + (if k == e.kind then [now] else [])
  {
    var ts := Times(h, k);
    assert (h + [e])[..|h|] == h;
    if k == e.kind {
      assert (ts + [now])[..|ts|] == ts;
    } else {
      assert ts + [] == ts && Fresh(ts, now) + [] == Fresh(ts, now);
    }
  }

  lemma LatestAppend(h: seq<Entry>, e: Entry, fp: string)
    ensures Latest(h + [e], fp) == if fp == e.fp then Some(e.at) else Latest(h, fp)
  {
    assert (h + [e])[..|h|] == h;
  }

  lemma AdmitTimes(h: seq<Entry>, e: Entry, admitted: map<string, seq<real>>)
    requires RemembersTimes(h, e.at, admitted)
    ensures RemembersTimes(h + [e], e.at,
      admitted[e.kind := (if e.kind in admitted then admitted[e.kind] else []) + [e.at]])
  {
    hide Times, Fresh;
    forall k ensures Fresh(Times(h + [e], k), e.at) == Fresh(Times(h, k), e.at) + (if k == e.kind then [e.at] else []) {
      TimesAppend(h, e, k, e.at);
    }
  }

  lemma AdmitCard(st: Settings, h: seq<Entry>, e: Entry, seen: map<string, real>)
    requires RemembersCards(st, h, e.at, seen) && (st.ttl == 0 ==> e.fp == "")
    ensures RemembersCards(st, h + [e], e.at, if e.fp != "" then seen[e.fp := e.at] else seen)
  {
    hide Latest;
    forall fp ensures Latest(h + [e], fp) == if fp == e.fp then Some(e.at) else Latest(h, fp) {
      LatestAppend(h, e, fp);
    }
  }

  lemma AdmitProduced(st: Settings, h: seq<Entry>, row: Row, now: real)
    requires Produced(st, h) && Decide(st, h, row, now) == Admitted && (h != [] ==> h[|h| - 1].at <= now)
    ensures Produced(st, h + [Entry(now, row.kind, Key(st, row))])
  {
    var e := Entry(now, row.kind, Key(st, row));
    assert (h + [e])[..|h|] == h;
    assert e == Entry(e.at, row.kind, Key(st, row));
  }

  /** What is looked up is what the full history says. */
  lemma Recalls(st: Settings, h: seq<Entry>, now: real, seen: map<string, real>, admitted: map<string, seq<real>>,
                fp: string, kind: string)
    requires RemembersTimes(h, now, admitted) && RemembersCards(st, h, now, seen)
    ensures fp in seen <==> fp != "" && Within(Latest(h, fp), now, st.ttl)
    ensures (if kind in admitted then admitted[kind] else []) == Fresh(Times(h, kind), now)
  {
  }

  class ApprovalGate {
    const st: Settings
    var seen: map<string, real>
    var admitted: map<string, seq<real>>
    ghost var history: seq<Entry>
    /** The clock at the last call. */
    ghost var clock: real

    ghost predicate Valid()
      reads this
    {
      && Produced(st, history)
      && RemembersTimes(history, clock, admitted) && RemembersCards(st, history, clock, seen)
      && (history != [] ==> history[|history| - 1].at <= clock)
    }

    constructor (st: Settings, now: real)
      ensures Valid() && history == [] && clock == now && this.st == st
    {
      this.st := st;
      seen, admitted, history, clock := map[], map[], [], now;
    }

    /** Drops expired fingerprints and admissions outside the window. */
    method Prune(now: real)
      requires Valid() && clock <= now
      modifies this
      ensures Valid() && history == old(history) && clock == now
    {
      hide Produced, RemembersTimes, RemembersCards, Fresh;
      PruneRemembers(st, history, clock, now, seen, admitted);
      if st.ttl > 0 {
        seen := PruneCards(st, seen, now);
      }
      admitted := PruneTimes(admitted, now);
      clock := now;
    }

    /** The pruned gate decides exactly as the gate that keeps the full history. */
    method Admit(row: Row, now: real) returns (d: Decision)
      requires Valid() && clock <= now
      modifies this
      ensures Valid() && d == Decide(st, old(history), row, now)
      ensures history == if d == Admitted then old(history) + [Entry(now, row.kind, Key(st, row))] else old(history)
    {
      hide Produced, Times, Fresh, Latest, Within, Fingerprint, PruneTimes, PruneCards, RemembersTimes, RemembersCards;
      if !st.enabled || row.kind !in st.gated {
        return Ungated;
      }
      Prune(now);
      var fp := Fingerprint(row);
      if st.ttl == 0 {
        fp := "";
      }
      Recalls(st, history, now, seen, admitted, fp, row.kind);
      if fp != "" && fp in seen {
        return Duplicate;
      }
      var stamps := if row.kind in admitted then admitted[row.kind] else [];
      if |stamps| >= st.cap {
        return CapReached;
      }
      assert Decide(st, history, row, now) == Admitted;
      ghost var e := Entry(now, row.kind, fp);
      AdmitProduced(st, history, row, now);
      AdmitTimes(history, e, admitted);
      AdmitCard(st, history, e, seen);
      if fp != "" {
        seen := seen[fp := now];
      }
      admitted := admitted[row.kind := stamps + [now]];
      history := history + [e];
      return Admitted;
    }
  }
}
