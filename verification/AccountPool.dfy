/**
 Rotating among provider accounts: cooldowns with exponential backoff, least-used selection, and a flag
 that tells other processes that every account is cooling down.
 */
module AccountPool {
  import opened Text

  datatype Account = Account(name: string, isApi: bool)

  /** Runtime state of one account; `until` is None when no cooldown was set. */
  datatype Entry = Entry(useCount: nat, hits: nat, until: Option<real>)

  type PoolState = map<string, Entry>

  function EntryOf(s: PoolState, name: string): Entry {
    if name in s then s[name] else Entry(0, 0, None)
  }

  function UntilOf(s: PoolState, name: string): real {
    var u := EntryOf(s, name).until;
    if u.Some? then u.value else 0.0
  }

  predicate Healthy(s: PoolState, a: Account, now: real) {
    now >= UntilOf(s, a.name)
  }

  /** Without the billing guard's leave an API account is not there. */
  function Usable(accts: seq<Account>, apiAllowed: bool): seq<Account> {
    if accts == [] then []
    else (if accts[0].isApi && !apiAllowed then [] else [accts[0]]) + Usable(accts[1..], apiAllowed)
  }

  /** An account is usable exactly when it is a subscription or the guard allows paid credits. */
  lemma {:induction false} UsableIff(accts: seq<Account>, apiAllowed: bool, a: Account)
    ensures a in Usable(accts, apiAllowed) <==> a in accts && (a.isApi ==> apiAllowed)
  {
    if accts != [] {
      UsableIff(accts[1..], apiAllowed, a);
      assert accts == [accts[0]] + accts[1..];
    }
  }

  predicate AllExhausted(usable: seq<Account>, s: PoolState, now: real) {
    usable != [] && forall i :: 0 <= i < |usable| ==> !Healthy(s, usable[i], now)
  }

  // ----- the flag -----

  function Soonest(usable: seq<Account>, s: PoolState): (t: real)
    requires usable != []
    ensures forall i :: 0 <= i < |usable| ==> t <= UntilOf(s, usable[i].name)
    ensures exists i :: 0 <= i < |usable| && t == UntilOf(s, usable[i].name)
  {
    var first := UntilOf(s, usable[0].name);
    if |usable| == 1 then first
    else
      var rest := Soonest(usable[1..], s);
      assert forall i :: 0 < i < |usable| ==> usable[i] == usable[1..][i - 1];
      if first <= rest then
        first
      else
        var i :| 0 <= i < |usable[1..]| && rest == UntilOf(s, usable[1..][i].name);
        assert usable[i + 1] == usable[1..][i];
        rest
  }

  /** What is written at time `now`: when the first account is free again, if none is free. */
  function FlagAt(usable: seq<Account>, s: PoolState, now: real): Option<real> {
    if AllExhausted(usable, s, now) then Some(Soonest(usable, s)) else None
  }

  predicate FlagIsUp(flag: Option<real>, now: real) {
    flag.Some? && now < flag.value
  }

  /** Written once, the flag says at every later time, without being written again, exactly whether all
      accounts are exhausted then. */
  lemma FlagStaysTrue(usable: seq<Account>, s: PoolState, written: real, now: real)
    requires written <= now
    ensures FlagIsUp(FlagAt(usable, s, written), now) <==> AllExhausted(usable, s, now)
  {
    if usable != [] {
      var t := Soonest(usable, s);
      var i :| 0 <= i < |usable| && t == UntilOf(s, usable[i].name);
      assert now < t ==> forall k :: 0 <= k < |usable| ==> !Healthy(s, usable[k], now);
      assert now >= t ==> Healthy(s, usable[i], now);
      if !AllExhausted(usable, s, written) {
        var k :| 0 <= k < |usable| && Healthy(s, usable[k], written);
        assert Healthy(s, usable[k], now);
      }
    }
  }

  // ----- backoff -----

  function Pow2(n: nat): nat {
    if n == 0 then 1 else 2 * Pow2(n - 1)
  }

  /** The cooldown after the given number of hits in a row. */
  function Backoff(cooldown: nat, max: nat, hits: nat): nat
    requires hits > 0
  {
    var raw := cooldown * Pow2(hits - 1);
    if raw < max then raw else max
  }

  /** The first hit gives the plain cooldown, or the cap if that is less. */
  lemma FirstBackoff(cooldown: nat, max: nat)
    ensures Backoff(cooldown, max, 1) == if cooldown < max then cooldown else max
  {
    assert Pow2(0) == 1;
  }

  /** The cooldown doubles with every hit until it meets the cap, and stays there. */
  lemma BackoffDoublesToCap(cooldown: nat, max: nat, hits: nat)
    requires hits > 0
    ensures var (b, next) := (Backoff(cooldown, max, hits), Backoff(cooldown, max, hits + 1));
      && b <= next <= max && next == if 2 * b < max then 2 * b else max
  {
    assert cooldown * Pow2(hits) == 2 * (cooldown * Pow2(hits - 1));
  }

  lemma {:induction false} BackoffMonotone(cooldown: nat, max: nat, h: nat, k: nat)
    requires 0 < h <= k
    ensures Backoff(cooldown, max, h) <= Backoff(cooldown, max, k) <= max
  {
    BackoffDoublesToCap(cooldown, max, k);
    if h < k {
      BackoffMonotone(cooldown, max, h, k - 1);
      BackoffDoublesToCap(cooldown, max, k - 1);
    }
  }

  // ----- selection -----

  function HealthyOnes(usable: seq<Account>, s: PoolState, now: real): (r: seq<Account>)
    ensures forall a :: a in r <==> a in usable && Healthy(s, a, now)
    ensures r == [] <==> forall i :: 0 <= i < |usable| ==> !Healthy(s, usable[i], now)
  {
    if usable == [] then []
    else (if Healthy(s, usable[0], now) then [usable[0]] else []) + HealthyOnes(usable[1..], s, now)
  }

  function Subscriptions(accts: seq<Account>): (r: seq<Account>)
    ensures forall a :: a in r <==> a in accts && !a.isApi
  {
    if accts == [] then []
    else (if accts[0].isApi then [] else [accts[0]]) + Subscriptions(accts[1..])
  }

  /** The accounts a pick chooses from: subscriptions before paid credits. */
  function Candidates(usable: seq<Account>, s: PoolState, now: real): seq<Account> {
    var healthy := HealthyOnes(usable, s, now);
    if Subscriptions(healthy) != [] then Subscriptions(healthy) else healthy
  }

  /** The first account with the least key. */
  function LeastBy(pool: seq<Account>, key: Account -> real): (a: Account)
    requires pool != []
    ensures a in pool && forall b :: b in pool ==> key(a) <= key(b)
  {
    if |pool| == 1 then pool[0]
    else
      var rest := LeastBy(pool[1..], key);
      if key(pool[0]) <= key(rest) then pool[0] else rest
  }

  /** Of accounts with the same key it is the first. */
  lemma {:induction false} LeastIsFirst(pool: seq<Account>, key: Account -> real, k: nat)
    requires k < |pool| && key(pool[k]) == key(LeastBy(pool, key))
    ensures exists i :: 0 <= i <= k && pool[i] == LeastBy(pool, key)
  {
    if |pool| > 1 && key(pool[0]) > key(LeastBy(pool[1..], key)) {
      LeastIsFirst(pool[1..], key, k - 1);
      var i :| 0 <= i <= k - 1 && pool[1..][i] == LeastBy(pool[1..], key);
      assert pool[i + 1] == pool[1..][i];
    }
  }

  function UseCount(s: PoolState, a: Account): nat {
    EntryOf(s, a.name).useCount
  }

  function LeastUsed(s: PoolState, pool: seq<Account>): (a: Account)
    requires pool != []
    ensures a in pool && forall b :: b in pool ==> UseCount(s, a) <= UseCount(s, b)
  {
    LeastBy(pool, (a: Account) => UseCount(s, a) as real)
  }

  function Current(usable: seq<Account>, s: PoolState, now: real): Option<Account> {
    if usable == [] then None
    else if Candidates(usable, s, now) == [] then Some(LeastBy(usable, (a: Account) => UntilOf(s, a.name)))
    else Some(LeastUsed(s, Candidates(usable, s, now)))
  }

  /** A pick is healthy if any account is, a subscription if any healthy account is one, and used least
      among its kind; with none healthy it is the one that is free soonest. */
  lemma CurrentIsBest(usable: seq<Account>, s: PoolState, now: real)
    ensures var c := Current(usable, s, now);
      && (c.None? <==> usable == [])
      && (c.Some? ==> c.value in usable)
      && (c.Some? && !AllExhausted(usable, s, now) ==>
            && Healthy(s, c.value, now)
            && forall b :: b in usable && Healthy(s, b, now) ==>
                 (c.value.isApi ==> b.isApi)
                 && (c.value.isApi == b.isApi ==> UseCount(s, c.value) <= UseCount(s, b)))
      && (AllExhausted(usable, s, now) ==>
            forall b :: b in usable ==> UntilOf(s, c.value.name) <= UntilOf(s, b.name))
  {
    var healthy := HealthyOnes(usable, s, now);
    if usable != [] && !AllExhausted(usable, s, now) {
      var k :| 0 <= k < |usable| && Healthy(s, usable[k], now);
      assert usable[k] in healthy;
      if Subscriptions(healthy) == [] {
        assert forall b :: b in healthy ==> b.isApi;
      }
    }
  }

  // ----- fairness -----

  function RecordUse(s: PoolState, a: Account): PoolState {
    var e := EntryOf(s, a.name);
    s[a.name := e.(useCount := e.useCount + 1)]
  }

  /** One use is one use, of this account alone; an account nobody has used counts 0 and is not cooling down. */
  lemma UseIs(s: PoolState, a: Account, b: Account)
    ensures UseCount(RecordUse(s, a), b) == UseCount(s, b) + (if a.name == b.name then 1 else 0)
    ensures UntilOf(RecordUse(s, a), b.name) == UntilOf(s, b.name)
    ensures a.name !in s ==> UseCount(s, a) == 0 && UntilOf(s, a.name) == 0.0
  {
  }

  /** No two accounts of the pool differ by more than `k` uses. */
  predicate SpreadWithin(s: PoolState, pool: seq<Account>, k: int) {
    forall a, b :: a in pool && b in pool ==> UseCount(s, a) - UseCount(s, b) <= k
  }

  function AfterPicks(usable: seq<Account>, s: PoolState, times: seq<real>): PoolState
    decreases |times|
  {
    if times == [] then s
    else
      var c := Current(usable, s, times[0]);
      AfterPicks(usable, if c.Some? then RecordUse(s, c.value) else s, times[1..])
  }

  lemma {:induction false} UseKeepsCandidates(usable: seq<Account>, s: PoolState, a: Account, now: real)
    ensures HealthyOnes(usable, RecordUse(s, a), now) == HealthyOnes(usable, s, now)
  {
    if usable != [] { UseKeepsCandidates(usable[1..], s, a, now); }
  }

  /** While the same accounts stay healthy, picking and using never widens the spread of their use
      counts beyond what it was, or 1. */
  lemma {:induction false} PicksStayFair(
      usable: seq<Account>, s: PoolState, times: seq<real>, pool: seq<Account>, k: int)
    requires k >= 1 && pool != [] && SpreadWithin(s, pool, k)
    requires forall i :: 0 <= i < |times| ==> Candidates(usable, s, times[i]) == pool
    ensures SpreadWithin(AfterPicks(usable, s, times), pool, k)
    decreases |times|
  {
    if times != [] {
      hide HealthyOnes, Subscriptions;
      assert Candidates(usable, s, times[0]) == pool;
      assert usable != [] by {
        if usable == [] { NoCandidates(s, times[0]); }
      }
      var c := LeastUsed(s, pool);
      assert Current(usable, s, times[0]) == Some(c);
      var next := RecordUse(s, c);
      forall i | 0 <= i < |times[1..]| ensures Candidates(usable, next, times[1..][i]) == pool {
        UseKeepsCandidates(usable, s, c, times[1..][i]);
        assert times[1..][i] == times[i + 1];
      }
      UseKeepsSpread(s, pool, k);
      PicksStayFair(usable, next, times[1..], pool, k);
    }
  }

  lemma NoCandidates(s: PoolState, now: real)
    ensures Candidates([], s, now) == []
  {
  }

  lemma UseKeepsSpread(s: PoolState, pool: seq<Account>, k: int)
    requires k >= 1 && pool != [] && SpreadWithin(s, pool, k)
    ensures SpreadWithin(RecordUse(s, LeastUsed(s, pool)), pool, k)
  {
    var c := LeastUsed(s, pool);
    var t := RecordUse(s, c);
    forall a, b | a in pool && b in pool ensures UseCount(t, a) - UseCount(t, b) <= k {
      assert UseCount(s, a) - UseCount(s, b) <= k && UseCount(s, c) <= UseCount(s, a) && UseCount(s, c) <= UseCount(s, b);
    }
  }

  // ----- what was the case when -----

  /** The cooldowns from this time on, up to the next moment. */
  datatype Moment = Moment(at: real, state: PoolState)

  /** How a write of the flag file ends: done, failed before the file was touched, or failed behind opening it,
      which leaves a file that cannot be read. */
  datatype Write = Done | Kept | Broken

  ghost predicate During(h: seq<Moment>, i: nat, t: real) {
    i < |h| && h[i].at <= t && (i + 1 < |h| ==> t <= h[i + 1].at)
  }

  /** At time `t` that was the right answer. */
  ghost predicate Right(usable: seq<Account>, h: seq<Moment>, t: real, v: bool) {
    exists i: nat :: During(h, i, t) && (v <==> AllExhausted(usable, h[i].state, t))
  }

  lemma RightStays(usable: seq<Account>, h: seq<Moment>, t: real, v: bool, m: Moment)
    requires Right(usable, h, t, v) && t <= m.at
    ensures Right(usable, h + [m], t, v)
  {
    hide AllExhausted;
    var i: nat :| During(h, i, t) && (v <==> AllExhausted(usable, h[i].state, t));
    assert (h + [m])[i] == h[i] && During(h + [m], i, t);
  }

  lemma SameCooldowns(usable: seq<Account>, s: PoolState, r: PoolState, t: real)
    requires forall name :: UntilOf(s, name) == UntilOf(r, name)
    ensures AllExhausted(usable, s, t) <==> AllExhausted(usable, r, t)
  {
    hide UntilOf;
    forall i | 0 <= i < |usable| ensures Healthy(s, usable[i], t) == Healthy(r, usable[i], t) {
      assert UntilOf(s, usable[i].name) == UntilOf(r, usable[i].name);
    }
  }

  lemma NoCooldowns(usable: seq<Account>, t: real)
    requires t >= 0.0
    ensures !AllExhausted(usable, map[], t)
  {
    if usable != [] { assert Healthy(map[], usable[0], t); }
  }

  // ----- the class -----

  class Pool {
    const usable: seq<Account>
    const cooldown: nat
    const cooldownMax: nat
    var state: PoolState
    /** What the flag file says, if it can be read. */
    var flag: Option<real>
    /** The last answer of the slow path, and when it was given. */
    var cacheTime: real
    var cacheValue: bool
    /** The clock at the last call. */
    ghost var clock: real
    /** Every change of a cooldown so far. */
    ghost var history: seq<Moment>
    /** The moment that the flag speaks of. */
    ghost var flagOf: nat
    /** No write of the flag has failed. */
    ghost var faultless: bool

    /** The flag is right, now and if nothing changes forever, about the moment it was written at; the cached
        answer was right when it was given.  Unless a write failed the flag speaks of the present, and then the
        cache never holds `true`. */
    ghost predicate Valid()
      reads this
    {
      && 0.0 <= cacheTime <= clock && history != [] && history[|history| - 1].at <= clock && flagOf < |history|
      && (forall name :: UntilOf(history[|history| - 1].state, name) == UntilOf(state, name))
      && history[0] == Moment(0.0, map[])
      && (forall t :: t >= clock ==> (FlagIsUp(flag, t) <==> AllExhausted(usable, history[flagOf].state, t)))
      && Right(usable, history, cacheTime, cacheValue)
      && (faultless ==> flagOf == |history| - 1 && !cacheValue)
    }

    constructor (accts: seq<Account>, apiAllowed: bool, cooldown: nat, cooldownMax: nat, now: real)
      requires now >= 0.0
      ensures Valid() && clock == now && state == map[] && flag == None && faultless && cacheTime == 0.0
      ensures usable == Usable(accts, apiAllowed) && this.cooldown == cooldown && this.cooldownMax == cooldownMax
    {
      usable, this.cooldown, this.cooldownMax := Usable(accts, apiAllowed), cooldown, cooldownMax;
      state, flag, cacheTime, cacheValue := map[], None, 0.0, false;
      clock, history, flagOf, faultless := now, [Moment(0.0, map[])], 0, true;
      new;
      hide AllExhausted;
      forall t | t >= 0.0 { NoCooldowns(usable, t); }
      assert During(history, 0, 0.0);
    }

    /** Written, the flag is there exactly when no account is free, it holds when the first one is free again, and
        from now on, without being written again, it is up exactly while all are exhausted. */
    method WriteFlag(now: real, w: Write)
      modifies this`flag
      ensures w == Done ==>
        && (flag.Some? <==> AllExhausted(usable, state, now))
        && (flag.Some? ==> exists a :: a in usable && flag.value == UntilOf(state, a.name))
        && (flag.Some? ==> forall a :: a in usable ==> flag.value <= UntilOf(state, a.name))
        && (forall t :: t >= now ==> (FlagIsUp(flag, t) <==> AllExhausted(usable, state, t)))
      ensures w != Done ==> flag == if w == Broken && AllExhausted(usable, state, now) then None else old(flag)
    {
      if AllExhausted(usable, state, now) {
        match w
        case Done =>
          flag := Some(Soonest(usable, state));
          var i :| 0 <= i < |usable| && flag.value == UntilOf(state, usable[i].name);
          assert usable[i] in usable;
        case Kept =>
        case Broken => flag := None;
      } else if w == Done {
        flag := None;
      }
      if w == Done {
        forall t | t >= now ensures FlagIsUp(flag, t) <==> AllExhausted(usable, state, t) {
          FlagStaysTrue(usable, state, now, t);
        }
      }
    }

    /** A changed cooldown is noted and the flag written. */
    method Change(s: PoolState, now: real, w: Write)
      requires Valid() && clock <= now
      modifies this`state, this`flag, this`clock, this`history, this`flagOf, this`faultless
      ensures Valid() && clock == now && state == s && history == old(history) + [Moment(now, s)]
      ensures faultless == (old(faultless) && w == Done)
      ensures w == Done ==> flagOf == |history| - 1
      ensures w != Done ==> flagOf == if w == Broken && AllExhausted(usable, s, now) then 0 else old(flagOf)
    {
      hide AllExhausted, UntilOf, Right;
      RightStays(usable, history, cacheTime, cacheValue, Moment(now, s));
      forall t | t >= now { NoCooldowns(usable, t); }
      hide FlagIsUp;
      state, clock, history := s, now, history + [Moment(now, s)];
      WriteFlag(now, w);
      faultless := faultless && w == Done;
      if w == Done {
        flagOf := |history| - 1;
      } else if w == Broken && AllExhausted(usable, s, now) {
        flagOf := 0;
      }
    }

    method MarkExhausted(a: Account, now: real, w: Write) returns (next: Option<Account>)
      requires Valid() && clock <= now
      modifies this`state, this`flag, this`clock, this`history, this`flagOf, this`faultless
      ensures Valid() && clock == now
      ensures var hits := EntryOf(old(state), a.name).hits + 1;
        state == old(state)[a.name := Entry(EntryOf(old(state), a.name).useCount, hits,
                                            Some(now + Backoff(cooldown, cooldownMax, hits) as real))]
      ensures history == old(history) + [Moment(now, state)]
      ensures w == Done ==> flagOf == |history| - 1
      ensures w == Kept ==> flagOf == old(flagOf)
      ensures faultless == (old(faultless) && w == Done)
      ensures next == Current(usable, state, now)
    {
      hide Backoff, Current, Valid;
      var e := EntryOf(state, a.name);
      var hits := e.hits + 1;
      Change(state[a.name := Entry(e.useCount, hits, Some(now + Backoff(cooldown, cooldownMax, hits) as real))], now, w);
      next := Current(usable, state, now);
    }

    method MarkOk(a: Account, now: real, w: Write)
      requires Valid() && clock <= now
      modifies this
      ensures Valid() && clock == now
      ensures state == if a.name in old(state) then old(state)[a.name := Entry(old(state)[a.name].useCount, 0, None)]
                       else old(state)
      ensures faultless == (old(faultless) && (w == Done || a.name !in old(state)))
    {
      hide UntilOf, Right, AllExhausted;
      if a.name in state {
        Change(state[a.name := Entry(state[a.name].useCount, 0, None)], now, w);
      }
      clock := now;
    }

    method Use(a: Account)
      requires Valid()
      modifies this`state
      ensures Valid() && state == RecordUse(old(state), a)
    {
      hide Right, AllExhausted;
      var e := EntryOf(state, a.name);
      state := state[a.name := e.(useCount := e.useCount + 1)];
      forall name ensures UntilOf(state, name) == UntilOf(old(state), name) {
        assert EntryOf(state, name).until == EntryOf(old(state), name).until;
      }
    }

    /** Whether all accounts are cooling down: by the flag, else by an answer up to 15 seconds old, else from the
        accounts.  If no write of the flag ever failed the answer is exact, although a cached one may be used.
        If one failed: while the flag is up the answer is that of the moment it was written at, and otherwise it
        was right at a time less than 15 seconds ago. */
    method ClaudeExhausted(now: real) returns (v: bool)
      requires Valid() && clock <= now
      modifies this`cacheTime, this`cacheValue, this`clock
      ensures Valid() && clock == now
      ensures faultless ==> (v <==> AllExhausted(usable, state, now))
      ensures FlagIsUp(flag, now) ==> v && AllExhausted(usable, history[flagOf].state, now)
      ensures !FlagIsUp(flag, now) ==>
        && v == cacheValue && now - 15.0 < cacheTime <= now && Right(usable, history, cacheTime, v)
        && (if now - old(cacheTime) < 15.0 then cacheTime == old(cacheTime) && v == old(cacheValue)
            else cacheTime == now && (v <==> AllExhausted(usable, state, now)))
      ensures flagOf == |history| - 1 ==>
        (v <==> AllExhausted(usable, state, now) || (old(cacheValue) && now - old(cacheTime) < 15.0))
    {
      hide AllExhausted, UntilOf, Right;
      clock := now;
      SameCooldowns(usable, history[|history| - 1].state, state, now);
      if flag.Some? && now < flag.value {
        return true;
      }
      if now - cacheTime < 15.0 {
        return cacheValue;
      }
      v := AllExhausted(usable, state, now);
      cacheTime, cacheValue := now, v;
      RightNow(usable, history, now, v);
    }
  }

  lemma FirstHit(a: Account, cooldown: nat, cooldownMax: nat)
    requires 2 <= cooldown <= cooldownMax
    ensures AllExhausted([a], map[a.name := Entry(0, 1, Some(100.0 + Backoff(cooldown, cooldownMax, 1) as real))], 101.0)
  {
    assert Pow2(0) == 1 && Backoff(cooldown, cooldownMax, 1) == cooldown;
  }

  /** With a write that failed the answer can be late: all accounts are cooling down and it is still no. */
  method LateAnswerExample(a: Account, cooldown: nat, cooldownMax: nat) returns (pool: Pool, v: bool)
    requires !a.isApi && 2 <= cooldown <= cooldownMax
    ensures fresh(pool) && pool.Valid() && !v && AllExhausted(pool.usable, pool.state, 101.0)
  {
    hide AllExhausted, UntilOf, Right, Backoff, Current, FlagIsUp;
    FirstHit(a, cooldown, cooldownMax);
    pool := new Pool([a], false, cooldown, cooldownMax, 100.0);
    assert pool.usable == [a];
    NoCooldowns([a], 100.0);
    v := pool.ClaudeExhausted(100.0);
    assert !v && pool.cacheTime == 100.0;
    ghost var last := pool.history[|pool.history| - 1].state;
    var next := pool.MarkExhausted(a, 100.0, Kept);
    assert pool.state == map[a.name := Entry(0, 1, Some(100.0 + Backoff(cooldown, cooldownMax, 1) as real))];
    assert pool.history[pool.flagOf].state == last;
    NoCooldowns([a], 101.0);
    SameCooldowns([a], last, map[], 101.0);
    v := pool.ClaudeExhausted(101.0);
  }

  lemma RightNow(usable: seq<Account>, h: seq<Moment>, t: real, v: bool)
    requires h != [] && h[|h| - 1].at <= t && (v <==> AllExhausted(usable, h[|h| - 1].state, t))
    ensures Right(usable, h, t, v)
  {
    assert During(h, |h| - 1, t);
  }
}
