/**
 Assigning users of an A/B test to variants by one hash: the hash modulo 100 decides whether a user
 takes part, the same hash modulo the number of variants decides which variant it sees.
 */
module AbSplit {
  import opened Text

  datatype Schema = Schema(name: string, variants: seq<string>, rolloutPct: int, metrics: seq<string>)

  predicate Validate(t: Schema) {
    t.name != "" && |t.variants| >= 2 && 0 <= t.rolloutPct <= 100 && t.metrics != []
  }

  /** The index of the variant of a hash, None for a user outside the rollout. */
  function VariantOf(hash: nat, len: nat, pct: int): Option<nat>
    requires len > 0
  {
    if pct < 1 || hash % 100 >= pct then None else Some(hash % len)
  }

  /** `hash` is the hash of the test's name and the user. */
  function AssignVariant(t: Schema, userId: string, hash: nat): Option<string> {
    if !Validate(t) || userId == "" then None
    else
      var v := VariantOf(hash, |t.variants|, t.rolloutPct);
      if v.None? then None else Some(t.variants[v.value])
  }

  /** A user is assigned the variant of its hash exactly when the test is well formed, the user has a name and the hash
      is within the rollout. */
  lemma AssignedIff(t: Schema, userId: string, hash: nat, v: string)
    ensures AssignVariant(t, userId, hash) == Some(v) <==>
      && t.name != "" && t.metrics != [] && |t.variants| >= 2 && 0 <= t.rolloutPct <= 100 && userId != ""
      && hash % 100 < t.rolloutPct && t.variants[hash % |t.variants|] == v
  {
  }

  /** Raising the rollout never changes what an assigned user sees. */
  lemma RaisingRolloutKeepsVariants(t: Schema, userId: string, hash: nat, pct: int)
    requires t.rolloutPct <= pct <= 100 && AssignVariant(t, userId, hash).Some?
    ensures AssignVariant(t.(rolloutPct := pct), userId, hash) == AssignVariant(t, userId, hash)
  {
  }

  // ----- division -----

  lemma ModIs(x: int, d: nat, q: int, r: nat)
    requires d > 0 && r < d && x == q * d + r
    ensures x % d == r
  {
    var k := x / d - q;
    assert x == (x / d) * d + x % d;
    assert k * d == r - x % d;
    AtLeastOnce(k, d);
  }

  lemma AtLeastOnce(k: int, d: nat)
    ensures k >= 1 ==> k * d >= d
    ensures k <= -1 ==> k * d + d <= 0
  {
    if k >= 1 { assert (k - 1) * d >= 0; }
    if k <= -1 { assert (-k - 1) * d >= 0; }
  }

  lemma Quotient(x: int, d: nat) returns (q: int)
    requires d > 0
    ensures x == q * d + x % d
  {
    q := x / d;
  }

  function Gcd(a: nat, b: nat): (g: nat)
    ensures (a > 0 || b > 0 ==> g > 0) && (b > 0 ==> g <= b)
    decreases b
  {
    if b == 0 then a else Gcd(b, a % b)
  }

  /** The greatest common divisor is a combination of the two numbers, and divides them. */
  lemma {:induction false} Bezout(a: nat, b: nat) returns (x: int, y: int, m: int, n: int)
    requires a > 0
    ensures Gcd(a, b) > 0 && a * x + b * y == Gcd(a, b) && a == m * Gcd(a, b) && b == n * Gcd(a, b)
    decreases b
  {
    if b == 0 {
      x, y, m, n := 1, 0, 1, 0;
    } else {
      var q := a / b;
      var r, g := a % b, Gcd(a, b);
      assert a == q * b + r;
      var x', y', m', n' := Bezout(b, r);
      x, y, m, n := y', x' - q * y', q * m' + n', m';
      BezoutStep(a, b, q, r, x', y', g);
      DivisorStep(a, b, q, r, m', n', g);
    }
  }

  lemma BezoutStep(a: int, b: int, q: int, r: int, x: int, y: int, g: int)
    requires b * x + r * y == g && a == q * b + r
    ensures a * y + b * (x - q * y) == g
  {
    assert a * y == (q * b) * y + r * y;
    assert b * (x - q * y) == b * x - b * (q * y);
    assert b * (q * y) == (q * b) * y;
  }

  lemma DivisorStep(a: int, b: int, q: int, r: int, m: int, n: int, g: int)
    requires b == m * g && r == n * g && a == q * b + r
    ensures a == (q * m + n) * g
  {
    assert (q * m + n) * g == (q * m) * g + n * g;
    assert (q * m) * g == q * (m * g);
  }

  /** A remainder keeps its own remainder by a divisor. */
  lemma ModOfMod(h: nat, d: nat, g: nat, m: int)
    requires g > 0 && d > 0 && d == m * g
    ensures (h % d) % g == h % g
  {
    var q := Quotient(h, d);
    var p := Quotient(h % d, g);
    assert q * d == q * (m * g) == (q * m) * g;
    assert h == (q * m + p) * g + (h % d) % g by {
      assert (q * m + p) * g == (q * m) * g + p * g;
    }
    ModIs(h, g, q * m + p, (h % d) % g);
  }

  // ----- which variants are ever seen -----

  /** The hash that puts a user into bucket `i % g` and shows variant `i`. */
  lemma HashFor(len: nat, i: nat) returns (h: nat)
    requires 0 < len && i < len
    ensures h % len == i && h % 100 == i % Gcd(len, 100)
  {
    var g := Gcd(len, 100);
    var x, y, m, n := Bezout(len, 100);
    var k := Quotient(i, g);
    var r := i % g;
    hide Gcd;
    var t := if k * x < 0 then 0 else k * x;
    var q: nat := 100 * t - k * x;
    HashArithmetic(len, g, x, y, k, r, t, i);
    NotNegative(q, len);
    h := q * len + i;
    ModIs(h, len, q, i);
    ModIs(h, 100, t * len + k * y, r);
  }

  lemma NotNegative(a: nat, b: nat)
    ensures a * b >= 0
  {
  }

  lemma HashArithmetic(len: int, g: int, x: int, y: int, k: int, r: int, t: int, i: int)
    requires len * x + 100 * y == g && i == k * g + r
    ensures (100 * t - k * x) * len + i == (t * len + k * y) * 100 + r
  {
    assert (100 * t - k * x) * len == 100 * (t * len) - k * (len * x) by {
      assert (100 * t - k * x) * len == (100 * t) * len - (k * x) * len;
      assert (100 * t) * len == 100 * (t * len);
      assert (k * x) * len == k * (x * len);
    }
    assert k * (len * x + 100 * y) == k * (len * x) + 100 * (k * y);
  }

  /** A variant is assigned to anyone at all exactly when its index, modulo what the number of variants
      shares with 100, is below the rollout.  So a rollout below that common factor starves variants,
      and only a number of variants prime to 100 treats all alike. */
  lemma VariantIsReachableIff(len: nat, pct: int, i: nat)
    requires 0 < len
    ensures (exists h: nat :: VariantOf(h, len, pct) == Some(i)) <==> i < len && i % Gcd(len, 100) < pct
  {
    var x, y, m, n := Bezout(len, 100);
    var g := Gcd(len, 100);
    if i < len && i % g < pct {
      var h := HashFor(len, i);
      assert VariantOf(h, len, pct) == Some(i);
    }
    forall h: nat | VariantOf(h, len, pct) == Some(i) ensures i < len && i % g < pct {
      ModOfMod(h, len, g, m);
      ModOfMod(h, 100, g, n);
      RemainderIsLess(h % 100, g);
    }
  }

  lemma RemainderIsLess(u: nat, g: nat)
    requires g > 0
    ensures u % g <= u
  {
    if u < g { ModIs(u, g, 0, u); }
  }

  /** With as many variants as divide 100, a rollout of fewer percent than variants never shows the last
      ones. */
  lemma DivisorOfHundredStarves(len: nat, n: nat, pct: int, h: nat)
    requires len > 0 && n * len == 100
    ensures VariantOf(h, len, pct).Some? ==> VariantOf(h, len, pct).value < pct
  {
    ModOfMod(h, 100, len, n);
    RemainderIsLess(h % 100, len);
  }

  // ----- the split is exact -----

  /** The bucket of the `q`th hash that shows variant `v`. */
  function Bucket(len: nat, v: nat, q: nat): nat {
    (q * len + v) % 100
  }

  /** The first `n` hashes of a variant differ in their buckets, where `n` times the factor shared with 100
      is 100. */
  lemma BucketsDiffer(len: nat, v: nat, n: nat, p: nat, q: nat)
    requires len > 0 && n * Gcd(len, 100) == 100 && p < n && q < n && Bucket(len, v, p) == Bucket(len, v, q)
    ensures p == q
  {
    hide Gcd;
    var x, y, m, k := Bezout(len, 100);
    var e := SameRemainder(p * len + v, q * len + v);
    DifferenceTimes(p, q, len);
    DifferenceArithmetic(p - q, len, e, x, y, n, Gcd(len, 100));
    SmallMultiple(p - q, n, e * x + (p - q) * y);
  }

  lemma SameRemainder(x: int, y: int) returns (e: int)
    requires x % 100 == y % 100
    ensures x - y == e * 100
  {
    e := x / 100 - y / 100;
  }

  lemma DifferenceTimes(p: int, q: int, len: int)
    ensures (p - q) * len == p * len - q * len
  {
  }

  lemma DifferenceArithmetic(d: int, len: int, e: int, x: int, y: int, n: int, g: int)
    requires d * len == e * 100 && len * x + 100 * y == g && n * g == 100 && g > 0
    ensures d == n * (e * x + d * y)
  {
    var z := e * x + d * y;
    assert d * g == d * (len * x) + d * (100 * y);
    assert d * (len * x) == (d * len) * x == (e * 100) * x == (e * x) * 100;
    assert d * (100 * y) == (d * y) * 100;
    assert d * g == z * 100 == z * (n * g) == (n * z) * g;
    CancelFactor(d, n * z, g);
  }

  lemma CancelFactor(a: int, b: int, g: int)
    requires a * g == b * g && g > 0
    ensures a == b
  {
    assert (a - b) * g == 0;
  }

  lemma SmallMultiple(d: int, n: nat, k: int)
    requires d == n * k && 0 - n < d < n
    ensures d == 0
  {
    AtLeastOnce(k, n);
  }

  /** A variant's hashes meet only buckets with its own remainder, and meet them again after `n` hashes. */
  lemma BucketsOfVariant(len: nat, v: nat, n: nat, q: nat)
    requires len > 0 && n * Gcd(len, 100) == 100
    ensures Bucket(len, v, q) % Gcd(len, 100) == v % Gcd(len, 100)
    ensures Bucket(len, v, q + n) == Bucket(len, v, q)
  {
    hide Gcd;
    var g := Gcd(len, 100);
    var x, y, m, k := Bezout(len, 100);
    var h := q * len + v;
    ModOfMod(h, 100, g, n);
    var s := Quotient(v, g);
    MultipleOf(q, len, m, g, s);
    ModIs(h, g, q * m + s, v % g);
    var t := Quotient(h, 100);
    NextPeriod(q, n, len, m, g);
    ModIs((q + n) * len + v, 100, t + m, h % 100);
  }

  lemma MultipleOf(q: int, len: int, m: int, g: int, s: int)
    requires len == m * g
    ensures q * len + s * g == (q * m + s) * g
  {
    assert q * (m * g) == (q * m) * g;
    assert (q * m + s) * g == (q * m) * g + s * g;
  }

  lemma NextPeriod(q: int, n: int, len: int, m: int, g: int)
    requires len == m * g && n * g == 100
    ensures (q + n) * len == q * len + m * 100
  {
    assert (q + n) * len == q * len + n * len;
    assert n * (m * g) == m * (n * g);
  }

  /** How many of the first `n` are in a bucket below `pct`, and in bucket `u`. */
  function CountBelow(len: nat, v: nat, n: nat, pct: nat): (c: nat)
    ensures c <= n
  {
    if n == 0 then 0 else CountBelow(len, v, n - 1, pct) + (if Bucket(len, v, n - 1) < pct then 1 else 0)
  }

  function CountAt(len: nat, v: nat, n: nat, u: nat): nat {
    if n == 0 then 0 else CountAt(len, v, n - 1, u) + (if Bucket(len, v, n - 1) == u then 1 else 0)
  }

  lemma {:induction false} AtMostOneEach(len: nat, v: nat, n: nat, k: nat, u: nat)
    requires len > 0 && n * Gcd(len, 100) == 100 && k <= n
    ensures CountAt(len, v, k, u) <= if u % Gcd(len, 100) == v % Gcd(len, 100) then 1 else 0
    ensures CountAt(len, v, k, u) == 1 ==> exists q :: 0 <= q < k && Bucket(len, v, q) == u
  {
    hide Bucket, Gcd;
    if k > 0 {
      AtMostOneEach(len, v, n, k - 1, u);
      BucketsOfVariant(len, v, n, k - 1);
      if Bucket(len, v, k - 1) == u && CountAt(len, v, k - 1, u) == 1 {
        var q :| 0 <= q < k - 1 && Bucket(len, v, q) == u;
        BucketsDiffer(len, v, n, q, k - 1);
      }
    }
  }

  lemma {:induction false} CountBelowNext(len: nat, v: nat, n: nat, pct: nat)
    ensures CountBelow(len, v, n, pct + 1) == CountBelow(len, v, n, pct) + CountAt(len, v, n, pct)
  {
    if n > 0 { CountBelowNext(len, v, n - 1, pct); }
  }

  lemma {:induction false} CountBelowEnds(len: nat, v: nat, n: nat)
    ensures CountBelow(len, v, n, 0) == 0 && CountBelow(len, v, n, 100) == n
  {
    if n > 0 { CountBelowEnds(len, v, n - 1); }
  }

  /** How many buckets below `pct` have the remainder of `v` by `g`. */
  function Share(g: nat, v: nat, pct: nat): nat
    requires g > 0
  {
    (pct + g - 1 - v % g) / g
  }

  lemma DivIs(x: int, d: nat, q: int, r: nat)
    requires d > 0 && r < d && x == q * d + r
    ensures x / d == q
  {
    ModIs(x, d, q, r);
    var k := x / d;
    assert x == k * d + x % d;
    CancelFactor(k, q, d);
  }

  lemma ShareNext(g: nat, v: nat, pct: nat)
    requires g > 0
    ensures Share(g, v, pct + 1) == Share(g, v, pct) + (if pct % g == v % g then 1 else 0)
  {
    var q := Quotient(pct, g);
    var s, r := pct % g, v % g;
    assert (q + 1) * g == q * g + g;
    if s < r {
      DivIs(pct + g - 1 - r, g, q, s + g - 1 - r);
      DivIs(pct + g - r, g, q, s + g - r);
    } else if s == r {
      DivIs(pct + g - 1 - r, g, q, g - 1);
      DivIs(pct + g - r, g, q + 1, 0);
    } else {
      DivIs(pct + g - 1 - r, g, q + 1, s - 1 - r);
      DivIs(pct + g - r, g, q + 1, s - r);
    }
  }

  lemma ShareEnds(g: nat, v: nat, n: nat)
    requires g > 0 && n * g == 100
    ensures Share(g, v, 0) == 0 && Share(g, v, 100) == n
  {
    DivIs(g - 1 - v % g, g, 0, g - 1 - v % g);
    DivIs(100 + g - 1 - v % g, g, n, g - 1 - v % g);
  }

  lemma {:induction false} AtMost(len: nat, v: nat, n: nat, pct: nat)
    requires len > 0 && n * Gcd(len, 100) == 100
    ensures CountBelow(len, v, n, pct) <= Share(Gcd(len, 100), v, pct)
    decreases pct
  {
    hide Gcd, CountBelow, CountAt, Share;
    if pct == 0 {
      CountBelowEnds(len, v, n);
    } else {
      AtMost(len, v, n, pct - 1);
      CountBelowNext(len, v, n, pct - 1);
      AtMostOneEach(len, v, n, n, pct - 1);
      ShareNext(Gcd(len, 100), v, pct - 1);
    }
  }

  lemma {:induction false} AtLeast(len: nat, v: nat, n: nat, pct: nat)
    requires len > 0 && n * Gcd(len, 100) == 100 && pct <= 100
    ensures CountBelow(len, v, n, pct) >= Share(Gcd(len, 100), v, pct)
    decreases 100 - pct
  {
    hide Gcd, CountBelow, CountAt, Share;
    if pct == 100 {
      CountBelowEnds(len, v, n);
      ShareEnds(Gcd(len, 100), v, n);
    } else {
      AtLeast(len, v, n, pct + 1);
      CountBelowNext(len, v, n, pct);
      AtMostOneEach(len, v, n, n, pct);
      ShareNext(Gcd(len, 100), v, pct);
    }
  }

  lemma {:induction false} CountBelowAgain(len: nat, v: nat, n: nat, k: nat, pct: nat)
    requires len > 0 && n * Gcd(len, 100) == 100
    ensures CountBelow(len, v, n + k, pct) == CountBelow(len, v, n, pct) + CountBelow(len, v, k, pct)
    decreases k
  {
    hide Gcd, Bucket;
    if k > 0 {
      CountBelowAgain(len, v, n, k - 1, pct);
      BucketsOfVariant(len, v, n, k - 1);
    }
  }

  lemma {:induction false} CountBelowPeriods(len: nat, v: nat, n: nat, k: nat, pct: nat)
    requires len > 0 && n * Gcd(len, 100) == 100
    ensures CountBelow(len, v, k * n, pct) == k * CountBelow(len, v, n, pct)
    decreases k
  {
    hide Gcd, Bucket;
    var c := CountBelow(len, v, n, pct);
    if k == 0 {
      assert k * n == 0 && k * c == 0;
    } else {
      CountBelowPeriods(len, v, n, k - 1, pct);
      DifferenceTimes(k, 1, n);
      DifferenceTimes(k, 1, c);
      CountBelowAgain(len, v, n, (k - 1) * n, pct);
    }
  }

  /** Of the hundred hashes of a variant, the factor shared with 100 times its share are below the rollout. */
  lemma BelowRollout(len: nat, v: nat, pct: nat)
    requires len > 0 && pct <= 100
    ensures CountBelow(len, v, 100, pct) == Gcd(len, 100) * Share(Gcd(len, 100), v, pct)
  {
    hide Gcd, CountBelow, Share;
    var g := Gcd(len, 100);
    var x, y, m, n := Bezout(len, 100);
    FactorIsNat(n, g);
    AtMost(len, v, n, pct);
    AtLeast(len, v, n, pct);
    CountBelowPeriods(len, v, n, g, pct);
    assert g * n == 100;
  }

  lemma FactorIsNat(n: int, g: nat)
    requires n * g == 100
    ensures n >= 0
  {
    AtLeastOnce(n, g);
  }

  /** 1 if the hash shows variant `v`. */
  function Shows(len: nat, pct: int, v: nat, h: nat): nat
    requires len > 0
  {
    if VariantOf(h, len, pct) == Some(v) then 1 else 0
  }

  /** How many of `n` consecutive hashes show variant `v`. */
  function Users(len: nat, pct: int, v: nat, start: nat, n: nat): nat
    requires len > 0
  {
    if n == 0 then 0 else Users(len, pct, v, start, n - 1) + Shows(len, pct, v, start + n - 1)
  }

  lemma ShowsInBlock(len: nat, pct: nat, v: nat, q: nat, j: nat)
    requires v < len && j < len
    ensures Shows(len, pct, v, q * len + j) == if v == j && Bucket(len, v, q) < pct then 1 else 0
  {
    ModIs(q * len + j, len, q, j);
  }

  lemma {:induction false} UsersInBlock(len: nat, pct: nat, v: nat, q: nat, j: nat)
    requires v < len && j <= len
    ensures Users(len, pct, v, q * len, j) == if v < j && Bucket(len, v, q) < pct then 1 else 0
  {
    if j > 0 {
      UsersInBlock(len, pct, v, q, j - 1);
      ShowsInBlock(len, pct, v, q, j - 1);
    }
  }

  lemma {:induction false} UsersAppend(len: nat, pct: int, v: nat, start: nat, m: nat, n: nat)
    requires len > 0
    ensures Users(len, pct, v, start, m + n) == Users(len, pct, v, start, m) + Users(len, pct, v, start + m, n)
  {
    if n > 0 { UsersAppend(len, pct, v, start, m, n - 1); }
  }

  lemma {:induction false} UsersInBlocks(len: nat, pct: nat, v: nat, k: nat)
    requires v < len
    ensures Users(len, pct, v, 0, k * len) == CountBelow(len, v, k, pct)
  {
    if k > 0 {
      hide Users, Bucket, Shows;
      UsersInBlocks(len, pct, v, k - 1);
      UsersInBlock(len, pct, v, k - 1, len);
      DifferenceTimes(k, 1, len);
      UsersAppend(len, pct, v, 0, (k - 1) * len, len);
    } else {
      assert k * len == 0;
    }
  }

  /** The assignment repeats after `100 * len` hashes. */
  lemma Periodic(len: nat, pct: int, v: nat, h: nat)
    requires len > 0
    ensures Shows(len, pct, v, h + 100 * len) == Shows(len, pct, v, h)
  {
    var a := Quotient(h, len);
    var b := Quotient(h, 100);
    assert h + 100 * len == (a + 100) * len + h % len by { assert (a + 100) * len == a * len + 100 * len; }
    assert h + 100 * len == (b + len) * 100 + h % 100;
    ModIs(h + 100 * len, len, a + 100, h % len);
    ModIs(h + 100 * len, 100, b + len, h % 100);
  }

  lemma {:induction false} ShiftedUsers(len: nat, pct: int, v: nat, start: nat)
    requires len > 0
    ensures Users(len, pct, v, start, 100 * len) == Users(len, pct, v, 0, 100 * len)
  {
    if start > 0 {
      hide Shows;
      var n := 100 * len;
      ShiftedUsers(len, pct, v, start - 1);
      UsersAppend(len, pct, v, start - 1, 1, n);
      UsersAppend(len, pct, v, start - 1, n, 1);
      assert Users(len, pct, v, start - 1, 1) == Shows(len, pct, v, start - 1) by {
        assert Users(len, pct, v, start - 1, 0) == 0;
      }
      assert Users(len, pct, v, start - 1 + n, 1) == Shows(len, pct, v, start - 1 + n) by {
        assert Users(len, pct, v, start - 1 + n, 0) == 0;
      }
      Periodic(len, pct, v, start - 1);
    }
  }

  /** Any `100 * len` consecutive hashes show a variant to exactly this many users, whatever the number of
      variants: its share of the buckets, once for each unit of the factor shared with 100. */
  lemma SplitCounts(len: nat, pct: nat, v: nat, start: nat)
    requires v < len && pct <= 100
    ensures Users(len, pct, v, start, 100 * len) == Gcd(len, 100) * Share(Gcd(len, 100), v, pct)
  {
    hide *;
    ShiftedUsers(len, pct, v, start);
    UsersInBlocks(len, pct, v, 100);
    BelowRollout(len, v, pct);
  }

  /** With a number of variants prime to 100 that is `pct` users for each. */
  lemma SplitIsExact(len: nat, pct: nat, v: nat, start: nat)
    requires v < len && Gcd(len, 100) == 1 && pct <= 100
    ensures Users(len, pct, v, start, 100 * len) == pct
  {
    hide Users, Gcd;
    SplitCounts(len, pct, v, start);
    assert v % 1 == 0;
  }

  /** Two variants are shown equally often exactly when the rollout does not tell their remainders apart. */
  lemma EqualSharesIff(len: nat, pct: nat, v: nat, w: nat, start: nat)
    requires v < len && w < len && pct <= 100
    ensures var g := Gcd(len, 100);
      g > 0 && (Users(len, pct, v, start, 100 * len) == Users(len, pct, w, start, 100 * len) <==>
        (v % g < pct % g <==> w % g < pct % g))
  {
    hide Users, Gcd;
    var g := Gcd(len, 100);
    SplitCounts(len, pct, v, start);
    SplitCounts(len, pct, w, start);
    ShareIs(g, v, pct);
    ShareIs(g, w, pct);
    var a, b := Share(g, v, pct), Share(g, w, pct);
    if g * a == g * b { CancelFactor(a, b, g); }
  }

  lemma ShareIs(g: nat, v: nat, pct: nat)
    requires g > 0
    ensures Share(g, v, pct) == pct / g + (if v % g < pct % g then 1 else 0)
  {
    var q := pct / g;
    var s, r := pct % g, v % g;
    assert pct == q * g + s && (q + 1) * g == q * g + g;
    if r < s {
      DivIs(pct + g - 1 - r, g, q + 1, s - 1 - r);
    } else {
      DivIs(pct + g - 1 - r, g, q, s + g - 1 - r);
    }
  }
}
