/** The Python string operations the other modules rely on, over Unicode code points. */
module Text {

  datatype Option<+T> = None | Some(value: T)

  /** The code points that `str.strip()` and `\s` treat as white space. */
  predicate IsSpace(c: char) {
    || c == ' ' || '\t' <= c <= '\r' || '\U{1c}' <= c <= '\U{1f}'
    || c == '\U{85}' || c == '\U{a0}' || c == '\U{1680}' || '\U{2000}' <= c <= '\U{200a}'
    || c == '\U{2028}' || c == '\U{2029}' || c == '\U{202f}' || c == '\U{205f}' || c == '\U{3000}'
  }

  /** The code points at which `str.splitlines` ends a line; each is white space. */
  predicate IsBreak(c: char)
    ensures IsBreak(c) ==> IsSpace(c)
  {
    '\n' <= c <= '\r' || '\U{1c}' <= c <= '\U{1e}' || c == '\U{85}' || c == '\U{2028}' || c == '\U{2029}'
  }

  predicate SpaceIn(s: string, lo: nat, hi: nat)
    requires hi <= |s|
  {
    forall i :: lo <= i < hi ==> IsSpace(s[i])
  }

  function LStrip(s: string): (r: string)
    ensures |r| <= |s| && r == s[|s| - |r|..] && SpaceIn(s, 0, |s| - |r|)
    ensures r != "" ==> !IsSpace(r[0])
  {
    if s != "" && IsSpace(s[0]) then LStrip(s[1..]) else s
  }

  function RStrip(s: string): (r: string)
    ensures |r| <= |s| && r == s[..|r|] && SpaceIn(s, |r|, |s|)
    ensures r != "" ==> !IsSpace(r[|r| - 1])
  {
    if s != "" && IsSpace(s[|s| - 1]) then RStrip(s[..|s| - 1]) else s
  }

  function Strip(s: string): string {
    RStrip(LStrip(s))
  }

  /** `s[:n]`. */
  function Take(s: string, n: nat): string {
    if |s| <= n then s else s[..n]
  }

  /** Stripping is determined by the outermost characters that are not space. */
  lemma {:induction false} RStripAt(s: string, k: nat)
    requires k <= |s| && SpaceIn(s, k, |s|) && (k > 0 ==> !IsSpace(s[k - 1]))
    ensures RStrip(s) == s[..k]
  {
    if k < |s| {
      RStripAt(s[..|s| - 1], k);
      assert s[..|s| - 1][..k] == s[..k];
    }
  }

  lemma {:induction false} LStripAt(s: string, k: nat)
    requires k <= |s| && SpaceIn(s, 0, k) && (k < |s| ==> !IsSpace(s[k]))
    ensures LStrip(s) == s[k..]
  {
    if k > 0 {
      LStripAt(s[1..], k - 1);
      assert s[1..][k - 1..] == s[k..];
    }
  }

  lemma RStripTwice(s: string)
    ensures RStrip(RStrip(s)) == RStrip(s)
  {
    var r := RStrip(s);
    assert r != "" ==> !IsSpace(r[|r| - 1]);
    RStripAt(r, |r|);
  }

  lemma StripTwice(s: string)
    ensures Strip(Strip(s)) == Strip(s)
  {
    var t := RStrip(LStrip(s));
    LStripAt(t, 0);
    RStripAt(t, |t|);
  }

  /** Stripping keeps exactly the texts without space at their ends, and shortens all others. */
  lemma StripIff(p: string)
    ensures |Strip(p)| <= |p| && (|Strip(p)| == |p| ==> Strip(p) == p)
    ensures |Strip(p)| == |p| <==> p == "" || (!IsSpace(p[0]) && !IsSpace(p[|p| - 1]))
  {
    hide LStrip, RStrip, IsSpace;
    var l := LStrip(p);
    if p != "" && !IsSpace(p[0]) && !IsSpace(p[|p| - 1]) {
      LStripAt(p, 0);
      RStripAt(p, |p|);
    }
    if |l| == |p| {
      assert l == p[0..] == p;
      assert |RStrip(l)| == |l| ==> RStrip(l) == l[..|l|] == l;
    }
  }

  predicate EndsWith(s: string, p: string) {
    |p| <= |s| && s[|s| - |p|..] == p
  }

  predicate OccursAt<T(==)>(s: seq<T>, p: seq<T>, i: nat) {
    i + |p| <= |s| && s[i..i + |p|] == p
  }

  lemma ConcatAssociates<T>(a: seq<T>, b: seq<T>, c: seq<T>)
    ensures a + (b + c) == (a + b) + c
  {
  }

  predicate NoRepeats(s: seq<string>) {
    forall i, j :: 0 <= i < j < |s| ==> s[i] != s[j]
  }

  lemma SliceOfSlice<T>(s: seq<T>, lo: nat, hi: nat, i: nat, j: nat)
    requires lo <= hi <= |s| && i <= j <= hi - lo
    ensures s[lo..hi][i..j] == s[lo + i..lo + j]
  {
    var a, b := s[lo..hi][i..j], s[lo + i..lo + j];
    assert |a| == |b|;
    forall k | 0 <= k < |a| ensures a[k] == b[k] {
      assert a[k] == s[lo..hi][i + k] == s[lo + i + k];
    }
  }

  lemma OccursChar<T>(s: seq<T>, p: seq<T>, i: nat, k: nat)
    requires k < |p|
    ensures OccursAt(s, p, i) ==> i + |p| <= |s| && s[i + k] == p[k]
  {
    if OccursAt(s, p, i) { assert s[i..i + |p|][k] == s[i + k]; }
  }

  lemma OccursShifted<T>(s: seq<T>, p: seq<T>, k: nat, i: nat)
    requires k <= |s|
    ensures OccursAt(s[k..], p, i) <==> OccursAt(s, p, k + i)
  {
    assert s[k..] == s[k..|s|];
    if k + i + |p| <= |s| { SliceOfSlice(s, k, |s|, i, i + |p|); }
  }

  lemma SliceOccurs<T>(s: seq<T>, p: seq<T>, lo: nat, hi: nat, j: nat)
    requires lo <= hi <= |s| && OccursAt(s[lo..hi], p, j)
    ensures OccursAt(s, p, lo + j) && lo + j + |p| <= hi
  {
    SliceOfSlice(s, lo, hi, j, j + |p|);
  }

  /** `s.find(p, from)`, with None for -1. */
  function Find(s: string, p: string, from: nat): (r: Option<nat>)
    ensures r.Some? ==> from <= r.value && OccursAt(s, p, r.value)
    ensures r.Some? ==> forall j :: from <= j < r.value ==> !OccursAt(s, p, j)
    ensures r.None? ==> forall j :: from <= j ==> !OccursAt(s, p, j)
    decreases |s| - from
  {
    if from > |s| then None
    else if OccursAt(s, p, from) then Some(from)
    else Find(s, p, from + 1)
  }

  /** `find` stops at the first occurrence. */
  lemma {:induction false} FindAt(s: string, p: string, from: nat, i: nat)
    requires from <= i && OccursAt(s, p, i)
    requires forall j :: from <= j < i ==> !OccursAt(s, p, j)
    ensures Find(s, p, from) == Some(i)
    decreases i - from
  {
    if from < i { FindAt(s, p, from + 1, i); }
  }

  /** Python's `<` on strings. */
  predicate Less(a: string, b: string) {
    if b == "" then false
    else if a == "" then true
    else if a[0] != b[0] then a[0] < b[0]
    else Less(a[1..], b[1..])
  }

  lemma {:induction false} LessIsStrictTotal(a: string, b: string)
    ensures !(Less(a, b) && Less(b, a)) && (Less(a, b) || Less(b, a) <==> a != b)
  {
    if a != "" && b != "" && a[0] == b[0] {
      LessIsStrictTotal(a[1..], b[1..]);
      assert a == [a[0]] + a[1..] && b == [b[0]] + b[1..];
    }
  }

  lemma {:induction false} LessTransitive(a: string, b: string, c: string)
    requires Less(a, b) && Less(b, c)
    ensures Less(a, c)
  {
    if a != "" && a[0] == b[0] == c[0] { LessTransitive(a[1..], b[1..], c[1..]); }
  }

  /** `sep.join(parts)`. */
  function Join(parts: seq<string>, sep: string): string {
    if parts == [] then ""
    else if |parts| == 1 then parts[0]
    else parts[0] + sep + Join(parts[1..], sep)
  }
}
