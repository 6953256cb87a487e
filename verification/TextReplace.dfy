/**
 Python's `str.replace` on texts made of lines: where a block of lines can occur, and when replacing it
 changes that one place and nothing else.
 */
module TextReplace {
  import opened Text

  /** `s.replace(pat, to)`. */
  function Replace(s: string, pat: string, to: string): string {
    if pat == "" then to + (if s == "" then "" else [s[0]] + Replace(s[1..], pat, to))
    else if s == "" then ""
    else if OccursAt(s, pat, 0) then to + Replace(s[|pat|..], pat, to)
    else [s[0]] + Replace(s[1..], pat, to)
  }

  // ----- lines -----

  predicate WholeLines(t: string) {
    t == "" || IsBreak(t[|t| - 1])
  }

  predicate OneLine(h: string) {
    h != "" && forall c :: c in h ==> !IsBreak(c)
  }

  ghost predicate Absent(t: string, h: string) {
    forall i: nat :: !OccursAt(t, h, i)
  }

  /** The first line of a text, without its end. */
  function Head(t: string): (h: string)
    ensures |h| <= |t| && h == t[..|h|]
    ensures forall c :: c in h ==> !IsBreak(c)
  {
    if t == "" || IsBreak(t[0]) then "" else [t[0]] + Head(t[1..])
  }

  /** No break between two texts lets a line of one run into the other. */
  predicate Apart(a: string, b: string) {
    WholeLines(a) || b == "" || IsBreak(b[0])
  }

  /** Text within one line that occurs in two texts that are apart occurs in one of them. */
  lemma OccursInOne(a: string, b: string, h: string, i: nat)
    requires Apart(a, b) && OneLine(h) && OccursAt(a + b, h, i)
    ensures OccursAt(a, h, i) || (i >= |a| && OccursAt(b, h, i - |a|))
  {
    var s := a + b;
    forall q | i <= q < i + |h| ensures !IsBreak(s[q]) {
      assert s[q] == h[q - i];
    }
    assert a != "" ==> s[|a| - 1] == a[|a| - 1];
    assert b != "" ==> s[|a|] == b[0];
    assert i >= |a| || i + |h| <= |a|;
    if i >= |a| {
      assert s[i..i + |h|] == b[i - |a|..i - |a| + |h|];
    } else {
      assert s[i..i + |h|] == a[i..i + |h|];
    }
  }

  lemma AbsentJoin(a: string, b: string, h: string)
    requires Apart(a, b) && OneLine(h) && Absent(a, h) && Absent(b, h)
    ensures Absent(a + b, h)
  {
    hide OccursAt, WholeLines, OneLine;
    forall i: nat ensures !OccursAt(a + b, h, i) {
      if OccursAt(a + b, h, i) { OccursInOne(a, b, h, i); }
    }
  }

  /** Trimming a text puts no new line into it. */
  lemma TrimmedLacks(text: string)
    ensures forall h :: OneLine(h) && Absent(text, h) ==> Absent(RStrip(text) + "\n\n", h)
  {
    hide OccursAt, RStrip;
    var r := RStrip(text);
    forall h | OneLine(h) && Absent(text, h) ensures Absent(r + "\n\n", h) {
      forall i: nat ensures !OccursAt(r, h, i) {
        OccursInPrefix(text, |r|, h, i);
      }
      AbsentAfterBreaks(r, "\n\n", h);
    }
  }

  lemma OccursInPrefix(text: string, n: nat, h: string, i: nat)
    requires n <= |text|
    ensures OccursAt(text[..n], h, i) ==> OccursAt(text, h, i)
  {
    if i + |h| <= n { SliceOfSlice(text, 0, n, i, i + |h|); }
    assert text[..n] == text[0..n];
  }

  lemma AllBreaks(t: string, h: string)
    requires OneLine(h) && forall c :: c in t ==> IsBreak(c)
    ensures Absent(t, h)
  {
    forall i: nat ensures !OccursAt("", h, i) {
    }
    AbsentAfterBreaks("", t, h);
    assert "" + t == t;
  }

  lemma AbsentAfterBreaks(t: string, breaks: string, h: string)
    requires OneLine(h) && (forall c :: c in breaks ==> IsBreak(c))
    ensures Absent(t, h) ==> Absent(t + breaks, h)
  {
    var s := t + breaks;
    forall q | |t| <= q < |s| ensures IsBreak(s[q]) {
      assert s[q] == breaks[q - |t|];
    }
    forall i: nat ensures OccursAt(s, h, i) ==> OccursAt(t, h, i) {
      if OccursAt(s, h, i) {
        assert s[i + |h| - 1] == h[|h| - 1] && h[|h| - 1] in h;
        assert s[i..i + |h|] == t[i..i + |h|];
      }
    }
  }

  // ----- replacing -----

  lemma {:induction false} ReplaceNone(s: string, pat: string, to: string)
    requires pat != "" && Absent(s, pat)
    ensures Replace(s, pat, to) == s
  {
    if s != "" {
      assert !OccursAt(s, pat, 0);
      AbsentTail(s, pat, 1);
      ReplaceNone(s[1..], pat, to);
    }
  }

  lemma AbsentTail(s: string, pat: string, k: nat)
    requires k <= |s| && forall i :: i >= k ==> !OccursAt(s, pat, i)
    ensures Absent(s[k..], pat)
  {
    forall i: nat ensures !OccursAt(s[k..], pat, i) {
      OccursShifted(s, pat, k, i);
    }
  }

  /** A text that occurs once is replaced there and nowhere else. */
  lemma {:induction false} ReplaceOnce(pre: string, pat: string, post: string, to: string)
    requires pat != "" && forall i: nat :: OccursAt(pre + pat + post, pat, i) ==> i == |pre|
    ensures Replace(pre + pat + post, pat, to) == pre + to + post
  {
    hide OccursAt, Replace;
    var s := pre + pat + post;
    if pre == "" {
      assert s == pat + post && s[|pat|..] == post;
      StartsWith(pat, post);
      AbsentTail(s, pat, |pat|);
      ReplaceNone(post, pat, to);
      ReplaceHere(s, pat, to);
      assert to + post == pre + to + post;
    } else {
      assert s[1..] == pre[1..] + pat + post && s[0] == pre[0];
      forall i: nat | OccursAt(s[1..], pat, i) ensures i == |pre[1..]| {
        OccursShifted(s, pat, 1, i);
      }
      ReplaceOnce(pre[1..], pat, post, to);
      ReplaceHere(s, pat, to);
      assert [s[0]] + (pre[1..] + to + post) == pre + to + post;
    }
  }

  lemma StartsWith(pat: string, post: string)
    ensures OccursAt(pat + post, pat, 0)
  {
  }

  lemma ReplaceHere(s: string, pat: string, to: string)
    requires pat != "" && s != ""
    ensures OccursAt(s, pat, 0) ==> |pat| <= |s| && Replace(s, pat, to) == to + Replace(s[|pat|..], pat, to)
    ensures !OccursAt(s, pat, 0) ==> Replace(s, pat, to) == [s[0]] + Replace(s[1..], pat, to)
  {
  }

  // ----- when one place alone is replaced -----

  /** The scan for matches, which do not overlap, comes by the place. */
  predicate ScanReaches(s: string, pat: string, p: nat)
    requires p <= |s| && pat != ""
    decreases |s|
  {
    if p == 0 then true
    else if OccursAt(s, pat, 0) then |pat| <= p && ScanReaches(s[|pat|..], pat, p - |pat|)
    else ScanReaches(s[1..], pat, p - 1)
  }

  /** How replacing moves the length. */
  lemma {:induction false} ReplaceLength(s: string, pat: string, to: string)
    requires pat != ""
    ensures |to| == |pat| ==> |Replace(s, pat, to)| == |s|
    ensures |to| > |pat| ==> |Replace(s, pat, to)| >= |s| && (!Absent(s, pat) ==> |Replace(s, pat, to)| > |s|)
    ensures |to| < |pat| ==> |Replace(s, pat, to)| <= |s| && (!Absent(s, pat) ==> |Replace(s, pat, to)| < |s|)
    decreases |s|
  {
    if s != "" {
      hide Replace, OccursAt;
      ReplaceHere(s, pat, to);
      if OccursAt(s, pat, 0) {
        ReplaceLength(s[|pat|..], pat, to);
      } else {
        ReplaceLength(s[1..], pat, to);
        AbsentBehind(s, pat);
      }
    } else {
      NothingOccurs(pat);
    }
  }

  lemma NothingOccurs(pat: string)
    requires pat != ""
    ensures Absent("", pat)
  {
  }

  lemma AbsentBehind(s: string, pat: string)
    requires s != "" && !OccursAt(s, pat, 0)
    ensures Absent(s, pat) <==> Absent(s[1..], pat)
  {
    hide OccursAt;
    forall i: nat ensures i > 0 ==> (OccursAt(s, pat, i) <==> OccursAt(s[1..], pat, i - 1)) {
      if i > 0 { OccursShifted(s, pat, 1, i - 1); }
    }
    if Absent(s, pat) {
      forall i: nat ensures !OccursAt(s[1..], pat, i) {
        assert !OccursAt(s, pat, i + 1);
      }
    }
  }

  /** A text is unchanged exactly when there is nothing to replace or it is replaced by itself. */
  lemma {:induction false} ReplaceChangesIff(s: string, pat: string, to: string)
    requires pat != ""
    ensures Replace(s, pat, to) == s <==> to == pat || Absent(s, pat)
    decreases |s|
  {
    if s == "" {
      NothingOccurs(pat);
    } else {
      hide Replace, Absent;
      ReplaceHere(s, pat, to);
      if OccursAt(s, pat, 0) {
        var rest := s[|pat|..];
        assert s == pat + rest;
        OccursHere(s, pat);
        ReplaceChangesIff(rest, pat, to);
        ReplaceLength(s, pat, to);
        if Replace(s, pat, to) == s { assert s[..|to|] == to; }
      } else {
        AbsentBehind(s, pat);
        ReplaceChangesIff(s[1..], pat, to);
        assert s == [s[0]] + s[1..];
        if Replace(s, pat, to) == s { assert Replace(s, pat, to)[1..] == s[1..]; }
      }
    }
  }

  lemma OccursHere(s: string, pat: string)
    requires OccursAt(s, pat, 0)
    ensures !Absent(s, pat)
  {
  }

  /** The text with one place replaced. */
  function ReplaceAt(s: string, pat: string, to: string, p: nat): string
    requires p + |pat| <= |s|
  {
    s[..p] + to + s[p + |pat|..]
  }

  /** No match begins outside the place. */
  ghost predicate OnlyWithin(s: string, pat: string, p: nat) {
    forall i: nat :: OccursAt(s, pat, i) ==> p <= i < p + |pat|
  }

  lemma {:induction false} ReplaceAtLeast(s: string, pat: string, to: string, p: nat)
    requires pat != "" && OccursAt(s, pat, p) && ScanReaches(s, pat, p)
    ensures |to| > |pat| ==> |Replace(s, pat, to)| >= |s| + |to| - |pat|
    ensures |to| < |pat| ==> |Replace(s, pat, to)| <= |s| + |to| - |pat|
    decreases |s|
  {
    hide Replace, OccursAt;
    OccursInside(s, pat, p);
    ReplaceHere(s, pat, to);
    if p == 0 {
      ReplaceLength(s[|pat|..], pat, to);
    } else if OccursAt(s, pat, 0) {
      OccursShifted(s, pat, |pat|, p - |pat|);
      ReplaceAtLeast(s[|pat|..], pat, to, p - |pat|);
    } else {
      OccursShifted(s, pat, 1, p - 1);
      ReplaceAtLeast(s[1..], pat, to, p - 1);
    }
  }

  lemma OccursInside(s: string, pat: string, p: nat)
    requires OccursAt(s, pat, p) && pat != ""
    ensures s != "" && p + |pat| <= |s| && s[p..p + |pat|] == pat
  {
  }

  /** Where the scan comes by an occurrence, that place alone is changed exactly when it is replaced by itself
      or no other match begins before or behind it. */
  lemma {:induction false} ReplacedAloneIff(s: string, pat: string, to: string, p: nat)
    requires pat != "" && OccursAt(s, pat, p) && ScanReaches(s, pat, p)
    ensures p + |pat| <= |s|
    ensures Replace(s, pat, to) == ReplaceAt(s, pat, to, p) <==> to == pat || OnlyWithin(s, pat, p)
    decreases |s|
  {
    hide Replace, OccursAt, ScanReaches;
    OccursInside(s, pat, p);
    ReplaceHere(s, pat, to);
    if p == 0 {
      var rest := s[|pat|..];
      ReplaceChangesIff(rest, pat, to);
      WithinFront(s, pat);
      assert ReplaceAt(s, pat, to, 0) == to + rest;
      assert (to + Replace(rest, pat, to))[|to|..] == Replace(rest, pat, to) && (to + rest)[|to|..] == rest;
    } else if OccursAt(s, pat, 0) {
      ScanStep(s, pat, p);
      OccursShifted(s, pat, |pat|, p - |pat|);
      AnotherMatch(s, pat, to, p);
      assert !OnlyWithin(s, pat, p);
    } else {
      ScanStep(s, pat, p);
      OccursShifted(s, pat, 1, p - 1);
      ReplacedAloneIff(s[1..], pat, to, p - 1);
      OneFurther(s, pat, to, p);
    }
  }

  lemma ScanStep(s: string, pat: string, p: nat)
    requires 0 < p <= |s| && pat != "" && ScanReaches(s, pat, p)
    ensures OccursAt(s, pat, 0) ==> |pat| <= p && ScanReaches(s[|pat|..], pat, p - |pat|)
    ensures !OccursAt(s, pat, 0) ==> ScanReaches(s[1..], pat, p - 1)
  {
  }

  lemma WithinFront(s: string, pat: string)
    requires |pat| <= |s|
    ensures OnlyWithin(s, pat, 0) <==> Absent(s[|pat|..], pat)
  {
    hide OccursAt;
    forall i: nat ensures i >= |pat| ==> (OccursAt(s, pat, i) <==> OccursAt(s[|pat|..], pat, i - |pat|)) {
      if i >= |pat| { OccursShifted(s, pat, |pat|, i - |pat|); }
    }
    if OnlyWithin(s, pat, 0) {
      forall i: nat ensures !OccursAt(s[|pat|..], pat, i) {
        assert OccursAt(s, pat, i + |pat|) <==> OccursAt(s[|pat|..], pat, i);
      }
    }
  }

  lemma AnotherMatch(s: string, pat: string, to: string, p: nat)
    requires pat != "" && OccursAt(s, pat, 0) && |pat| <= p && p + |pat| <= |s|
    requires OccursAt(s[|pat|..], pat, p - |pat|) && ScanReaches(s[|pat|..], pat, p - |pat|)
    requires s[p..p + |pat|] == pat && Replace(s, pat, to) == to + Replace(s[|pat|..], pat, to)
    ensures Replace(s, pat, to) == ReplaceAt(s, pat, to, p) <==> to == pat
  {
    hide Replace, ScanReaches;
    var target := ReplaceAt(s, pat, to, p);
    if to == pat {
      ReplaceChangesIff(s, pat, to);
      assert s == s[..p] + s[p..p + |pat|] + s[p + |pat|..];
    } else {
      ReplaceAtLeast(s[|pat|..], pat, to, p - |pat|);
      assert |target| == |s| + |to| - |pat|;
      assert s[..|pat|] == pat && target[..|pat|] == pat;
      assert |to| == |pat| ==> Replace(s, pat, to)[..|pat|] == to;
    }
  }

  lemma OneFurther(s: string, pat: string, to: string, p: nat)
    requires p > 0 && p + |pat| <= |s| && !OccursAt(s, pat, 0)
    requires Replace(s, pat, to) == [s[0]] + Replace(s[1..], pat, to)
    ensures p - 1 + |pat| <= |s[1..]|
    ensures Replace(s, pat, to) == ReplaceAt(s, pat, to, p) <==> Replace(s[1..], pat, to) == ReplaceAt(s[1..], pat, to, p - 1)
    ensures OnlyWithin(s, pat, p) <==> OnlyWithin(s[1..], pat, p - 1)
  {
    hide Replace, OccursAt;
    var r, t := Replace(s[1..], pat, to), ReplaceAt(s[1..], pat, to, p - 1);
    assert s[..p] == [s[0]] + s[1..][..p - 1] && s[p + |pat|..] == s[1..][p - 1 + |pat|..];
    assert ReplaceAt(s, pat, to, p) == [s[0]] + t;
    assert ([s[0]] + r)[1..] == r && ([s[0]] + t)[1..] == t;
    forall i: nat ensures OccursAt(s[1..], pat, i) <==> OccursAt(s, pat, i + 1) {
      OccursShifted(s, pat, 1, i);
    }
    if OnlyWithin(s[1..], pat, p - 1) {
      forall i: nat | OccursAt(s, pat, i) ensures p <= i < p + |pat| {
        assert i > 0 && OccursAt(s[1..], pat, i - 1);
      }
    }
    if OnlyWithin(s, pat, p) {
      forall i: nat | OccursAt(s[1..], pat, i) ensures p - 1 <= i < p - 1 + |pat| {
        assert OccursAt(s, pat, i + 1);
      }
    }
  }

  // ----- replacing a block -----

  /** The declaration line `h` of a block opens it and occurs nowhere else. */
  ghost predicate Opens(h: string, text: string) {
    forall i: nat :: OccursAt(text, h, i) ==> i == 0
  }

  lemma RStripConcat(a: string, b: string)
    ensures RStrip(a + b) == if RStrip(b) == "" then RStrip(a) else a + RStrip(b)
  {
    var s := a + b;
    var r := RStrip(b);
    var k := if r == "" then |RStrip(a)| else |a| + |r|;
    assert r == b[..|r|] && RStrip(a) == a[..|RStrip(a)|];
    forall i | k <= i < |s| ensures IsSpace(s[i]) {
      if i >= |a| {
        assert s[i] == b[i - |a|];
      } else {
        assert s[i] == a[i];
      }
    }
    if k > 0 { assert s[k - 1] == if r == "" then a[k - 1] else r[|r| - 1]; }
    RStripAt(s, k);
  }

  /** Two occurrences of a block of lines that its own first line opens do not overlap. */
  lemma BlocksAreDisjoint(s: string, block: string, i: nat, j: nat)
    requires WholeLines(block) && Head(block) != "" && Opens(Head(block), block)
    requires OccursAt(s, block, i) && OccursAt(s, block, j) && i < j
    ensures i + |block| <= j
  {
    hide Head, WholeLines, Opens;
    var h := Head(block);
    var rest := s[i + |block|..];
    assert s[i..] == block + rest && block[0..|h|] == h;
    SliceOfSlice(s, j, j + |block|, 0, |h|);
    assert OccursAt(s, h, j);
    OccursShifted(s, h, i, j - i);
    OccursInOne(block, rest, h, j - i);
    OpensAtFront(h, block, j - i);
  }

  lemma OpensAtFront(h: string, block: string, i: nat)
    requires Opens(h, block) && i > 0
    ensures !OccursAt(block, h, i)
  {
  }

  lemma {:induction false} ScanReachesDisjoint(s: string, pat: string, p: nat)
    requires pat != "" && p <= |s| && forall i: nat :: i < p && OccursAt(s, pat, i) ==> i + |pat| <= p
    ensures ScanReaches(s, pat, p)
    decreases |s|
  {
    hide OccursAt;
    if p > 0 {
      var k := if OccursAt(s, pat, 0) then |pat| else 1;
      assert k <= p;
      forall i: nat | i < p - k && OccursAt(s[k..], pat, i) ensures i + |pat| <= p - k {
        OccursShifted(s, pat, k, i);
        assert OccursAt(s, pat, k + i);
      }
      ScanReachesDisjoint(s[k..], pat, p - k);
    }
  }

  /** Replacing a block of lines changes that block alone exactly when it is replaced by itself or occurs
      nowhere else. */
  lemma BlockReplacedAloneIff(pre: string, block: string, post: string, to: string)
    requires WholeLines(block) && Head(block) != "" && Opens(Head(block), block)
    ensures Replace(pre + block + post, block, to) == pre + to + post <==>
      to == block || forall i: nat :: OccursAt(pre + block + post, block, i) ==> i == |pre|
  {
    hide Replace, ScanReaches, Opens;
    var s, p := pre + block + post, |pre|;
    assert s[p..p + |block|] == block && s[..p] == pre && s[p + |block|..] == post;
    assert OccursAt(s, block, p);
    forall i: nat | OccursAt(s, block, i) ensures (i < p ==> i + |block| <= p) && (i > p ==> p + |block| <= i) {
      if i < p { BlocksAreDisjoint(s, block, i, p); }
      if i > p { BlocksAreDisjoint(s, block, p, i); }
    }
    ScanReachesDisjoint(s, block, p);
    ReplacedAloneIff(s, block, to, p);
    assert ReplaceAt(s, block, to, p) == pre + to + post;
  }
}
