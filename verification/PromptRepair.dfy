/**
 The prompt of a task under repair.  Each repair strips the directive the previous one appended
 and appends a fresh one, so the specification a human wrote must survive any number of repairs.

 The separator is `tail + "\n"`; the lemmas hold for every tail of the shape `ValidTail`, and the
 program's own tail, two newlines and the marker, is one of them (`ProgramTail`).
 */
module PromptRepair {
  import opened Text

  const MARKER := "AGENTIC-REPAIR DIRECTIVE"

  function ProgramTail(): (tail: string)
    ensures ValidTail(tail)
  {
    var tail := "\n\n" + MARKER;
    assert forall i :: 0 <= i < |MARKER| ==> MARKER[i] != '\n';
    assert tail[|tail| - 1] == 'E';
    tail
  }

  /** Two newlines, then a line of text that does not end in space. */
  predicate ValidTail(tail: string) {
    && |tail| > 2 && tail[0] == tail[1] == '\n'
    && (forall i :: 2 <= i < |tail| ==> tail[i] != '\n')
    && !IsSpace(tail[|tail| - 1])
  }

  function Separator(tail: string): string {
    tail + "\n"
  }

  /** `text[:cut]` when the separator occurs in `text`, `text` itself when it does not. */
  function BeforeSeparator(text: string, tail: string): string {
    var cut := Find(text, Separator(tail), 0);
    if cut.Some? then text[..cut.value] else text
  }

  /** The prompt without repair directives; `limit` is MAX_PROMPT_CHARS. */
  function OriginalPrompt(text: string, tail: string, limit: nat): string {
    Take(Strip(BeforeSeparator(text, tail)), limit)
  }

  /** What a task with no prompt text is asked to do. */
  function Base(spec: string, slug: string): string {
    if spec == "" then "Complete the task '" + slug + "'." else spec
  }

  /** One repair; `body` is the directive, whatever its wording and the log it quotes. */
  function InSessionPrompt(prompt: string, slug: string, body: string, tail: string, limit: nat): string {
    Base(OriginalPrompt(prompt, tail, limit), slug) + Separator(tail) + body
  }

  /** The prompt after a series of repairs with the given directives. */
  function Repaired(prompt: string, slug: string, bodies: seq<string>, tail: string, limit: nat): string {
    if bodies == [] then prompt
    else
      var last := |bodies| - 1;
      InSessionPrompt(Repaired(prompt, slug, bodies[..last], tail, limit), slug, bodies[last], tail, limit)
  }

  // ----- where the separator is found -----

  /** The separator overlaps itself in a single newline only. */
  lemma SeparatorBorder(tail: string, k: nat)
    requires ValidTail(tail) && 1 <= k < |tail|
    ensures Separator(tail)[k..] != Separator(tail)[..|tail| + 1 - k]
  {
    var sep := Separator(tail);
    assert sep[k..][0] == sep[k] && sep[k..][1] == sep[k + 1];
    assert sep[..|sep| - k][0] == sep[..|sep| - k][1] == '\n';
  }

  /** In `base + separator + body` an occurrence that starts inside `base` is either wholly inside
      it or overlaps the appended separator in its one-character border. */
  lemma OverlapIsBorder(base: string, body: string, tail: string, j: nat)
    requires ValidTail(tail)
    requires j < |base| && OccursAt(base + Separator(tail) + body, Separator(tail), j)
    ensures OccursAt(base, Separator(tail), j) || (j + |tail| == |base| && EndsWith(base, tail))
  {
    var sep := Separator(tail);
    var text := base + sep + body;
    var k := |base| - j;
    if k >= |sep| {
      assert base[j..j + |sep|] == text[j..j + |sep|];
    } else {
      SliceOfSlice(text, j, j + |sep|, 0, k);
      SliceOfSlice(text, j, j + |sep|, k, |sep|);
      assert base[j..] == text[j..j + k] == sep[..k];
      assert text[|base|..j + |sep|] == sep[..|sep| - k];
      assert sep[k..] == sep[..|sep| - k];
      if k < |tail| { SeparatorBorder(tail, k); }
      assert sep[..|tail|] == tail;
    }
  }

  lemma BeforeAppendedSeparator(base: string, body: string, tail: string)
    requires ValidTail(tail)
    requires forall j :: 0 <= j ==> !OccursAt(base, Separator(tail), j)
    ensures BeforeSeparator(base + Separator(tail) + body, tail)
         == if EndsWith(base, tail) then base[..|base| - |tail|] else base
  {
    var sep := Separator(tail);
    var text := base + sep + body;
    var at := if EndsWith(base, tail) then |base| - |tail| else |base|;
    assert OccursAt(text, sep, at) by {
      assert text[|base|..|base| + |sep|] == sep;
      if EndsWith(base, tail) { assert text[at..at + |sep|] == base[at..] + ['\n']; }
    }
    forall j | 0 <= j < at ensures !OccursAt(text, sep, j) {
      if OccursAt(text, sep, j) { OverlapIsBorder(base, body, tail, j); }
    }
    FindAt(text, sep, 0, at);
    assert text[..at] == base[..at];
  }

  // ----- one repair -----

  /** The extracted specification is a slice of the text before the separator. */
  lemma OriginalSlice(text: string, tail: string, limit: nat) returns (lo: nat, hi: nat)
    ensures lo <= hi <= |BeforeSeparator(text, tail)| <= |text|
    ensures OriginalPrompt(text, tail, limit) == text[lo..hi]
  {
    hide LStrip, RStrip, SpaceIn, BeforeSeparator;
    var head := BeforeSeparator(text, tail);
    BeforeIsPrefix(text, tail);
    var l := LStrip(head);
    var r := RStrip(l);
    var b := Take(r, limit);
    lo, hi := |head| - |l|, |head| - |l| + |b|;
    assert l == head[lo..|head|] && b == r[..|b|] == l[0..|b|];
    SliceOfSlice(head, lo, |head|, 0, |b|);
    SliceOfSlice(text, 0, |head|, lo, hi);
  }

  lemma BeforeIsPrefix(text: string, tail: string)
    ensures BeforeSeparator(text, tail) <= text && BeforeSeparator(text, tail) == text[0..|BeforeSeparator(text, tail)|]
  {
  }

  lemma OriginalHasNoSeparator(text: string, tail: string, limit: nat)
    ensures forall j :: 0 <= j ==> !OccursAt(OriginalPrompt(text, tail, limit), Separator(tail), j)
  {
    hide IsSpace;
    var sep := Separator(tail);
    var lo, hi := OriginalSlice(text, tail, limit);
    forall j | 0 <= j ensures !OccursAt(text[lo..hi], sep, j) {
      if OccursAt(text[lo..hi], sep, j) {
        SliceOccurs(text, sep, lo, hi, j);
      }
    }
  }

  /** An extracted specification does not start with space, and ends in space only when truncated. */
  lemma OriginalEnds(text: string, tail: string, limit: nat)
    ensures var b := OriginalPrompt(text, tail, limit);
      && |b| <= limit
      && (b != "" ==> !IsSpace(b[0]) && (IsSpace(b[|b| - 1]) ==> |b| == limit))
  {
    var l := LStrip(BeforeSeparator(text, tail));
    var r := RStrip(l);
    assert r == l[..|r|];
  }

  /** The separator cannot start at the front of a text that starts with a letter. */
  lemma FrontSurvives(text: string, tail: string)
    requires ValidTail(tail) && text != "" && text[0] == 'C'
    ensures Strip(BeforeSeparator(text, tail)) != ""
  {
    assert !OccursAt(text, Separator(tail), 0) by {
      if |tail| < |text| { assert text[0..|tail| + 1][0] == 'C'; }
    }
    LStripAt(BeforeSeparator(text, tail), 0);
    RStripNonEmpty(BeforeSeparator(text, tail));
  }

  lemma RStripNonEmpty(s: string)
    requires s != "" && !IsSpace(s[0])
    ensures RStrip(s) != ""
  {
    assert SpaceIn(s, |RStrip(s)|, |s|);
  }

  lemma AppendedSpec(b: string, body: string, tail: string, limit: nat)
    requires ValidTail(tail) && 0 < |b| <= limit && !IsSpace(b[0])
    requires forall j :: 0 <= j ==> !OccursAt(b, Separator(tail), j)
    ensures var again := OriginalPrompt(b + Separator(tail) + body, tail, limit);
      if EndsWith(b, tail) then |again| < |b| else again == RStrip(b)
  {
    hide IsSpace;
    BeforeAppendedSeparator(b, body, tail);
    if !EndsWith(b, tail) { LStripAt(b, 0); }
  }

  /** What extracting from a repaired prompt gives back, for every prompt. */
  lemma AfterOneRepair(prompt: string, slug: string, body: string, tail: string, limit: nat)
    requires ValidTail(tail)
    ensures var b := OriginalPrompt(prompt, tail, limit);
      var again := OriginalPrompt(InSessionPrompt(prompt, slug, body, tail, limit), tail, limit);
      && (b != "" && !EndsWith(b, tail) ==> again == RStrip(b))
      && (b != "" && EndsWith(b, tail) ==> |again| < |b|)
      && (b == "" && limit > 0 ==> again != "")
  {
    hide IsSpace;
    var b := OriginalPrompt(prompt, tail, limit);
    if b != "" {
      OriginalHasNoSeparator(prompt, tail, limit);
      OriginalEnds(prompt, tail, limit);
      AppendedSpec(b, body, tail, limit);
    } else {
      var text := InSessionPrompt(prompt, slug, body, tail, limit);
      assert text[0] == Base("", slug)[0] == 'C';
      FrontSurvives(text, tail);
    }
  }

  /** One repair keeps the specification exactly when it is there, does not end in space (which
      only truncation can cause) and does not end one newline short of a separator. */
  lemma RepairKeepsSpecIff(prompt: string, slug: string, body: string, tail: string, limit: nat)
    requires ValidTail(tail)
    ensures var b := OriginalPrompt(prompt, tail, limit);
      OriginalPrompt(InSessionPrompt(prompt, slug, body, tail, limit), tail, limit) == b
      <==> limit == 0 || (b != "" && !IsSpace(b[|b| - 1]) && !EndsWith(b, tail))
  {
    hide IsSpace;
    var b := OriginalPrompt(prompt, tail, limit);
    AfterOneRepair(prompt, slug, body, tail, limit);
    OriginalEnds(prompt, tail, limit);
    OriginalEnds(InSessionPrompt(prompt, slug, body, tail, limit), tail, limit);
    if b != "" && !IsSpace(b[|b| - 1]) { RStripAt(b, |b|); }
  }

  // ----- any number of repairs -----

  /** However often a task is repaired, its prompt is its own specification followed by the
      directive of the last repair alone: nothing erodes and nothing piles up. */
  lemma {:induction false} RepairsNeverErodeSpec(
      prompt: string, slug: string, bodies: seq<string>, tail: string, limit: nat)
    requires ValidTail(tail) && bodies != []
    requires var b := OriginalPrompt(prompt, tail, limit); b != "" && !EndsWith(RStrip(b), tail)
    ensures var b := OriginalPrompt(prompt, tail, limit);
      var after := Repaired(prompt, slug, bodies, tail, limit);
      && OriginalPrompt(after, tail, limit) == RStrip(b)
      && after == (if |bodies| == 1 then b else RStrip(b)) + Separator(tail) + bodies[|bodies| - 1]
      && (|b| < limit ==> RStrip(b) == b)
  {
    hide IsSpace, OriginalPrompt, RStrip, EndsWith, ValidTail, Separator;
    var b := OriginalPrompt(prompt, tail, limit);
    var last := |bodies| - 1;
    OriginalEnds(prompt, tail, limit);
    StrippedSpec(b, tail);
    RStripAt(RStrip(b), |RStrip(b)|);
    if last > 0 { RepairsNeverErodeSpec(prompt, slug, bodies[..last], tail, limit); }
    AfterOneRepair(Repaired(prompt, slug, bodies[..last], tail, limit), slug, bodies[last], tail, limit);
    if b != "" && !IsSpace(b[|b| - 1]) { RStripAt(b, |b|); }
  }

  /** A specification strips to something, and what ends in the tail does not end in space. */
  lemma StrippedSpec(b: string, tail: string)
    requires b != "" && !IsSpace(b[0]) && ValidTail(tail)
    ensures RStrip(b) != "" && (EndsWith(b, tail) ==> RStrip(b) == b)
  {
    hide IsSpace;
    RStripNonEmpty(b);
    if EndsWith(b, tail) {
      assert b[|b| - 1] == tail[|tail| - 1];
      RStripAt(b, |b|);
    }
  }

  /** The condition of the previous lemma is exact: without it the specification is gone after the
      first or the second repair. */
  lemma TwoRepairsErode(prompt: string, slug: string, body: string, tail: string, limit: nat)
    requires ValidTail(tail)
    requires var b := OriginalPrompt(prompt, tail, limit); b != "" && EndsWith(RStrip(b), tail)
    ensures var b := OriginalPrompt(prompt, tail, limit);
      || OriginalPrompt(Repaired(prompt, slug, [body], tail, limit), tail, limit) != RStrip(b)
      || OriginalPrompt(Repaired(prompt, slug, [body, body], tail, limit), tail, limit) != RStrip(b)
  {
    hide IsSpace;
    var b := OriginalPrompt(prompt, tail, limit);
    RepairedTwice(prompt, slug, body, tail, limit);
    hide *;
    var once := Repaired(prompt, slug, [body], tail, limit);
    if OriginalPrompt(once, tail, limit) == RStrip(b) {
      OriginalEnds(prompt, tail, limit);
      StrippedSpec(b, tail);
      AfterOneRepair(once, slug, body, tail, limit);
    }
  }

  /** Such a specification is any line with the tail behind it: the first repair takes the tail for the
      start of a separator and drops it. */
  lemma TailIsTakenForSeparator(line: string, slug: string, body: string, tail: string, limit: nat)
    requires ValidTail(tail) && line != "" && !IsSpace(line[0]) && |line + tail| <= limit
    requires forall i :: 0 <= i < |line| ==> line[i] != '\n'
    ensures OriginalPrompt(line + tail, tail, limit) == line + tail
    ensures OriginalPrompt(InSessionPrompt(line + tail, slug, body, tail, limit), tail, limit) == RStrip(line)
  {
    hide IsSpace;
    var b := line + tail;
    LineHasNoSeparator(line, tail);
    LStripAt(b, 0);
    RStripAt(b, |b|);
    BeforeAppendedSeparator(b, body, tail);
    assert b[|line|..] == tail && b[..|line|] == line;
    LStripAt(line, 0);
  }

  lemma LineHasNoSeparator(line: string, tail: string)
    requires ValidTail(tail) && forall i :: 0 <= i < |line| ==> line[i] != '\n'
    ensures forall j :: 0 <= j ==> !OccursAt(line + tail, Separator(tail), j)
    ensures BeforeSeparator(line + tail, tail) == line + tail
  {
    var b, sep := line + tail, Separator(tail);
    forall j: nat ensures !OccursAt(b, sep, j) {
      OccursChar(b, sep, j, 0);
      assert j < |line| ==> b[j] == line[j];
    }
  }

  lemma RepairedTwice(prompt: string, slug: string, body: string, tail: string, limit: nat)
    ensures Repaired(prompt, slug, [body, body], tail, limit)
         == InSessionPrompt(Repaired(prompt, slug, [body], tail, limit), slug, body, tail, limit)
  {
    assert [body, body][..1] == [body];
  }
}
