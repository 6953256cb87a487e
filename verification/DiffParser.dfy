/**
 The hunks of a unified diff, read out of a text that may also hold log lines.
 */
module DiffParser {
  import opened Text

  // ----- paths -----

  function LStripChar(s: string, c: char): (r: string)
    ensures |r| <= |s| && (|r| == |s| <==> s == "" || s[0] != c) && (|r| == |s| ==> r == s)
  {
    if s != "" && s[0] == c then LStripChar(s[1..], c) else s
  }

  function RStripChar(s: string, c: char): (r: string)
    ensures |r| <= |s| && (|r| == |s| <==> s == "" || s[|s| - 1] != c) && (|r| == |s| ==> r == s)
  {
    if s != "" && s[|s| - 1] == c then RStripChar(s[..|s| - 1], c) else s
  }

  function StripChar(s: string, c: char): string {
    RStripChar(LStripChar(s, c), c)
  }

  predicate HasSide(p: string) {
    "a/" <= p || "b/" <= p || "i/" <= p || "w/" <= p || "c/" <= p || "o/" <= p
  }

  function DropSide(p: string): string {
    if HasSide(p) then p[2..] else p
  }

  function DropDots(p: string): (r: string)
    ensures |r| <= |p| && (|r| == |p| <==> !("./" <= p)) && (|r| == |p| ==> r == p)
  {
    if "./" <= p then DropDots(p[2..]) else p
  }

  function NonEmpty(p: string): Option<string> {
    if p == "" then None else Some(p)
  }

  /** None for a path of which nothing is left. */
  function NormalizePath(raw: string): Option<string> {
    NonEmpty(LStripChar(DropDots(DropSide(StripChar(StripChar(Strip(raw), '"'), '\''))), '/'))
  }

  method Normalize(raw: string) returns (r: Option<string>)
    ensures r == NormalizePath(raw)
  {
    if raw == "" {
      return None;
    }
    var p := StripChar(StripChar(Strip(raw), '"'), '\'');
    if HasSide(p) {
      p := p[2..];
    }
    ghost var q := p;
    while "./" <= p
      invariant DropDots(p) == DropDots(q)
      decreases |p|
    {
      p := p[2..];
    }
    p := LStripChar(p, '/');
    return NonEmpty(p);
  }

  lemma StripCharIff(p: string, c: char)
    ensures |StripChar(p, c)| <= |p| && (|StripChar(p, c)| == |p| ==> StripChar(p, c) == p)
    ensures |StripChar(p, c)| == |p| <==> p == "" || (p[0] != c && p[|p| - 1] != c)
  {
  }

  lemma DropSideIff(p: string)
    ensures |DropSide(p)| <= |p| && (|DropSide(p)| == |p| ==> DropSide(p) == p)
    ensures |DropSide(p)| == |p| <==> !HasSide(p)
  {
  }

  lemma SidedIffTwo(p: string)
    ensures HasSide(p) || "./" <= p <==> |p| >= 2 && p[1] == '/' && p[0] in {'a', 'b', 'i', 'w', 'c', 'o', '.'}
  {
    if |p| >= 2 { assert p[..2] == [p[0], p[1]]; }
  }

  /** Which paths every extractor would key as they are written. */
  lemma NormalIff(p: string)
    ensures NormalizePath(p) == Some(p) <==>
      && p != "" && !IsSpace(p[0]) && !IsSpace(p[|p| - 1])
      && p[0] != '"' && p[|p| - 1] != '"' && p[0] != '\'' && p[|p| - 1] != '\''
      && !(|p| >= 2 && p[1] == '/' && p[0] in {'a', 'b', 'i', 'w', 'c', 'o', '.'}) && p[0] != '/'
  {
    SidedIffTwo(p);
    hide Strip, StripChar, DropSide, HasSide, DropDots, LStripChar, IsSpace;
    var a := Strip(p);
    var b := StripChar(a, '"');
    var c := StripChar(b, '\'');
    StripIff(p);
    StripCharIff(a, '"');
    StripCharIff(b, '\'');
    DropSideIff(c);
    var d := DropSide(c);
    var e := DropDots(d);
    var f := LStripChar(e, '/');
    assert |f| <= |e| <= |d| <= |c| <= |b| <= |a| <= |p|;
    assert f == p <==> |f| == |p|;
  }

  const SOURCE_EXT := [
    ".py", ".ts", ".tsx", ".js", ".jsx", ".vue", ".mjs", ".cjs", ".go", ".rs",
    ".java", ".rb", ".c", ".h", ".cc", ".cpp", ".hpp", ".cs", ".php", ".swift",
    ".kt", ".scala", ".sh", ".sql", ".css", ".scss", ".json", ".yaml", ".yml",
    ".toml", ".md", ".prisma", ".graphql"]

  /** The letters whose lower case is an ASCII letter; U+212A is the Kelvin sign. */
  function LowerChar(c: char): char {
    if 'A' <= c <= 'Z' then c + 32 as char else if c == '\U{212a}' then 'k' else c
  }

  lemma LowerIs(c: char)
    ensures 'A' <= c <= 'Z' ==> LowerChar(c) as int == c as int + ('a' as int - 'A' as int)
    ensures !('A' <= c <= 'Z') && c != '\U{212a}' ==> LowerChar(c) == c
    ensures LowerChar('\U{212a}') == 'k'
  {
  }

  function Lower(s: string): string {
    seq(|s|, i requires 0 <= i < |s| => LowerChar(s[i]))
  }

  predicate LooksLikeSourcePath(p: string) {
    && |p| >= 3 && ' ' !in p
    && p != "dev/null" && p != "/dev/null" && p[|p| - 1] != '/'
    && Find(p, "://", 0).None? && p[0] != '-'
    && exists k :: 0 <= k < |SOURCE_EXT| && EndsWith(Lower(p), SOURCE_EXT[k])
  }

  /** A path is taken for a source exactly when it has three characters or more and no space, is no null device, no
      directory, no option and no address, and ends in one of the extensions, in capitals or not. */
  lemma SourceIff(p: string)
    ensures LooksLikeSourcePath(p) <==>
      && |p| >= 3 && (forall i :: 0 <= i < |p| ==> p[i] != ' ') && p != "dev/null" && p != "/dev/null"
      && p[|p| - 1] != '/' && p[0] != '-' && (forall i: nat :: !OccursAt(p, "://", i))
      && exists k :: 0 <= k < 33 && EndsInLetters(p, SOURCE_EXT[k])
  {
    hide OccursAt, Lower;
    assert |SOURCE_EXT| == 33;
    forall k | 0 <= k < 33 ensures EndsWith(Lower(p), SOURCE_EXT[k]) <==> EndsInLetters(p, SOURCE_EXT[k]) {
      EndsLower(p, SOURCE_EXT[k]);
    }
  }

  /** The text ends so but for capital letters. */
  predicate EndsInLetters(p: string, ext: string) {
    |ext| <= |p| && forall i :: 0 <= i < |ext| ==> LowerChar(p[|p| - |ext| + i]) == ext[i]
  }

  lemma EndsLower(p: string, ext: string)
    ensures EndsWith(Lower(p), ext) <==> EndsInLetters(p, ext)
  {
    hide LowerChar;
    if |ext| <= |p| {
      var end := Lower(p)[|p| - |ext|..];
      assert forall i :: 0 <= i < |ext| ==> end[i] == LowerChar(p[|p| - |ext| + i]);
    }
  }

  // ----- lines -----

  /** The longest run of characters other than white space at the start. */
  function Run(s: string): (r: string)
    ensures r <= s && forall c :: c in r ==> !IsSpace(c)
    ensures |r| == |s| || IsSpace(s[|r|])
  {
    if s == "" || IsSpace(s[0]) then "" else [s[0]] + Run(s[1..])
  }

  /** ` b/(\S+)\s*$`. */
  function MatchSecond(tail: string): Option<string> {
    if !(" b/" <= tail) then None
    else
      var rest := tail[3..];
      var y := Run(rest);
      if y != "" && SpaceIn(rest, |y|, |rest|) then Some(y) else None
  }

  /** `^diff --git a/(\S+) b/(\S+)\s*$`: the second path. */
  function MatchDiffGit(line: string): Option<string> {
    if !("diff --git a/" <= line) then None
    else
      var rest := line[13..];
      var x := Run(rest);
      if x == "" then None else MatchSecond(rest[|x|..])
  }

  /** `^mark(?:side)?(\S+)`: the side is part of the path when nothing else is. */
  function MatchSided(line: string, mark: string, side: string): Option<string> {
    if !(mark <= line) then None
    else
      var rest := line[|mark|..];
      var inner := if side <= rest then Run(rest[|side|..]) else "";
      if inner != "" then Some(inner) else NonEmpty(Run(rest))
  }

  function MatchPlus(line: string): Option<string> {
    MatchSided(line, "+++ ", "b/")
  }

  function MatchMinus(line: string): Option<string> {
    MatchSided(line, "--- ", "a/")
  }

  predicate IsHeader(line: string) {
    MatchDiffGit(line).Some? || MatchPlus(line).Some? || MatchMinus(line).Some?
  }

  /** A line of a hunk, as it is printed. */
  datatype Line = Context(text: string) | Added(text: string) | Removed(text: string) | NoNewline(text: string) | Empty

  function Printed(l: Line): string {
    match l
    case Context(text) => " " + text
    case Added(text) => "+" + text
    case Removed(text) => "-" + text
    case NoNewline(text) => "\\" + text
    case Empty => ""
  }

  function AllPrinted(body: seq<Line>): seq<string> {
    seq(|body|, i requires 0 <= i < |body| => Printed(body[i]))
  }

  /** Its text makes it read as the header of a file: two more signs of its kind, a space and something visible. */
  predicate Misread(l: Line) {
    match l
    case Added(text) => "++ " <= text && |text| > 3 && !IsSpace(text[3])
    case Removed(text) => "-- " <= text && |text| > 3 && !IsSpace(text[3])
    case _ => false
  }

  /** No line of a hunk is printed so. */
  predicate EndsHunk(line: string) {
    line != "" && line[0] != ' ' && line[0] != '+' && line[0] != '-' && line[0] != '\\'
  }

  lemma EndsHunkIff(line: string)
    ensures EndsHunk(line) <==> forall l :: Printed(l) != line
    ensures EndsHunk(line) <==> !BodyLike(line)
  {
    if !EndsHunk(line) {
      var l := if line == "" then Empty else if line[0] == ' ' then Context(line[1..])
               else if line[0] == '+' then Added(line[1..]) else if line[0] == '-' then Removed(line[1..])
               else NoNewline(line[1..]);
      assert Printed(l) == line;
    }
  }

  /** A printed line belongs to a hunk, and is a header exactly when its text makes it read so. */
  lemma PrintedIs(l: Line)
    ensures BodyLike(Printed(l)) && (IsHeader(Printed(l)) <==> Misread(l))
  {
    hide MatchSided, IsSpace, MatchDiffGit, NoSpace;
    var line := Printed(l);
    BodyLikeIsPlain(line);
    SidesAreVisible();
    SidedIff(line, "+++ ", "b/");
    SidedIff(line, "--- ", "a/");
    if l != Empty {
      assert "+++ " <= line <==> l.Added? && "++ " <= l.text by { MarkInFront("+++ ", line, l.text); }
      assert "--- " <= line <==> l.Removed? && "-- " <= l.text by { MarkInFront("--- ", line, l.text); }
      assert |line| > 4 ==> line[4] == l.text[3];
    }
  }

  lemma MarkInFront(mark: string, line: string, text: string)
    requires mark != "" && line != "" && line[1..] == text
    ensures mark <= line <==> mark[0] == line[0] && mark[1..] <= text
  {
    if mark[0] == line[0] && mark[1..] <= text {
      assert line == [line[0]] + text && mark == [mark[0]] + mark[1..];
    }
  }

  lemma SidesAreVisible()
    ensures NoSpace("a/") && NoSpace("b/")
  {
  }

  /** What a line of a hunk begins with. */
  predicate BodyLike(line: string) {
    line == "" || line[0] in " +-\\"
  }

  // ----- the parser -----

  type Entry = (string, string)

  /** The file and the hunk that are open; no hunk is open when `hunk` is empty. */
  datatype State = State(current: Option<string>, hunk: seq<string>, out: seq<Entry>)

  function Flush(s: State): State {
    if s.current.Some? && s.hunk != [] then State(s.current, [], s.out + [(s.current.value, Join(s.hunk, "\n"))])
    else s.(hunk := [])
  }

  function Retarget(s: State, target: Option<string>): State {
    if target.None? || target.value == "dev/null" then s else s.(current := target)
  }

  function Step(s: State, line: string): State {
    if MatchDiffGit(line).Some? then Flush(s).(current := NormalizePath(MatchDiffGit(line).value))
    else if MatchPlus(line).Some? then Retarget(Flush(s), NormalizePath(MatchPlus(line).value))
    else if MatchMinus(line).Some? then
      if s.current.None? then s.(current := NormalizePath(MatchMinus(line).value)) else s
    else if "@@" <= line then Flush(s).(hunk := [line])
    else if s.hunk != [] then
      if BodyLike(line) then s.(hunk := s.hunk + [line]) else Flush(s)
    else s
  }

  function ParseFrom(s: State, lines: seq<string>): State
    decreases |lines|
  {
    if lines == [] then s else ParseFrom(Step(s, lines[0]), lines[1..])
  }

  function Sources(entries: seq<Entry>): seq<Entry> {
    if entries == [] then []
    else
      var e := entries[|entries| - 1];
      Sources(entries[..|entries| - 1]) + (if LooksLikeSourcePath(e.0) then [e] else [])
  }

  function Parse(lines: seq<string>): seq<Entry> {
    Sources(Flush(ParseFrom(State(None, [], []), lines)).out)
  }

  lemma {:induction false} ParseFromConcat(s: State, a: seq<string>, b: seq<string>)
    ensures ParseFrom(s, a + b) == ParseFrom(ParseFrom(s, a), b)
    decreases |a|
  {
    hide Step;
    if a == [] {
      assert a + b == b;
    } else {
      assert (a + b)[1..] == a[1..] + b;
      ParseFromConcat(Step(s, a[0]), a[1..], b);
    }
  }

  lemma {:induction false} SourcesConcat(a: seq<Entry>, b: seq<Entry>)
    ensures Sources(a + b) == Sources(a) + Sources(b)
  {
    hide LooksLikeSourcePath;
    if b == [] {
      assert a + b == a;
    } else {
      var front := b[..|b| - 1];
      assert (a + b)[..|a + b| - 1] == a + front;
      SourcesConcat(a, front);
    }
  }

  method ParseUnifiedDiff(lines: seq<string>) returns (r: seq<Entry>)
    ensures r == Parse(lines)
  {
    hide MatchDiffGit, MatchPlus, MatchMinus, NormalizePath, BodyLike, LooksLikeSourcePath;
    var current: Option<string> := None;
    var hunk: seq<string> := [];
    var out: seq<Entry> := [];
    for i := 0 to |lines|
      invariant State(current, hunk, out) == ParseFrom(State(None, [], []), lines[..i])
    {
      ParseFromLast(lines, i);
      var line := lines[i];
      if MatchDiffGit(line).Some? {
        if current.Some? && hunk != [] { out := out + [(current.value, Join(hunk, "\n"))]; }
        hunk := [];
        current := Normalize(MatchDiffGit(line).value);
      } else if MatchPlus(line).Some? {
        if current.Some? && hunk != [] { out := out + [(current.value, Join(hunk, "\n"))]; }
        hunk := [];
        var target := Normalize(MatchPlus(line).value);
        if target.Some? && target.value != "dev/null" { current := target; }
      } else if MatchMinus(line).Some? {
        if current.None? { current := Normalize(MatchMinus(line).value); }
      } else if "@@" <= line {
        if current.Some? && hunk != [] { out := out + [(current.value, Join(hunk, "\n"))]; }
        hunk := [line];
      } else if hunk != [] {
        if BodyLike(line) {
          hunk := hunk + [line];
        } else {
          if current.Some? { out := out + [(current.value, Join(hunk, "\n"))]; }
          hunk := [];
        }
      }
    }
    assert lines[..|lines|] == lines;
    if current.Some? && hunk != [] { out := out + [(current.value, Join(hunk, "\n"))]; }
    r := [];
    for i := 0 to |out|
      invariant r == Sources(out[..i])
    {
      assert out[..i + 1][..i] == out[..i];
      if LooksLikeSourcePath(out[i].0) { r := r + [out[i]]; }
    }
    assert out[..|out|] == out;
  }

  lemma ParseFromLast(lines: seq<string>, i: nat)
    requires i < |lines|
    ensures var s := State(None, [], []); ParseFrom(s, lines[..i + 1]) == Step(ParseFrom(s, lines[..i]), lines[i])
  {
    hide Step;
    var s := State(None, [], []);
    assert lines[..i + 1] == lines[..i] + [lines[i]];
    ParseFromConcat(s, lines[..i], [lines[i]]);
    var t := ParseFrom(s, lines[..i]);
    assert [lines[i]][1..] == [];
    assert ParseFrom(t, [lines[i]]) == ParseFrom(Step(t, lines[i]), []);
  }

  // ----- what the headers are -----

  predicate NoSpace(p: string) {
    forall c :: c in p ==> !IsSpace(c)
  }

  /** The path is not empty and ends at white space or with the line. */
  predicate PathThen(p: string, rest: string) {
    p != "" && NoSpace(p) && (rest == "" || IsSpace(rest[0]))
  }

  lemma {:induction false} RunOf(p: string, rest: string)
    requires NoSpace(p) && (rest == "" || IsSpace(rest[0]))
    ensures Run(p + rest) == p
  {
    if p == "" {
      assert p + rest == rest;
    } else {
      assert p[0] in p && (p + rest)[1..] == p[1..] + rest;
      RunOf(p[1..], rest);
    }
  }

  /** A line opens a file exactly when it names two paths without white space, with nothing but white space behind;
      the second one counts. */
  lemma GitHeaderIff(line: string, y: string)
    ensures MatchDiffGit(line) == Some(y) <==> exists x: string, w: string :: GitHeader(line, x, y, w)
  {
    hide MatchDiffGit, GitHeader;
    if MatchDiffGit(line) == Some(y) {
      var x, w := MatchedGitHeader(line, y);
    }
    if x: string, w: string :| GitHeader(line, x, y, w) { GitHeaderMatches(line, x, y, w); }
  }

  lemma MatchedGitHeader(line: string, y: string) returns (x: string, w: string)
    requires MatchDiffGit(line) == Some(y)
    ensures GitHeader(line, x, y, w)
  {
    hide Run, IsSpace, MatchSecond;
    var rest := line[13..];
    x := Run(rest);
    w := MatchedSecond(rest[|x|..], y);
    assert line == "diff --git a/" + rest && rest == x + rest[|x|..];
    GitHeaderOf(x, y, w);
  }

  lemma GitHeaderOf(x: string, y: string, w: string)
    ensures "diff --git a/" + (x + (" b/" + (y + w))) == "diff --git a/" + x + " b/" + y + w
  {
  }

  lemma MatchedSecond(tail: string, y: string) returns (w: string)
    requires MatchSecond(tail) == Some(y)
    ensures y != "" && NoSpace(y) && SpaceIn(w, 0, |w|) && tail == " b/" + (y + w)
  {
    hide Run, IsSpace;
    var rest := tail[3..];
    w := rest[|y|..];
    assert rest == y + w && tail == " b/" + rest;
    assert forall i :: 0 <= i < |w| ==> w[i] == rest[|y| + i];
  }

  lemma GitHeaderMatches(line: string, x: string, y: string, w: string)
    requires GitHeader(line, x, y, w)
    ensures MatchDiffGit(line) == Some(y)
  {
    hide Run, IsSpace, MatchSecond;
    SpaceIsSpace();
    var tail := " b/" + (y + w);
    RunOf(x, tail);
    SecondMatches(y, w);
    Dropped("diff --git a/", x + tail);
    Dropped(x, tail);
    assert line == "diff --git a/" + (x + tail);
  }

  lemma SecondMatches(y: string, w: string)
    requires y != "" && NoSpace(y) && SpaceIn(w, 0, |w|)
    ensures MatchSecond(" b/" + (y + w)) == Some(y)
  {
    hide Run, IsSpace;
    RunOf(y, w);
    Dropped(" b/", y + w);
    assert forall i :: |y| <= i < |y + w| ==> (y + w)[i] == w[i - |y|];
  }

  lemma SpaceIsSpace()
    ensures IsSpace(' ')
  {
  }

  predicate GitHeader(line: string, x: string, y: string, w: string) {
    && x != "" && y != "" && NoSpace(x) && NoSpace(y) && SpaceIn(w, 0, |w|)
    && line == "diff --git a/" + x + " b/" + y + w
  }

  /** A marked line names the path behind the mark, without the side unless the side is all of it. */
  lemma SidedIs(mark: string, side: string, p: string, rest: string)
    requires PathThen(p, rest) && side != "" && NoSpace(side)
    ensures MatchSided(mark + side + p + rest, mark, side) == Some(p)
    ensures !(side <= p) || side == p ==> MatchSided(mark + p + rest, mark, side) == Some(p)
  {
    hide Run, IsSpace, NoSpace;
    var line, plain := mark + (side + (p + rest)), mark + (p + rest);
    assert mark + side + p + rest == line && mark + p + rest == plain;
    Dropped(mark, side + (p + rest));
    Dropped(side, p + rest);
    Dropped(mark, p + rest);
    RunOf(p, rest);
    if side == p {
      Dropped(p, rest);
      NoRun(rest);
    } else if !(side <= p) {
      SideStays(side, p, rest);
    }
  }

  lemma NoRun(rest: string)
    requires rest == "" || IsSpace(rest[0])
    ensures Run(rest) == ""
  {
  }

  lemma SideStays(side: string, p: string, rest: string)
    requires NoSpace(side) && (rest == "" || IsSpace(rest[0]))
    ensures side <= p + rest ==> side <= p
  {
    hide IsSpace;
    assert |side| > |p| ==> side[|p|] in side;
    assert rest != "" ==> (p + rest)[|p|] == rest[0];
    assert side <= p + rest && |side| <= |p| ==> side == (p + rest)[..|side|] == p[..|side|];
  }

  /** It names one exactly when something visible stands behind the mark. */
  lemma SidedIff(line: string, mark: string, side: string)
    requires side != "" && NoSpace(side)
    ensures MatchSided(line, mark, side).Some? <==> mark <= line && |line| > |mark| && !IsSpace(line[|mark|])
  {
    hide IsSpace;
    if mark <= line {
      var rest := line[|mark|..];
      assert rest != "" ==> rest[0] == line[|mark|];
      assert side <= rest ==> rest[0] == side[0] && side[0] in side;
      if rest == "" || IsSpace(rest[0]) { NoRun(rest); }
    }
  }

  lemma Dropped(a: string, b: string)
    ensures a <= a + b && (a + b)[|a|..] == b
  {
  }

  // ----- what the headers do -----

  /** The line that opens a file closes the hunk and sets the file; a plus line does so too unless it names the null
      device, and a minus line only while no file is known. */
  lemma HeadersAre(s: State, x: string, p: string, rest: string)
    requires NoSpace(x) && x != "" && PathThen(p, rest)
    ensures SpaceIn(rest, 0, |rest|) ==>
      Step(s, "diff --git a/" + x + " b/" + p + rest) == State(NormalizePath(p), [], Flush(s).out)
    ensures var t := Step(s, "+++ b/" + p + rest);
      && t.hunk == [] && t.out == Flush(s).out
      && t.current == (if NormalizePath(p).Some? && NormalizePath(p) != Some("dev/null") then NormalizePath(p) else s.current)
    ensures Step(s, "--- a/" + p + rest) == if s.current.Some? then s else s.(current := NormalizePath(p))
  {
    hide MatchDiffGit, MatchSided, NormalizePath, IsSpace, NoSpace, GitHeader;
    var git, plus, minus := "diff --git a/" + x + " b/" + p + rest, "+++ b/" + p + rest, "--- a/" + p + rest;
    if SpaceIn(rest, 0, |rest|) {
      assert GitHeader(git, x, p, rest) by { IsGitHeader(x, p, rest); }
      GitHeaderMatches(git, x, p, rest);
    }
    SidesAreVisible();
    SidedIs("+++ ", "b/", p, rest);
    SidedIs("--- ", "a/", p, rest);
    assert "+++ " + "b/" + p + rest == plus && "--- " + "a/" + p + rest == minus;
    assert "+++ " <= plus by { assert plus == "+++ " + ("b/" + p + rest); }
    assert "--- " <= minus by { assert minus == "--- " + ("a/" + p + rest); }
    MarksDiffer(plus);
    MarksDiffer(minus);
  }

  lemma IsGitHeader(x: string, y: string, w: string)
    requires x != "" && y != "" && NoSpace(x) && NoSpace(y) && SpaceIn(w, 0, |w|)
    ensures GitHeader("diff --git a/" + x + " b/" + y + w, x, y, w)
  {
  }

  // ----- one hunk -----

  /** The lines of a hunk that reach its entry: a line readable as `--- x` is dropped, and one readable as
      `+++ x` ends the hunk. */
  function Kept(body: seq<string>): seq<string> {
    if body == [] || MatchPlus(body[0]).Some? then []
    else if MatchMinus(body[0]).Some? then Kept(body[1..])
    else [body[0]] + Kept(body[1..])
  }

  predicate AllBodyLike(body: seq<string>) {
    forall i :: 0 <= i < |body| ==> BodyLike(body[i])
  }

  predicate NoHeaders(body: seq<string>) {
    forall i :: 0 <= i < |body| ==> !IsHeader(body[i])
  }

  lemma BodyLikeIsPlain(line: string)
    requires BodyLike(line)
    ensures MatchDiffGit(line).None? && !("@@" <= line)
    ensures MatchPlus(line).Some? || MatchMinus(line).Some? ==> |line| >= 1
  {
    assert "diff --git a/"[0] == 'd' && "@@"[0] == '@';
  }

  lemma {:induction false} WithoutHunk(s: State, body: seq<string>)
    requires s.hunk == [] && s.current.Some? && AllBodyLike(body)
    ensures var t := ParseFrom(s, body); t.out == s.out && t.hunk == []
    decreases |body|
  {
    hide MatchDiffGit, MatchPlus, MatchMinus, NormalizePath, BodyLike;
    if body != [] {
      BodyLikeIsPlain(body[0]);
      WithoutHunk(Step(s, body[0]), body[1..]);
    }
  }

  lemma {:induction false} WithHunk(s: State, body: seq<string>)
    requires s.hunk != [] && s.current.Some? && AllBodyLike(body)
    ensures Flush(ParseFrom(s, body)).out == s.out + [(s.current.value, Join(s.hunk + Kept(body), "\n"))]
    ensures NoHeaders(body) ==> ParseFrom(s, body) == s.(hunk := s.hunk + body)
    decreases |body|
  {
    hide MatchDiffGit, MatchPlus, MatchMinus, NormalizePath, BodyLike, Join;
    if body == [] {
      assert s.hunk + [] == s.hunk;
    } else {
      BodyLikeIsPlain(body[0]);
      var t := Step(s, body[0]);
      if MatchPlus(body[0]).Some? {
        WithoutHunk(t, body[1..]);
        assert s.hunk + Kept(body) == s.hunk;
      } else {
        WithHunk(t, body[1..]);
        assert (s.hunk + [body[0]]) + Kept(body[1..]) == s.hunk + ([body[0]] + Kept(body[1..]));
        assert (s.hunk + [body[0]]) + body[1..] == s.hunk + body;
      }
    }
  }

  /** A new hunk closes the one before it, and no header can begin like it. */
  lemma StartHunk(s: State, at: string)
    requires "@@" <= at
    ensures Step(s, at) == Flush(s).(hunk := [at]) && !IsHeader(at)
  {
    assert at[0] == '@' && "diff --git a/"[0] == 'd' && "+++ "[0] == '+' && "--- "[0] == '-';
  }

  function Size(lines: seq<string>): nat {
    if lines == [] then 0 else |lines[0]| + 1 + Size(lines[1..])
  }

  lemma {:induction false} JoinSize(first: string, lines: seq<string>)
    ensures |Join([first] + lines, "\n")| == |first| + Size(lines)
    decreases |lines|
  {
    assert ([first] + lines)[1..] == lines;
    if lines != [] {
      JoinSize(lines[0], lines[1..]);
      assert lines == [lines[0]] + lines[1..];
    }
  }

  lemma {:induction false} KeptSize(body: seq<string>)
    ensures Size(Kept(body)) <= Size(body) && (Size(Kept(body)) == Size(body) <==> Kept(body) == body)
    ensures Kept(body) == body <==> forall i :: 0 <= i < |body| ==> MatchPlus(body[i]).None? && MatchMinus(body[i]).None?
  {
    hide MatchPlus, MatchMinus;
    if body != [] {
      KeptSize(body[1..]);
      if MatchPlus(body[0]).None? && MatchMinus(body[0]).None? {
        assert Kept(body)[0] == body[0] && Kept(body)[1..] == Kept(body[1..]);
        assert Kept(body[1..]) == body[1..] ==> Kept(body) == [body[0]] + body[1..] == body;
        assert forall i :: 0 <= i < |body[1..]| ==> body[1..][i] == body[i + 1];
      }
    }
  }

  /** A hunk of printed lines comes back as it is exactly when none of them reads as the header of a file. */
  lemma HunkSurvivesIff(s: State, at: string, body: seq<Line>)
    requires s.current.Some? && "@@" <= at
    ensures Flush(ParseFrom(s, [at] + AllPrinted(body))).out
         == Flush(s).out + [(s.current.value, Join([at] + AllPrinted(body), "\n"))]
      <==> forall l :: l in body ==> !Misread(l)
  {
    hide Printed, BodyLike, IsHeader, Join, Misread, Step;
    PrintedAre(body);
    LinesSurviveIff(s, at, AllPrinted(body));
  }

  lemma PrintedAre(body: seq<Line>)
    ensures AllBodyLike(AllPrinted(body))
    ensures NoHeaders(AllPrinted(body)) <==> forall l :: l in body ==> !Misread(l)
  {
    hide Printed, BodyLike, IsHeader, Misread;
    var lines := AllPrinted(body);
    forall i | 0 <= i < |body| ensures BodyLike(lines[i]) && (IsHeader(lines[i]) <==> Misread(body[i])) {
      PrintedIs(body[i]);
    }
    assert forall i :: 0 <= i < |body| ==> body[i] in body;
  }

  /** Any other line that is no header, nor the beginning of a hunk, ends the hunk. */
  lemma OtherLineEndsHunk(s: State, line: string)
    requires !IsHeader(line) && !("@@" <= line)
    ensures EndsHunk(line) ==> ParseFrom(s, [line]) == Flush(s)
    ensures !EndsHunk(line) && s.hunk != [] ==> ParseFrom(s, [line]) == s.(hunk := s.hunk + [line])
  {
    hide MatchDiffGit, MatchSided, BodyLike, NormalizePath, EndsHunk;
    OneStep(s, line);
    EndsHunkIff(line);
  }

  lemma LinesSurviveIff(s: State, at: string, body: seq<string>)
    requires s.current.Some? && "@@" <= at && AllBodyLike(body)
    ensures Flush(ParseFrom(s, [at] + body)).out == Flush(s).out + [(s.current.value, Join([at] + body, "\n"))]
      <==> NoHeaders(body)
  {
    hide MatchPlus, MatchMinus, MatchDiffGit, Join;
    StartHunk(s, at);
    assert ([at] + body)[0] == at && ([at] + body)[1..] == body;
    var t := Step(s, at);
    WithHunk(t, body);
    JoinSize(at, body);
    JoinSize(at, Kept(body));
    KeptSize(body);
    forall i | 0 <= i < |body| ensures MatchDiffGit(body[i]).None? {
      BodyLikeIsPlain(body[i]);
    }
    var e, e2 := (s.current.value, Join([at] + body, "\n")), (s.current.value, Join([at] + Kept(body), "\n"));
    LastDiffers(Flush(s).out, e, e2);
  }

  lemma LastDiffers<T>(a: seq<T>, x: T, y: T)
    ensures a + [x] == a + [y] <==> x == y
  {
    assert (a + [x])[|a|] == x && (a + [y])[|a|] == y;
  }

  /** For one, the removal of an SQL comment `-- x` is lost from its hunk. */
  lemma RemovedCommentIsDropped(s: State, at: string)
    requires s.current.Some? && "@@" <= at
    ensures Flush(ParseFrom(s, [at, "--- x"])).out == Flush(s).out + [(s.current.value, at)]
  {
    hide Run, MatchDiffGit;
    var line := "--- x";
    assert "--- " + "x" == line && "a/"[0] == 'a' && "--- "[0] == '-';
    SidedMatches("--- ", "a/", "x");
    MarksDiffer(line);
    StartHunk(s, at);
    assert [at, line] == [at] + [line] && [line][1..] == [];
    assert BodyLike(line);
    WithHunk(Step(s, at), [line]);
    assert ([at] + [line])[1..] == [line];
    assert [at] + Kept([line]) == [at];
  }

  // ----- a printed patch -----

  datatype Kind = Changed | Created | Deleted

  /** A hunk, and log lines that follow it. */
  datatype Chunk = Chunk(at: string, body: seq<Line>, noise: seq<string>)

  function HunkOf(c: Chunk): seq<string> {
    [c.at] + AllPrinted(c.body)
  }

  datatype FileDiff = FileDiff(path: string, kind: Kind, meta: seq<string>, chunks: seq<Chunk>)

  predicate Noise(lines: seq<string>) {
    NoHeaders(lines) && forall i :: 0 <= i < |lines| ==> !("@@" <= lines[i])
  }

  predicate ChunkOk(c: Chunk) {
    && "@@" <= c.at && (forall l :: l in c.body ==> !Misread(l))
    && Noise(c.noise) && (c.noise != [] ==> EndsHunk(c.noise[0]))
  }

  predicate FileOk(f: FileDiff) {
    f.path != "" && NoSpace(f.path) && Noise(f.meta) && forall c :: c in f.chunks ==> ChunkOk(c)
  }

  function GitLine(p: string): string {
    "diff --git a/" + p + " b/" + p
  }

  function MinusLine(f: FileDiff): string {
    if f.kind.Created? then "--- /dev/null" else "--- a/" + f.path
  }

  function PlusLine(f: FileDiff): string {
    if f.kind.Deleted? then "+++ /dev/null" else "+++ b/" + f.path
  }

  function ChunkLines(cs: seq<Chunk>): seq<string> {
    if cs == [] then [] else HunkOf(cs[0]) + cs[0].noise + ChunkLines(cs[1..])
  }

  function FileLines(f: FileDiff): seq<string> {
    [GitLine(f.path)] + f.meta + [MinusLine(f), PlusLine(f)] + ChunkLines(f.chunks)
  }

  function PatchLines(files: seq<FileDiff>): seq<string> {
    if files == [] then [] else FileLines(files[0]) + PatchLines(files[1..])
  }

  /** The entries of the chunks under one path. */
  function Entries(path: string, cs: seq<Chunk>): seq<Entry> {
    if cs == [] then [] else [(path, Join(HunkOf(cs[0]), "\n"))] + Entries(path, cs[1..])
  }

  function Expected(files: seq<FileDiff>): seq<Entry> {
    if files == [] then [] else Entries(files[0].path, files[0].chunks) + Expected(files[1..])
  }

  /** What the parser makes of one file. */
  function Reported(f: FileDiff): seq<Entry> {
    var q := NormalizePath(f.path);
    if q.Some? && LooksLikeSourcePath(q.value) then Entries(q.value, f.chunks) else []
  }

  function AllReported(files: seq<FileDiff>): seq<Entry> {
    if files == [] then [] else Reported(files[0]) + AllReported(files[1..])
  }

  // ----- the headers of a file -----

  lemma GitLineMatches(p: string)
    requires p != "" && NoSpace(p)
    ensures MatchDiffGit(GitLine(p)) == Some(p)
  {
    hide MatchDiffGit, NoSpace;
    assert GitLine(p) + "" == GitLine(p);
    GitHeaderMatches(GitLine(p), p, p, "");
  }

  lemma SidedMatches(mark: string, side: string, p: string)
    requires p != "" && NoSpace(p) && side != "" && NoSpace(side)
    ensures MatchSided(mark + side + p, mark, side) == Some(p)
    ensures !(side <= p) ==> MatchSided(mark + p, mark, side) == Some(p)
  {
    SidedIs(mark, side, p, "");
    assert mark + side + p + "" == mark + side + p && mark + p + "" == mark + p;
  }

  lemma MarksDiffer(line: string)
    ensures "+++ " <= line ==> MatchDiffGit(line).None?
    ensures "--- " <= line ==> MatchDiffGit(line).None? && MatchPlus(line).None?
  {
    assert "diff --git a/"[0] == 'd' && "+++ "[0] == '+' && "--- "[0] == '-';
  }

  lemma DevNull()
    ensures NormalizePath("/dev/null") == Some("dev/null")
  {
    var p := "/dev/null";
    LStripAt(p, 0);
    RStripAt(p, |p|);
    assert StripChar(p, '"') == p && StripChar(p, '\'') == p;
    assert p[0] == '/' && p[1..] == "dev/null";
    assert !HasSide(p) && !("./" <= p);
  }

  lemma MinusMatches(f: FileDiff)
    requires f.path != "" && NoSpace(f.path)
    ensures MatchDiffGit(MinusLine(f)).None? && MatchPlus(MinusLine(f)).None?
    ensures MatchMinus(MinusLine(f)) == Some(if f.kind.Created? then "/dev/null" else f.path)
  {
    hide MatchDiffGit, MatchSided;
    MarksDiffer(MinusLine(f));
    if f.kind.Created? {
      assert "--- " + "/dev/null" == "--- /dev/null" && "a/"[0] == 'a';
      SidedMatches("--- ", "a/", "/dev/null");
    } else {
      assert "--- " + "a/" + f.path == "--- a/" + f.path;
      SidedMatches("--- ", "a/", f.path);
    }
  }

  lemma PlusMatches(f: FileDiff)
    requires f.path != "" && NoSpace(f.path)
    ensures MatchDiffGit(PlusLine(f)).None?
    ensures MatchPlus(PlusLine(f)) == Some(if f.kind.Deleted? then "/dev/null" else f.path)
  {
    hide MatchDiffGit, MatchSided;
    MarksDiffer(PlusLine(f));
    if f.kind.Deleted? {
      assert "+++ " + "/dev/null" == "+++ /dev/null" && "b/"[0] == 'b';
      SidedMatches("+++ ", "b/", "/dev/null");
    } else {
      assert "+++ " + "b/" + f.path == "+++ b/" + f.path;
      SidedMatches("+++ ", "b/", f.path);
    }
  }

  /** The file that is open once its headers are read. */
  function Opened(f: FileDiff): Option<string> {
    var q := NormalizePath(f.path);
    if q.None? && f.kind.Created? then Some("dev/null") else q
  }

  lemma {:induction false} NoiseIsSkipped(s: State, noise: seq<string>)
    requires Noise(noise)
    ensures s.hunk == [] ==> ParseFrom(s, noise) == s
    ensures noise != [] && !BodyLike(noise[0]) ==> ParseFrom(s, noise) == Flush(s)
    decreases |noise|
  {
    hide MatchDiffGit, MatchPlus, MatchMinus, NormalizePath, BodyLike, Join;
    if noise != [] {
      assert !IsHeader(noise[0]);
      NoiseIsSkipped(Step(s, noise[0]), noise[1..]);
    }
  }

  lemma HeadersOpen(s: State, f: FileDiff)
    requires FileOk(f)
    ensures var lines := [GitLine(f.path)] + f.meta + [MinusLine(f), PlusLine(f)];
      ParseFrom(s, lines) == Flush(s).(current := Opened(f))
  {
    hide MatchDiffGit, MatchPlus, MatchMinus, NormalizePath, GitLine, MinusLine, PlusLine, BodyLike, ChunkOk;
    var a, b := [GitLine(f.path)], [MinusLine(f), PlusLine(f)];
    GitLineMatches(f.path);
    MinusMatches(f);
    PlusMatches(f);
    DevNull();
    var u := Flush(s).(current := NormalizePath(f.path));
    OneStep(s, GitLine(f.path));
    ParseFromConcat(s, a, f.meta);
    NoiseIsSkipped(u, f.meta);
    ParseFromConcat(s, a + f.meta, b);
    OneStep(Step(u, MinusLine(f)), PlusLine(f));
    assert b[1..] == [PlusLine(f)];
    assert ParseFrom(u, b) == ParseFrom(Step(u, MinusLine(f)), b[1..]);
  }

  lemma OneStep(s: State, line: string)
    ensures ParseFrom(s, [line]) == Step(s, line)
  {
    hide Step;
    assert [line][1..] == [];
    assert ParseFrom(Step(s, line), []) == Step(s, line);
  }

  // ----- the whole patch -----

  lemma {:induction false} BodyAppends(s: State, body: seq<string>)
    requires s.hunk != [] && AllBodyLike(body) && NoHeaders(body)
    ensures ParseFrom(s, body) == s.(hunk := s.hunk + body)
    decreases |body|
  {
    hide MatchDiffGit, MatchPlus, MatchMinus, NormalizePath, BodyLike;
    if body == [] {
      assert s.hunk + [] == s.hunk;
    } else {
      BodyLikeIsPlain(body[0]);
      assert !IsHeader(body[0]);
      var t := Step(s, body[0]);
      BodyAppends(t, body[1..]);
      assert (s.hunk + [body[0]]) + body[1..] == s.hunk + body;
    }
  }

  lemma ChunkCloses(s: State, c: Chunk)
    requires ChunkOk(c)
    ensures Flush(ParseFrom(s, HunkOf(c) + c.noise)) == Flush(Flush(s).(hunk := HunkOf(c)))
    ensures ParseFrom(s, HunkOf(c) + c.noise).current == s.current
  {
    hide Step, IsHeader, BodyLike, Join;
    var at, body := c.at, AllPrinted(c.body);
    PrintedAre(c.body);
    if c.noise != [] { EndsHunkIff(c.noise[0]); }
    ParseFromConcat(s, HunkOf(c), c.noise);
    ParseFromConcat(s, [at], body);
    OneStep(s, at);
    StartHunk(s, at);
    var t := Flush(s).(hunk := [at]);
    BodyAppends(t, body);
    NoiseIsSkipped(t.(hunk := HunkOf(c)), c.noise);
    if c.noise == [] { assert ParseFrom(t.(hunk := HunkOf(c)), []) == t.(hunk := HunkOf(c)); }
  }

  function EntriesOf(current: Option<string>, cs: seq<Chunk>): seq<Entry> {
    if current.None? then [] else Entries(current.value, cs)
  }

  lemma {:induction false} ChunksClose(s: State, cs: seq<Chunk>)
    requires forall c :: c in cs ==> ChunkOk(c)
    ensures Flush(ParseFrom(s, ChunkLines(cs))) == State(s.current, [], Flush(s).out + EntriesOf(s.current, cs))
    decreases |cs|
  {
    hide Step, ChunkOk, Join;
    if cs == [] {
      assert Flush(s).out + [] == Flush(s).out;
    } else {
      var c := cs[0];
      assert ChunkOk(c);
      ChunkIsHunk(c);
      ChunkCloses(s, c);
      var t := ParseFrom(s, HunkOf(c) + c.noise);
      ParseFromConcat(s, HunkOf(c) + c.noise, ChunkLines(cs[1..]));
      ChunksClose(t, cs[1..]);
      if s.current.Some? {
        var e := (s.current.value, Join(HunkOf(c), "\n"));
        assert Flush(t).out == Flush(s).out + [e];
        assert (Flush(s).out + [e]) + Entries(s.current.value, cs[1..])
            == Flush(s).out + ([e] + Entries(s.current.value, cs[1..]));
      } else {
        assert Flush(t).out + [] == Flush(s).out + [];
      }
    }
  }

  lemma ChunkIsHunk(c: Chunk)
    requires ChunkOk(c)
    ensures HunkOf(c) != []
  {
  }

  lemma FileCloses(s: State, f: FileDiff)
    requires FileOk(f)
    ensures Flush(ParseFrom(s, FileLines(f)))
      == State(Opened(f), [], Flush(s).out + EntriesOf(Opened(f), f.chunks))
  {
    hide Step, ChunkOk, Noise, GitLine, MinusLine, PlusLine, ChunkLines, Entries;
    var headers := [GitLine(f.path)] + f.meta + [MinusLine(f), PlusLine(f)];
    ParseFromConcat(s, headers, ChunkLines(f.chunks));
    HeadersOpen(s, f);
    ChunksClose(Flush(s).(current := Opened(f)), f.chunks);
  }

  function AllEntries(files: seq<FileDiff>): seq<Entry> {
    if files == [] then [] else EntriesOf(Opened(files[0]), files[0].chunks) + AllEntries(files[1..])
  }

  lemma {:induction false} FilesClose(s: State, files: seq<FileDiff>)
    requires forall f :: f in files ==> FileOk(f)
    ensures Flush(ParseFrom(s, PatchLines(files))).out == Flush(s).out + AllEntries(files)
    decreases |files|
  {
    hide Step, FileOk, FileLines, Opened, EntriesOf;
    if files == [] {
      assert Flush(s).out + [] == Flush(s).out;
    } else {
      var f := files[0];
      assert FileOk(f);
      FileCloses(s, f);
      var t := ParseFrom(s, FileLines(f));
      ParseFromConcat(s, FileLines(f), PatchLines(files[1..]));
      FilesClose(t, files[1..]);
      assert (Flush(s).out + EntriesOf(Opened(f), f.chunks)) + AllEntries(files[1..])
          == Flush(s).out + (EntriesOf(Opened(f), f.chunks) + AllEntries(files[1..]));
    }
  }

  lemma SourcesOfOne(e: Entry)
    ensures Sources([e]) == if LooksLikeSourcePath(e.0) then [e] else []
  {
    hide LooksLikeSourcePath;
    assert [e][..0] == [];
  }

  lemma {:induction false} SourcesOfEntries(path: string, cs: seq<Chunk>)
    ensures Sources(Entries(path, cs)) == if LooksLikeSourcePath(path) then Entries(path, cs) else []
  {
    hide LooksLikeSourcePath, Join, HunkOf;
    if cs != [] {
      var e := (path, Join(HunkOf(cs[0]), "\n"));
      SourcesOfEntries(path, cs[1..]);
      SourcesConcat([e], Entries(path, cs[1..]));
      SourcesOfOne(e);
    }
  }

  lemma {:induction false} SourcesAreReported(files: seq<FileDiff>)
    ensures Sources(AllEntries(files)) == AllReported(files)
  {
    hide LooksLikeSourcePath, NormalizePath, Entries;
    if files != [] {
      var f := files[0];
      SourcesAreReported(files[1..]);
      SourcesConcat(EntriesOf(Opened(f), f.chunks), AllEntries(files[1..]));
      if Opened(f).Some? { SourcesOfEntries(Opened(f).value, f.chunks); }
      DevNullIsNoSource();
    }
  }

  lemma DevNullIsNoSource()
    ensures !LooksLikeSourcePath("dev/null")
  {
  }

  /** The parser reports each hunk of each file under the normalised path, in order, whatever log lines
      stand before the patch or between its hunks, and leaves out the files that are no sources. */
  lemma ParseReports(preamble: seq<string>, files: seq<FileDiff>)
    requires Noise(preamble) && forall f :: f in files ==> FileOk(f)
    ensures Parse(preamble + PatchLines(files)) == AllReported(files)
  {
    hide Step, FileOk, PatchLines, AllReported, Sources;
    var s := State(None, [], []);
    ParseFromConcat(s, preamble, PatchLines(files));
    NoiseIsSkipped(s, preamble);
    FilesClose(s, files);
    assert [] + AllEntries(files) == AllEntries(files);
    SourcesAreReported(files);
  }

  lemma {:induction false} EntriesSize(path: string, cs: seq<Chunk>)
    ensures |Entries(path, cs)| == |cs|
    ensures forall e :: e in Entries(path, cs) ==> e.0 == path
  {
    if cs != [] { EntriesSize(path, cs[1..]); }
  }

  lemma {:induction false} ReportedIsExpectedIff(files: seq<FileDiff>)
    ensures |AllReported(files)| <= |Expected(files)|
    ensures AllReported(files) == Expected(files) <==>
      forall f :: f in files && f.chunks != [] ==> NormalizePath(f.path) == Some(f.path) && LooksLikeSourcePath(f.path)
  {
    hide NormalizePath, LooksLikeSourcePath, Entries;
    if files != [] {
      var f, rest := files[0], files[1..];
      ReportedIsExpectedIff(rest);
      var q := NormalizePath(f.path);
      EntriesSize(f.path, f.chunks);
      if q.Some? { EntriesSize(q.value, f.chunks); }
      var a, b := Reported(f), Entries(f.path, f.chunks);
      if a != [] && b != [] { assert a[0] in a && b[0] in b; }
      assert a == b <==>
        (f.chunks != [] ==> NormalizePath(f.path) == Some(f.path) && LooksLikeSourcePath(f.path));
      ConcatSplits(a, AllReported(rest), b, Expected(rest));
      assert forall g :: g in files <==> g == f || g in rest;
    }
  }

  lemma ConcatSplits<T>(a: seq<T>, x: seq<T>, b: seq<T>, y: seq<T>)
    requires |a| <= |b| && |x| <= |y|
    ensures a + x == b + y <==> a == b && x == y
  {
    if a + x == b + y {
      assert |a| == |b|;
      assert a == (a + x)[..|a|] && b == (b + y)[..|b|];
      assert x == (a + x)[|a|..] && y == (b + y)[|b|..];
    }
  }

  // ----- texts -----

  predicate NoBreak(line: string) {
    forall c :: c in line ==> !IsBreak(c)
  }

  /** Where the first line ends. */
  function LineEnd(s: string): (n: nat)
    ensures n <= |s| && (forall i :: 0 <= i < n ==> !IsBreak(s[i])) && (n < |s| ==> IsBreak(s[n]))
  {
    if s == "" || IsBreak(s[0]) then 0 else 1 + LineEnd(s[1..])
  }

  /** `str.splitlines()`; a carriage return and a line feed end one line together. */
  function SplitLines(s: string): seq<string>
    decreases |s|
  {
    if s == "" then []
    else
      var n := LineEnd(s);
      var next := if n == |s| then n else if n + 1 < |s| && s[n] == '\r' && s[n + 1] == '\n' then n + 2 else n + 1;
      [s[..n]] + SplitLines(s[next..])
  }

  /** Each line with the end `eol`. */
  function Unlines(lines: seq<string>, eol: string): string {
    if lines == [] then "" else lines[0] + eol + Unlines(lines[1..], eol)
  }

  lemma {:induction false} SplitInvertsUnlines(lines: seq<string>, eol: string)
    requires (forall l :: l in lines ==> NoBreak(l)) && (eol == "\n" || eol == "\r\n")
    ensures SplitLines(Unlines(lines, eol)) == lines
  {
    hide SplitLines, IsBreak;
    if lines == [] {
      assert SplitLines("") == [] by { NothingSplits(); }
    } else {
      var l, rest := lines[0], Unlines(lines[1..], eol);
      assert l in lines;
      SplitFirstLine(l, eol, rest);
      SplitInvertsUnlines(lines[1..], eol);
    }
  }

  lemma NothingSplits()
    ensures SplitLines("") == []
  {
  }

  lemma SplitFirstLine(l: string, eol: string, rest: string)
    requires NoBreak(l) && (eol == "\n" || eol == "\r\n")
    ensures SplitLines(l + eol + rest) == [l] + SplitLines(rest)
  {
    var s := l + eol + rest;
    forall i | 0 <= i < |l| ensures !IsBreak(s[i]) {
      assert s[i] == l[i] && l[i] in l;
    }
    assert s[|l|] == eol[0] && IsBreak(eol[0]);
    assert LineEnd(s) == |l|;
    assert s[..|l|] == l && s[|l| + |eol|..] == rest;
  }

  /** Printing a patch and parsing the text returns the same paths and hunks in the same order exactly when
      each file that has a hunk is a source under a path that is already normalised. */
  lemma PatchRoundTripsIff(preamble: seq<string>, files: seq<FileDiff>, eol: string)
    requires Noise(preamble) && (forall f :: f in files ==> FileOk(f)) && (eol == "\n" || eol == "\r\n")
    requires forall l :: l in preamble + PatchLines(files) ==> NoBreak(l)
    ensures Parse(SplitLines(Unlines(preamble + PatchLines(files), eol))) == Expected(files) <==>
      forall f :: f in files && f.chunks != [] ==> NormalizePath(f.path) == Some(f.path) && LooksLikeSourcePath(f.path)
  {
    hide *;
    SplitInvertsUnlines(preamble + PatchLines(files), eol);
    ParseReports(preamble, files);
    ReportedIsExpectedIff(files);
  }
}
