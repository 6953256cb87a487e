/**
 The JavaScript identifier rename: a hand-written scanner that renames whole words of code and
 copies strings, templates and comments (sections 12.4, 12.7 and 12.9 of ECMA-262) byte for byte.
 */
module JsRename {
  import opened Text

  /** What `str.isalpha` and `str.isalnum` answer, left open but for the characters that open or
      close a string or a comment. */
  datatype CharClass = CharClass(alpha: char -> bool, alnum: char -> bool) {
    ghost predicate Valid() {
      && (forall c :: alpha(c) ==> alnum(c))
      && (forall c :: c in {'/', '*', '\n', '\\', '\'', '"', '`'} ==> !alnum(c))
    }

    predicate Start(c: char) {
      alpha(c) || c == '_' || c == '$'
    }

    predicate Part(c: char) {
      alnum(c) || c == '_' || c == '$'
    }

    predicate Identifier(w: string) {
      w != "" && Start(w[0]) && forall i :: 0 <= i < |w| ==> Part(w[i])
    }
  }

  datatype Mode = Code | Line | Block | Quote(q: char)

  /** A string is open only between quotation marks. */
  predicate ValidMode(m: Mode) {
    m.Quote? ==> IsQuote(m.q)
  }

  /** A word of code, or a stretch of anything else. */
  datatype Token = Word(text: string) | Raw(text: string)

  predicate IsQuote(c: char) {
    c == '\'' || c == '"' || c == '`'
  }

  /** Where the word at index `i` of `s` ends. */
  function WordEnd(cc: CharClass, s: string, i: nat): (j: nat)
    requires i <= |s|
    ensures i <= j <= |s| && (forall k :: i <= k < j ==> cc.Part(s[k])) && (j < |s| ==> !cc.Part(s[j]))
    decreases |s| - i
  {
    if i < |s| && cc.Part(s[i]) then WordEnd(cc, s, i + 1) else i
  }

  /** The first token of a text read in the given mode, and the mode behind it. */
  function Step(cc: CharClass, mode: Mode, s: string): (r: (Token, Mode))
    requires s != ""
    ensures 0 < |r.0.text| <= |s| && r.0.text == s[..|r.0.text|]
  {
    var c, pair := s[0], Take(s, 2);
    if mode == Code && pair == "//" then (Raw(pair), Line)
    else if mode == Code && pair == "/*" then (Raw(pair), Block)
    else if mode == Code && IsQuote(c) then (Raw([c]), Quote(c))
    else if mode == Line && c == '\n' then (Raw([c]), Code)
    else if mode == Block && pair == "*/" then (Raw(pair), Code)
    else if mode.Quote? && c == '\\' && |s| >= 2 then (Raw(pair), mode)
    else if mode.Quote? && c == mode.q then (Raw([c]), Code)
    else if mode == Code && cc.Start(c) then (Word(s[..WordEnd(cc, s, 1)]), Code)
    else (Raw([c]), mode)
  }

  function Lex(cc: CharClass, mode: Mode, s: string): seq<Token>
    decreases |s|
  {
    if s == "" then []
    else var r := Step(cc, mode, s); [r.0] + Lex(cc, r.1, s[|r.0.text|..])
  }

  function Replace(t: Token, oldName: string, newName: string): Token {
    if t == Word(oldName) then Word(newName) else t
  }

  function Rename(ts: seq<Token>, oldName: string, newName: string): (r: seq<Token>)
    ensures |r| == |ts| && forall i :: 0 <= i < |ts| ==> r[i] == Replace(ts[i], oldName, newName)
  {
    seq(|ts|, i requires 0 <= i < |ts| => Replace(ts[i], oldName, newName))
  }

  function Render(ts: seq<Token>): string {
    if ts == [] then "" else ts[0].text + Render(ts[1..])
  }

  function Count(ts: seq<Token>, w: string): nat {
    if ts == [] then 0 else (if ts[0] == Word(w) then 1 else 0) + Count(ts[1..], w)
  }

  function Renamed(cc: CharClass, src: string, oldName: string, newName: string): string {
    Render(Rename(Lex(cc, Code, src), oldName, newName))
  }

  /** How often the word stands in the code of a text. */
  function Occurrences(cc: CharClass, src: string, w: string): nat {
    Count(Lex(cc, Code, src), w)
  }

  // ----- the scanner -----

  /** The text before `i` has been scanned: what is left to scan completes the output and count. */
  ghost predicate Scanned(cc: CharClass, src: string, i: nat, mode: Mode, out: string, n: nat,
                          oldName: string, newName: string)
    requires i <= |src|
  {
    var left := Lex(cc, mode, src[i..]);
    && out + Render(Rename(left, oldName, newName)) == Renamed(cc, src, oldName, newName)
    && n + Count(left, oldName) == Count(Lex(cc, Code, src), oldName)
  }

  lemma ScanStart(cc: CharClass, src: string, oldName: string, newName: string)
    ensures Scanned(cc, src, 0, Code, "", 0, oldName, newName)
  {
    assert src[0..] == src;
    var r := Renamed(cc, src, oldName, newName);
    assert "" + r == r;
  }

  lemma ScanEnd(cc: CharClass, src: string, mode: Mode, out: string, n: nat, oldName: string, newName: string)
    requires Scanned(cc, src, |src|, mode, out, n, oldName, newName)
    ensures out == Renamed(cc, src, oldName, newName) && n == Count(Lex(cc, Code, src), oldName)
  {
    assert src[|src|..] == "" && out + "" == out;
  }

  /** One iteration moves the first token of the rest to the output. */
  lemma ScanStep(cc: CharClass, src: string, i: nat, mode: Mode, out: string, n: nat,
                 oldName: string, newName: string)
    requires i < |src| && Scanned(cc, src, i, mode, out, n, oldName, newName)
    ensures var (t, m) := Step(cc, mode, src[i..]);
      Scanned(cc, src, i + |t.text|, m, out + Replace(t, oldName, newName).text,
              n + (if t == Word(oldName) then 1 else 0), oldName, newName)
  {
    hide Step, Rename, Render, Count;
    var rest := src[i..];
    var (t, m) := Step(cc, mode, rest);
    assert rest[|t.text|..] == src[i + |t.text|..];
    var tail := Lex(cc, m, rest[|t.text|..]);
    RenameCons(t, tail, oldName, newName);
    ConcatAssociates(out, Replace(t, oldName, newName).text, Render(Rename(tail, oldName, newName)));
  }

  function PairAt(s: string, i: nat): string
    requires i < |s|
  {
    if i + 2 <= |s| then s[i..i + 2] else s[i..]
  }

  /** The token that starts at index `i`. */
  lemma TokenAt(cc: CharClass, mode: Mode, s: string, i: nat)
    requires i < |s|
    ensures var c, pair := s[i], PairAt(s, i);
      Step(cc, mode, s[i..]) ==
        if mode == Code && (pair == "//" || pair == "/*") then (Raw(pair), if pair == "//" then Line else Block)
        else if mode == Code && IsQuote(c) then (Raw([c]), Quote(c))
        else if mode == Block && pair == "*/" then (Raw(pair), Code)
        else if mode.Quote? && c == '\\' && i + 1 < |s| then (Raw(pair), mode)
        else
          var next := if (mode == Line && c == '\n') || (mode.Quote? && c == mode.q) then Code else mode;
          if mode == Code && cc.Start(c) then (Word(s[i..WordEnd(cc, s, i + 1)]), Code) else (Raw([c]), next)
  {
    hide WordEnd, CharClass.Start;
    assert s[i..][0] == s[i] && Take(s[i..], 2) == PairAt(s, i);
    WordEndSlice(cc, s, i, 1);
    assert s[i..][..WordEnd(cc, s[i..], 1)] == s[i..WordEnd(cc, s, i + 1)];
  }

  /** A character that ends a line comment or a string starts no word. */
  lemma CloserStartsNoWord(cc: CharClass, c: char)
    requires cc.Valid() && (c == '\n' || IsQuote(c))
    ensures !cc.Start(c)
  {
    assert !cc.alnum(c);
  }

  /** The scanner, one loop over the text, computes exactly this renaming and its count. */
  method Js(cc: CharClass, src: string, oldName: string, newName: string) returns (out: string, n: nat)
    requires cc.Valid()
    ensures out == Renamed(cc, src, oldName, newName) && n == Occurrences(cc, src, oldName)
  {
    hide Scanned, Step, Lex, Rename, Render, Count, Renamed, WordEnd, CharClass.Valid, CharClass.Start,
         CharClass.Part;
    var i, state := 0, Code;
    out, n := "", 0;
    ScanStart(cc, src, oldName, newName);
    while i < |src|
      invariant i <= |src| && ValidMode(state) && Scanned(cc, src, i, state, out, n, oldName, newName)
      decreases |src| - i
    {
      ScanStep(cc, src, i, state, out, n, oldName, newName);
      TokenAt(cc, state, src, i);
      var c, pair := src[i], PairAt(src, i);
      if state == Code && (pair == "//" || pair == "/*") {
        state := if pair == "//" then Line else Block;
        out, i := out + pair, i + 2;
      } else if state == Code && IsQuote(c) {
        state := Quote(c);
        out, i := out + [c], i + 1;
      } else if state == Block && pair == "*/" {
        state := Code;
        out, i := out + pair, i + 2;
      } else if state.Quote? && c == '\\' && i + 1 < |src| {
        out, i := out + pair, i + 2;
      } else {
        if (state == Line && c == '\n') || (state.Quote? && c == state.q) {
          state := Code;
          CloserStartsNoWord(cc, c);
        }
        if state == Code && cc.Start(c) {
          var j := i + 1;
          while j < |src| && cc.Part(src[j])
            invariant i < j <= |src| && WordEnd(cc, src, i + 1) == WordEnd(cc, src, j)
          {
            WordEndNext(cc, src, j);
            j := j + 1;
          }
          WordEndStop(cc, src, j);
          var w := src[i..j];
          if w == oldName {
            w, n := newName, n + 1;
          }
          out, i := out + w, j;
        } else {
          out, i := out + [c], i + 1;
        }
      }
    }
    ScanEnd(cc, src, state, out, n, oldName, newName);
  }

  lemma WordEndNext(cc: CharClass, s: string, i: nat)
    requires i < |s| && cc.Part(s[i])
    ensures WordEnd(cc, s, i) == WordEnd(cc, s, i + 1)
  {
  }

  lemma WordEndStop(cc: CharClass, s: string, i: nat)
    requires i <= |s| && (i < |s| ==> !cc.Part(s[i]))
    ensures WordEnd(cc, s, i) == i
  {
  }

  lemma {:induction false} WordEndSlice(cc: CharClass, s: string, lo: nat, i: nat)
    requires lo + i <= |s|
    ensures WordEnd(cc, s, lo + i) == lo + WordEnd(cc, s[lo..], i)
    decreases |s| - i
  {
    if lo + i < |s| && cc.Part(s[lo + i]) { WordEndSlice(cc, s, lo, i + 1); }
  }

  lemma RenameCons(t: Token, ts: seq<Token>, oldName: string, newName: string)
    ensures Rename([t] + ts, oldName, newName) == [Replace(t, oldName, newName)] + Rename(ts, oldName, newName)
    ensures Render(Rename([t] + ts, oldName, newName)) == Replace(t, oldName, newName).text + Render(Rename(ts, oldName, newName))
    ensures Count([t] + ts, oldName) == (if t == Word(oldName) then 1 else 0) + Count(ts, oldName)
  {
    hide Render, Count;
    assert Rename([t] + ts, oldName, newName) == [Replace(t, oldName, newName)] + Rename(ts, oldName, newName);
    RenderCons(Replace(t, oldName, newName), Rename(ts, oldName, newName));
    CountCons(t, ts, oldName);
  }

  lemma CountCons(t: Token, ts: seq<Token>, w: string)
    ensures Count([t] + ts, w) == (if t == Word(w) then 1 else 0) + Count(ts, w)
  {
    assert ([t] + ts)[1..] == ts;
  }

  // ----- what is code and what is not -----

  /** The front of a text stays, and the rest is renamed as a text of its own. */
  ghost predicate Copies(cc: CharClass, front: string, rest: string, oldName: string, newName: string) {
    && Renamed(cc, front + rest, oldName, newName) == front + Renamed(cc, rest, oldName, newName)
    && Occurrences(cc, front + rest, oldName) == Occurrences(cc, rest, oldName)
  }

  /** What can stand between two quotation marks: no such mark and no backslash, but in a pair of a backslash and
      any character. */
  predicate Quotable(q: char, body: string) {
    body == "" || if body[0] == '\\' then |body| >= 2 && Quotable(q, body[2..]) else body[0] != q && Quotable(q, body[1..])
  }

  /** A quotation mark opens a literal in code, and ends it in one. */
  lemma MarkReads(cc: CharClass, q: char, rest: string, oldName: string, newName: string)
    requires q in {'\'', '"', '`'}
    ensures In(cc, Code, [q] + rest, oldName, newName) == [q] + In(cc, Quote(q), rest, oldName, newName)
    ensures Count(Lex(cc, Code, [q] + rest), oldName) == Count(Lex(cc, Quote(q), rest), oldName)
    ensures In(cc, Quote(q), [q] + rest, oldName, newName) == [q] + In(cc, Code, rest, oldName, newName)
    ensures Count(Lex(cc, Quote(q), [q] + rest), oldName) == Count(Lex(cc, Code, rest), oldName)
  {
    hide In, Lex, Count;
    var text := [q] + rest;
    Reads(cc, Code, text, oldName, newName);
    Reads(cc, Quote(q), text, oldName, newName);
    assert text[0] == q && Take(text, 2)[0] == q && text[1..] == rest;
  }

  /** A string literal or a template is copied, whatever stands in it. */
  lemma LiteralIsCopied(cc: CharClass, q: char, body: string, rest: string, oldName: string, newName: string)
    requires q in {'\'', '"', '`'} && Quotable(q, body)
    ensures Copies(cc, [q] + body + [q], rest, oldName, newName)
  {
    hide *;
    var inner := body + ([q] + rest);
    assert [q] + body + [q] + rest == [q] + inner;
    MarkReads(cc, q, inner, oldName, newName);
    QuoteReads(cc, q, body, [q] + rest, oldName, newName);
    MarkReads(cc, q, rest, oldName, newName);
    assert [q] + (body + ([q] + In(cc, Code, rest, oldName, newName))) == [q] + body + [q] + In(cc, Code, rest, oldName, newName);
    IsCopied(cc, [q] + body + [q], rest, oldName, newName);
  }

  /** One that is not closed is copied to the end of the text, which may be a backslash. */
  lemma OpenLiteralIsCopied(cc: CharClass, q: char, body: string, end: string, oldName: string, newName: string)
    requires q in {'\'', '"', '`'} && Quotable(q, body) && (end == "" || end == "\\")
    ensures Copies(cc, [q] + (body + end), "", oldName, newName)
  {
    hide *;
    var text := [q] + (body + end);
    assert text + "" == text;
    MarkReads(cc, q, body + end, oldName, newName);
    QuoteReads(cc, q, body, end, oldName, newName);
    ReadsNothing(cc, oldName, newName);
    if end != "" { EndReads(cc, q, oldName, newName); }
    IsCopied(cc, text, "", oldName, newName);
  }

  lemma EndReads(cc: CharClass, q: char, oldName: string, newName: string)
    ensures In(cc, Quote(q), "\\", oldName, newName) == "\\" && Count(Lex(cc, Quote(q), "\\"), oldName) == 0
  {
    hide In, Lex, Count;
    Reads(cc, Quote(q), "\\", oldName, newName);
    assert "\\"[1..] == "";
    ReadsNothing(cc, oldName, newName);
  }

  /** A line comment is copied, with the line feed that ends it or to the end of the text. */
  lemma LineCommentIsCopied(cc: CharClass, line: string, rest: string, oldName: string, newName: string)
    requires cc.Valid() && '\n' !in line && (rest != "" ==> rest[0] == '\n')
    ensures Copies(cc, "//" + line + Take(rest, 1), rest[|Take(rest, 1)|..], oldName, newName)
  {
    hide In, Lex, Count, Rename, Render;
    var text := "//" + (line + rest);
    assert "//" + line + Take(rest, 1) + rest[|Take(rest, 1)|..] == text;
    Reads(cc, Code, text, oldName, newName);
    assert Take(text, 2) == "//" && text[2..] == line + rest;
    LineReads(cc, line, rest, oldName, newName);
    if rest == "" {
      ReadsNothing(cc, oldName, newName);
    } else {
      Reads(cc, Line, rest, oldName, newName);
      assert Take(rest, 1) == [rest[0]];
    }
    IsCopied(cc, "//" + line + Take(rest, 1), rest[|Take(rest, 1)|..], oldName, newName);
  }

  /** A block comment is copied up to its first end mark. */
  lemma BlockCommentIsCopied(cc: CharClass, body: string, rest: string, oldName: string, newName: string)
    requires cc.Valid() && forall i: nat :: !OccursAt(body, "*/", i)
    ensures Copies(cc, "/*" + body + "*/", rest, oldName, newName)
    ensures Copies(cc, "/*" + body, "", oldName, newName)
  {
    hide In, Lex, Count, Rename, Render;
    var end := "*/" + rest;
    var text, open := "/*" + (body + end), "/*" + (body + "");
    assert "/*" + body + "*/" + rest == text && "/*" + body + "" == open;
    Reads(cc, Code, text, oldName, newName);
    Reads(cc, Code, open, oldName, newName);
    assert Take(text, 2) == Take(open, 2) == "/*" && text[2..] == body + end && open[2..] == body + "";
    BlockReads(cc, body, end, oldName, newName);
    BlockReads(cc, body, "", oldName, newName);
    Reads(cc, Block, end, oldName, newName);
    assert Take(end, 2) == "*/" && end[2..] == rest;
    ReadsNothing(cc, oldName, newName);
    IsCopied(cc, "/*" + body + "*/", rest, oldName, newName);
    IsCopied(cc, "/*" + body, "", oldName, newName);
  }

  /** A whole word of code is renamed exactly when it is the old name, and counted then. */
  lemma WordIsRenamed(cc: CharClass, w: string, rest: string, oldName: string, newName: string)
    requires cc.Valid() && cc.Identifier(w) && (rest != "" ==> !cc.Part(rest[0]))
    ensures Renamed(cc, w + rest, oldName, newName)
         == (if w == oldName then newName else w) + Renamed(cc, rest, oldName, newName)
    ensures Occurrences(cc, w + rest, oldName) == Occurrences(cc, rest, oldName) + (if w == oldName then 1 else 0)
  {
    var text := w + rest;
    Reads(cc, Code, text, oldName, newName);
    WordEndOf(cc, w, rest, 1);
    assert text[0] == w[0] && Take(text, 2)[0] == w[0] && text[..|w|] == w && text[|w|..] == rest;
    assert !cc.alnum('/') && w[0] != '/';
    assert w[0] !in {'\'', '"', '`'};
  }

  /** Any other character of code is copied. */
  lemma OtherIsCopied(cc: CharClass, c: char, rest: string, oldName: string, newName: string)
    requires cc.Valid() && !cc.Start(c) && c !in {'\'', '"', '`'}
    requires c == '/' && rest != "" ==> rest[0] != '/' && rest[0] != '*'
    ensures Copies(cc, [c], rest, oldName, newName)
  {
    hide In, Lex, Count, Rename, Render;
    var text := [c] + rest;
    Reads(cc, Code, text, oldName, newName);
    assert text[1..] == rest && text[0] == c;
    assert |text| >= 2 ==> Take(text, 2)[1] == rest[0];
    assert Take(text, 2)[0] == c;
    IsCopied(cc, [c], rest, oldName, newName);
  }

  function In(cc: CharClass, mode: Mode, s: string, oldName: string, newName: string): string {
    Render(Rename(Lex(cc, mode, s), oldName, newName))
  }

  lemma IsCopied(cc: CharClass, front: string, rest: string, oldName: string, newName: string)
    requires In(cc, Code, front + rest, oldName, newName) == front + In(cc, Code, rest, oldName, newName)
    requires Count(Lex(cc, Code, front + rest), oldName) == Count(Lex(cc, Code, rest), oldName)
    ensures Copies(cc, front, rest, oldName, newName)
  {
  }

  lemma ReadsNothing(cc: CharClass, oldName: string, newName: string)
    ensures forall mode :: In(cc, mode, "", oldName, newName) == "" && Count(Lex(cc, mode, ""), oldName) == 0
  {
  }

  /** One token and the rest. */
  lemma Reads(cc: CharClass, mode: Mode, s: string, oldName: string, newName: string)
    requires s != ""
    ensures var (t, m) := Step(cc, mode, s);
      && In(cc, mode, s, oldName, newName) == Replace(t, oldName, newName).text + In(cc, m, s[|t.text|..], oldName, newName)
      && Count(Lex(cc, mode, s), oldName) == (if t == Word(oldName) then 1 else 0) + Count(Lex(cc, m, s[|t.text|..]), oldName)
  {
    hide Step, Rename, Render, Count;
    var (t, m) := Step(cc, mode, s);
    RenameCons(t, Lex(cc, m, s[|t.text|..]), oldName, newName);
  }

  lemma {:induction false} QuoteReads(cc: CharClass, q: char, body: string, rest: string, oldName: string, newName: string)
    requires Quotable(q, body)
    ensures In(cc, Quote(q), body + rest, oldName, newName) == body + In(cc, Quote(q), rest, oldName, newName)
    ensures Count(Lex(cc, Quote(q), body + rest), oldName) == Count(Lex(cc, Quote(q), rest), oldName)
    decreases |body|
  {
    hide In, Lex, Count;
    if body == "" {
      assert body + rest == rest;
    } else {
      var k := if body[0] == '\\' then 2 else 1;
      var text := body + rest;
      Reads(cc, Quote(q), text, oldName, newName);
      QuotedStep(cc, q, body, rest);
      QuoteReads(cc, q, body[k..], rest, oldName, newName);
      assert body == body[..k] + body[k..];
    }
  }

  lemma QuotedStep(cc: CharClass, q: char, body: string, rest: string)
    requires body != "" && Quotable(q, body)
    ensures var k := if body[0] == '\\' then 2 else 1;
      k <= |body| && Step(cc, Quote(q), body + rest) == (Raw(body[..k]), Quote(q)) && (body + rest)[k..] == body[k..] + rest
  {
    hide WordEnd, CharClass.Start;
    var text := body + rest;
    assert text[0] == body[0] && body[..1] == [text[0]];
    if body[0] == '\\' {
      TakePair(body, rest);
    } else {
      assert text[1..] == body[1..] + rest;
    }
  }

  lemma TakePair(body: string, rest: string)
    requires |body| >= 2
    ensures Take(body + rest, 2) == body[..2] && (body + rest)[2..] == body[2..] + rest
  {
  }

  lemma {:induction false} LineReads(cc: CharClass, line: string, rest: string, oldName: string, newName: string)
    requires '\n' !in line
    ensures In(cc, Line, line + rest, oldName, newName) == line + In(cc, Line, rest, oldName, newName)
    ensures Count(Lex(cc, Line, line + rest), oldName) == Count(Lex(cc, Line, rest), oldName)
  {
    hide In, Lex, Count;
    if line == "" {
      assert line + rest == rest;
    } else {
      var text := line + rest;
      Reads(cc, Line, text, oldName, newName);
      assert text[0] == line[0] && text[1..] == line[1..] + rest;
      LineReads(cc, line[1..], rest, oldName, newName);
      assert line == [line[0]] + line[1..];
    }
  }

  lemma {:induction false} BlockReads(cc: CharClass, body: string, rest: string, oldName: string, newName: string)
    requires (forall i: nat :: !OccursAt(body, "*/", i)) && (rest == "" || rest[0] == '*')
    ensures In(cc, Block, body + rest, oldName, newName) == body + In(cc, Block, rest, oldName, newName)
    ensures Count(Lex(cc, Block, body + rest), oldName) == Count(Lex(cc, Block, rest), oldName)
  {
    hide In, Lex, Count;
    if body == "" {
      assert body + rest == rest;
    } else {
      var text := body + rest;
      Reads(cc, Block, text, oldName, newName);
      assert text[0] == body[0] && text[1..] == body[1..] + rest;
      assert Take(text, 2) != "*/" by {
        assert !OccursAt(body, "*/", 0);
        if |body| >= 2 {
          assert body[0..2] == Take(text, 2);
        } else if rest != "" {
          assert Take(text, 2)[1] == '*';
        }
      }
      forall i: nat ensures !OccursAt(body[1..], "*/", i) {
        OccursShifted(body, "*/", 1, i);
      }
      BlockReads(cc, body[1..], rest, oldName, newName);
      assert body == [body[0]] + body[1..];
    }
  }

  // ----- undoing a rename -----

  predicate HasWord(ts: seq<Token>, w: string) {
    Word(w) in ts
  }

  lemma {:induction false} RenderLex(cc: CharClass, mode: Mode, s: string)
    ensures Render(Lex(cc, mode, s)) == s
    decreases |s|
  {
    hide Step;
    if s != "" {
      var (t, m) := Step(cc, mode, s);
      RenderLex(cc, m, s[|t.text|..]);
      assert ([t] + Lex(cc, m, s[|t.text|..]))[1..] == Lex(cc, m, s[|t.text|..]);
      assert s == s[..|t.text|] + s[|t.text|..];
    }
  }

  /** Every word the scanner finds is shaped like an identifier. */
  lemma {:induction false} WordsAreIdentifiers(cc: CharClass, mode: Mode, s: string)
    requires cc.Valid()
    ensures forall t :: t in Lex(cc, mode, s) && t.Word? ==> cc.Identifier(t.text)
    decreases |s|
  {
    if s != "" {
      var (t, m) := Step(cc, mode, s);
      WordsAreIdentifiers(cc, m, s[|t.text|..]);
      if t.Word? {
        assert forall k :: 1 <= k < |t.text| ==> t.text[k] == s[k] && cc.Part(s[k]);
        assert cc.Start(t.text[0]);
      }
    }
  }

  /** Renaming to an identifier leaves the front of the text as it was, or leaves there a letter
      where there was a letter. */
  lemma RenamedFront(cc: CharClass, mode: Mode, s: string, oldName: string, newName: string)
    requires cc.Identifier(newName)
    ensures var r := Render(Rename(Lex(cc, mode, s), oldName, newName));
      && (r == "" <==> s == "")
      && (s != "" ==> r[0] == s[0] || (mode == Code && cc.Start(s[0]) && cc.Start(r[0])))
  {
    if s != "" {
      var (t, m) := Step(cc, mode, s);
      RenameCons(t, Lex(cc, m, s[|t.text|..]), oldName, newName);
    }
  }

  lemma {:induction false} WordEndOf(cc: CharClass, w: string, rest: string, i: nat)
    requires i <= |w| && (forall k :: i <= k < |w| ==> cc.Part(w[k])) && (rest != "" ==> !cc.Part(rest[0]))
    ensures WordEnd(cc, w + rest, i) == |w|
    decreases |w| - i
  {
    if i < |w| { WordEndOf(cc, w, rest, i + 1); }
  }

  /** The scanner finds a renamed first token again, in front of the renamed rest. */
  lemma StepRenamed(cc: CharClass, mode: Mode, s: string, oldName: string, newName: string)
    requires cc.Valid() && ValidMode(mode) && cc.Identifier(newName) && s != ""
    ensures var (t, m) := Step(cc, mode, s);
      var r := Render(Rename(Lex(cc, m, s[|t.text|..]), oldName, newName));
      && Step(cc, mode, Replace(t, oldName, newName).text + r) == (Replace(t, oldName, newName), m)
      && ValidMode(m)
  {
    hide Lex, Rename, Render;
    var (t, m) := Step(cc, mode, s);
    var tail := s[|t.text|..];
    var r := Render(Rename(Lex(cc, m, tail), oldName, newName));
    RenamedFront(cc, m, tail, oldName, newName);
    var u := Replace(t, oldName, newName);
    var text := u.text + r;
    if t.Word? {
      WordStepRenamed(cc, s, u.text, r);
    } else if |t.text| == 2 {
      assert Take(text, 2) == t.text;
    } else {
      RawStepRenamed(cc, mode, s, r);
    }
  }

  lemma WordStepRenamed(cc: CharClass, s: string, w: string, r: string)
    requires cc.Valid() && s != "" && cc.Start(s[0]) && Step(cc, Code, s).0.Word?
    requires var tail := s[|Step(cc, Code, s).0.text|..];
      && (r == "" <==> tail == "") && (tail != "" ==> r[0] == tail[0] || (cc.Start(tail[0]) && cc.Start(r[0])))
    requires w == Step(cc, Code, s).0.text || cc.Identifier(w)
    ensures Step(cc, Code, w + r) == (Word(w), Code)
  {
    var v := Step(cc, Code, s).0.text;
    assert v == s[..WordEnd(cc, s, 1)];
    assert cc.Identifier(v) by {
      assert forall k :: 1 <= k < |v| ==> v[k] == s[k];
    }
    var tail := s[|v|..];
    assert tail != "" ==> tail[0] == s[|v|] && !cc.Part(tail[0]) && !cc.Start(tail[0]);
    WordEndOf(cc, w, r, 1);
    assert (w + r)[..|w|] == w && (w + r)[0] == w[0] && Take(w + r, 2)[0] == w[0];
    assert !cc.alnum('/') && !IsQuote(w[0]) && w[0] != '/';
  }

  lemma RawStepRenamed(cc: CharClass, mode: Mode, s: string, r: string)
    requires cc.Valid() && ValidMode(mode) && s != "" && Step(cc, mode, s).0.Raw? && |Step(cc, mode, s).0.text| == 1
    requires var (m, tail) := (Step(cc, mode, s).1, s[1..]);
      && (r == "" <==> tail == "")
      && (tail != "" ==> r[0] == tail[0] || (m == Code && cc.Start(tail[0]) && cc.Start(r[0])))
    ensures Step(cc, mode, [s[0]] + r) == Step(cc, mode, s)
  {
    var text := [s[0]] + r;
    assert text[0] == s[0];
    assert |s| > 1 ==> s[1..][0] == s[1] && Take(s, 2) == [s[0], s[1]];
    assert |text| > 1 ==> Take(text, 2) == [s[0], r[0]];
    assert |s| == 1 <==> |text| == 1;
    assert !cc.alnum('/') && !cc.alnum('*');
  }

  /** Scanning the renamed text finds the tokens of the original, with the words renamed: strings,
      comments and punctuation are byte for byte the same, and no token is split or glued. */
  lemma {:induction false} Relex(cc: CharClass, mode: Mode, s: string, oldName: string, newName: string)
    requires cc.Valid() && ValidMode(mode) && cc.Identifier(newName)
    ensures var ts := Rename(Lex(cc, mode, s), oldName, newName); Lex(cc, mode, Render(ts)) == ts
    decreases |s|
  {
    if s != "" {
      hide Step;
      var (t, m) := Step(cc, mode, s);
      var tail := Lex(cc, m, s[|t.text|..]);
      var u, r := Replace(t, oldName, newName), Render(Rename(tail, oldName, newName));
      StepRenamed(cc, mode, s, oldName, newName);
      Relex(cc, m, s[|t.text|..], oldName, newName);
      RenameCons(t, tail, oldName, newName);
      assert (u.text + r)[|u.text|..] == r;
    }
  }

  lemma {:induction false} RenderLength(ts: seq<Token>, oldName: string, newName: string)
    ensures |Render(Rename(ts, oldName, newName))| == |Render(ts)| + Count(ts, oldName) * (|newName| - |oldName|)
  {
    hide Rename, Render, Count;
    if ts == [] {
      RenderNil(oldName, newName);
    } else {
      var t, rest := ts[0], ts[1..];
      assert ts == [t] + rest;
      RenameCons(t, rest, oldName, newName);
      RenderCons(t, rest);
      RenderLength(rest, oldName, newName);
      Distribute(if t == Word(oldName) then 1 else 0, Count(rest, oldName), |newName| - |oldName|);
    }
  }

  lemma Distribute(a: int, b: int, k: int)
    ensures (a + b) * k == a * k + b * k
  {
  }

  lemma RenderNil(oldName: string, newName: string)
    ensures Render(Rename([], oldName, newName)) == Render([]) == "" && Count([], oldName) == 0
  {
  }

  lemma RenderCons(t: Token, ts: seq<Token>)
    ensures Render([t] + ts) == t.text + Render(ts)
  {
    assert ([t] + ts)[1..] == ts;
  }

  /** Renaming a word that occurs changes the text. */
  lemma {:induction false} RenameChanges(ts: seq<Token>, oldName: string, newName: string)
    requires oldName != newName
    ensures Render(Rename(ts, oldName, newName)) == Render(ts) <==> !HasWord(ts, oldName)
  {
    if ts == [] {
    } else {
      var t, rest := ts[0], ts[1..];
      assert ts == [t] + rest;
      RenameCons(t, rest, oldName, newName);
      RenameChanges(rest, oldName, newName);
      var a, b := Render(rest), Render(Rename(rest, oldName, newName));
      if t == Word(oldName) {
        RenderLength(rest, oldName, newName);
        FrontsDiffer(oldName, a, newName, b, Count(rest, oldName));
      } else {
        assert (t.text + a)[|t.text|..] == a && (t.text + b)[|t.text|..] == b;
      }
    }
  }

  lemma FrontsDiffer(v: string, a: string, w: string, b: string, n: nat)
    requires v != w && |b| == |a| + n * (|w| - |v|)
    ensures v + a != w + b
  {
    if |v| == |w| {
      assert (v + a)[..|v|] == v && (w + b)[..|v|] == w;
    } else if |w| > |v| {
      assert n * (|w| - |v|) >= 0;
    } else {
      assert n * (|w| - |v|) <= 0;
    }
  }

  lemma RenameTwice(ts: seq<Token>, oldName: string, newName: string)
    requires oldName != newName
    ensures Rename(Rename(ts, oldName, newName), newName, oldName) == Rename(ts, newName, oldName)
  {
  }

  /** Renaming and renaming back restores the text exactly when the two names are the same, or the
      new name was no word of it and, if there was anything to rename, is an identifier. */
  lemma RenameBackRestoresIff(cc: CharClass, src: string, oldName: string, newName: string)
    requires cc.Valid()
    ensures var words := Lex(cc, Code, src);
      Renamed(cc, Renamed(cc, src, oldName, newName), newName, oldName) == src
      <==> oldName == newName
           || (!HasWord(words, newName) && (HasWord(words, oldName) ==> cc.Identifier(newName)))
  {
    var ts := Lex(cc, Code, src);
    var once := Renamed(cc, src, oldName, newName);
    RenderLex(cc, Code, src);
    if oldName == newName {
      assert Rename(ts, oldName, newName) == ts;
    } else {
      RenameChanges(ts, oldName, newName);
      RenameChanges(ts, newName, oldName);
      if HasWord(ts, oldName) {
        if cc.Identifier(newName) {
          Relex(cc, Code, src, oldName, newName);
          RenameTwice(ts, oldName, newName);
        } else {
          WordsAreIdentifiers(cc, Code, src);
          WordsAreIdentifiers(cc, Code, once);
          RenderLex(cc, Code, once);
          RenameChanges(Lex(cc, Code, once), newName, oldName);
        }
      }
    }
  }

  lemma {:induction false} CountRenamed(ts: seq<Token>, oldName: string, newName: string)
    requires !HasWord(ts, newName)
    ensures Count(Rename(ts, oldName, newName), newName) == Count(ts, oldName)
  {
    if ts != [] {
      assert ts == [ts[0]] + ts[1..];
      RenameCons(ts[0], ts[1..], oldName, newName);
      assert Rename(ts, oldName, newName)[1..] == Rename(ts[1..], oldName, newName);
      CountRenamed(ts[1..], oldName, newName);
    }
  }

  // ----- the operations on one file -----

  datatype Op = Op(oldName: string, newName: string, expected: nat)
  datatype Result<+T> = Ok(value: T) | OccurrenceMismatch

  /** The operations applied in turn, each checked against the occurrences its author expected. */
  function Compile(cc: CharClass, src: string, ops: seq<Op>): Result<string>
    decreases |ops|
  {
    if ops == [] then Ok(src)
    else if Occurrences(cc, src, ops[0].oldName) != ops[0].expected then OccurrenceMismatch
    else Compile(cc, Renamed(cc, src, ops[0].oldName, ops[0].newName), ops[1..])
  }

  method CompileFile(cc: CharClass, before: string, ops: seq<Op>) returns (r: Result<string>)
    requires cc.Valid()
    ensures r == Compile(cc, before, ops)
  {
    var current := before;
    assert ops[0..] == ops;
    for k := 0 to |ops|
      invariant Compile(cc, current, ops[k..]) == Compile(cc, before, ops)
    {
      var n;
      assert ops[k..][1..] == ops[k + 1..];
      current, n := Js(cc, current, ops[k].oldName, ops[k].newName);
      if n != ops[k].expected {
        return OccurrenceMismatch;
      }
    }
    return Ok(current);
  }

  /** Every new name is an identifier that is not yet in the text it is introduced to. */
  ghost predicate Fresh(cc: CharClass, src: string, ops: seq<Op>)
    decreases |ops|
  {
    ops == [] ||
    (&& cc.Identifier(ops[0].newName) && !HasWord(Lex(cc, Code, src), ops[0].newName)
     && Fresh(cc, Renamed(cc, src, ops[0].oldName, ops[0].newName), ops[1..]))
  }

  /** The reverse operations in reverse order, expecting the same occurrences. */
  function Undo(ops: seq<Op>): seq<Op> {
    if ops == [] then []
    else Undo(ops[1..]) + [Op(ops[0].newName, ops[0].oldName, ops[0].expected)]
  }

  lemma {:induction false} CompileAppend(cc: CharClass, src: string, ops: seq<Op>, op: Op)
    requires Compile(cc, src, ops).Ok?
    ensures Compile(cc, src, ops + [op]) == Compile(cc, Compile(cc, src, ops).value, [op])
    decreases |ops|
  {
    if ops == [] {
      assert ops + [op] == [op];
    } else {
      CompileAppend(cc, Renamed(cc, src, ops[0].oldName, ops[0].newName), ops[1..], op);
      assert (ops + [op])[1..] == ops[1..] + [op];
    }
  }

  /** An accepted series of fresh renames is undone by the reverse series, which is accepted too. */
  lemma {:induction false} UndoRestoresFile(cc: CharClass, src: string, ops: seq<Op>)
    requires cc.Valid() && Fresh(cc, src, ops) && Compile(cc, src, ops).Ok?
    ensures Compile(cc, Compile(cc, src, ops).value, Undo(ops)) == Ok(src)
    decreases |ops|
  {
    if ops != [] {
      var op, once := ops[0], Renamed(cc, src, ops[0].oldName, ops[0].newName);
      UndoRestoresFile(cc, once, ops[1..]);
      var back := Op(op.newName, op.oldName, op.expected);
      CompileAppend(cc, Compile(cc, src, ops).value, Undo(ops[1..]), back);
      RenameBackRestoresIff(cc, src, op.oldName, op.newName);
      Relex(cc, Code, src, op.oldName, op.newName);
      CountRenamed(Lex(cc, Code, src), op.oldName, op.newName);
      assert [back][1..] == [];
    }
  }
}
