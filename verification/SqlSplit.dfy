/**
 Splitting a migration into statements: semicolons count outside quotes and dollar quotes only,
 and line comments outside them are erased.
 */
module SqlSplit {
  import opened Text

  datatype Mode = Neutral | Quoted(q: char) | Dollar(tag: string)

  /** What the text says once quoting is understood: a character of a statement, or its end. */
  datatype Event = Ch(c: char) | Sep

  predicate IsTagChar(c: char) {
    'A' <= c <= 'Z' || 'a' <= c <= 'z' || c == '_' || '0' <= c <= '9'
  }

  predicate IsTag(t: string) {
    && |t| >= 2 && t[0] == t[|t| - 1] == '$'
    && forall i :: 1 <= i < |t| - 1 ==> IsTagChar(t[i])
  }

  predicate ValidMode(m: Mode) {
    match m
    case Neutral => true
    case Quoted(q) => q == '\'' || q == '"'
    case Dollar(tag) => IsTag(tag)
  }

  function TagRun(s: string, i: nat): (j: nat)
    requires i <= |s|
    ensures i <= j <= |s| && (forall k :: i <= k < j ==> IsTagChar(s[k])) && (j < |s| ==> !IsTagChar(s[j]))
    decreases |s| - i
  {
    if i < |s| && IsTagChar(s[i]) then TagRun(s, i + 1) else i
  }

  /** A match of `\$[A-Za-z_0-9]*\$` at the front. */
  function MatchTag(s: string): (r: Option<string>)
    ensures r.Some? ==> IsTag(r.value) && r.value <= s
  {
    if s == "" || s[0] != '$' then None
    else
      var j := TagRun(s, 1);
      if j < |s| && s[j] == '$' then Some(s[..j + 1]) else None
  }

  function Chars(s: string): seq<Event> {
    seq(|s|, i requires 0 <= i < |s| => Ch(s[i]))
  }

  /** How many characters a comment at the front takes: up to and including the end of its line. */
  function CommentLength(s: string): (n: nat)
    requires s != ""
    ensures 0 < n <= |s|
  {
    var j := Find(s, "\n", 0);
    if j.Some? then j.value + 1 else |s|
  }

  /** Reads from a text that is not empty: what was said, how many characters that took, and the
      mode behind it. */
  function Step(mode: Mode, s: string): (r: (seq<Event>, nat, Mode))
    requires s != ""
    ensures 0 < r.1 <= |s|
  {
    var c := s[0];
    match mode
    case Dollar(tag) =>
      if tag != "" && tag <= s then (Chars(tag), |tag|, Neutral) else ([Ch(c)], 1, mode)
    case Quoted(q) => ([Ch(c)], 1, if c == q then Neutral else mode)
    case Neutral =>
      if "--" <= s then ([], CommentLength(s), Neutral)
      else if MatchTag(s).Some? then (Chars(MatchTag(s).value), |MatchTag(s).value|, Dollar(MatchTag(s).value))
      else if c == '\'' || c == '"' then ([Ch(c)], 1, Quoted(c))
      else if c == ';' then ([Sep], 1, Neutral)
      else ([Ch(c)], 1, Neutral)
  }

  function Events(mode: Mode, s: string): seq<Event>
    decreases |s|
  {
    if s == "" then []
    else var r := Step(mode, s); r.0 + Events(r.2, s[r.1..])
  }

  /** The texts between the separators, the first of them behind `cur`. */
  function Pieces(cur: string, es: seq<Event>): seq<string>
    decreases |es|
  {
    if es == [] then [cur]
    else match es[0]
      case Sep => [cur] + Pieces("", es[1..])
      case Ch(c) => Pieces(cur + [c], es[1..])
  }

  function Statement(piece: string): seq<string> {
    if Strip(piece) == "" then [] else [Strip(piece)]
  }

  /** The pieces that say something, trimmed. */
  function Statements(pieces: seq<string>): seq<string> {
    if pieces == [] then [] else Statement(pieces[0]) + Statements(pieces[1..])
  }

  function Split(sql: string): seq<string> {
    Statements(Pieces("", Events(Neutral, sql)))
  }

  // ----- the loop -----

  /** `sql[..i]` has been read: the rest completes the statements found so far. */
  ghost predicate Read(sql: string, i: nat, mode: Mode, cur: string, parts: seq<string>)
    requires i <= |sql|
  {
    parts + Statements(Pieces(cur, Events(mode, sql[i..]))) == Split(sql)
  }

  lemma ReadStart(sql: string)
    ensures Read(sql, 0, Neutral, "", [])
  {
    assert sql[0..] == sql && [] + Split(sql) == Split(sql);
  }

  lemma {:induction false} PiecesOfChars(cur: string, text: string, es: seq<Event>)
    ensures Pieces(cur, Chars(text) + es) == Pieces(cur + text, es)
    decreases |text|
  {
    if text == "" {
      assert Chars(text) + es == es && cur + text == cur;
    } else {
      assert Chars(text) == [Ch(text[0])] + Chars(text[1..]);
      assert (Chars(text) + es)[1..] == Chars(text[1..]) + es;
      PiecesOfChars(cur + [text[0]], text[1..], es);
      assert cur + [text[0]] + text[1..] == cur + text;
    }
  }

  /** Reading characters of a statement extends the current piece. */
  lemma ReadChars(sql: string, i: nat, mode: Mode, cur: string, parts: seq<string>, text: string)
    requires i < |sql| && Read(sql, i, mode, cur, parts) && Step(mode, sql[i..]).0 == Chars(text)
    ensures var r := Step(mode, sql[i..]); Read(sql, i + r.1, r.2, cur + text, parts)
  {
    hide Step, Pieces, Statements, Split, Chars;
    var r := Step(mode, sql[i..]);
    assert sql[i..][r.1..] == sql[i + r.1..];
    PiecesOfChars(cur, text, Events(r.2, sql[i + r.1..]));
  }

  /** Reading a separator completes the current statement, if it says anything. */
  lemma ReadSep(sql: string, i: nat, mode: Mode, cur: string, parts: seq<string>)
    requires i < |sql| && Read(sql, i, mode, cur, parts) && Step(mode, sql[i..]).0 == [Sep]
    ensures var r := Step(mode, sql[i..]); Read(sql, i + r.1, r.2, "", parts + Statement(cur))
  {
    hide Step, Statement, Split;
    var r := Step(mode, sql[i..]);
    assert sql[i..][r.1..] == sql[i + r.1..];
    var es := Events(r.2, sql[i + r.1..]);
    assert ([Sep] + es)[1..] == es;
    assert ([cur] + Pieces("", es))[1..] == Pieces("", es);
    assert parts + (Statement(cur) + Statements(Pieces("", es)))
        == (parts + Statement(cur)) + Statements(Pieces("", es));
  }

  lemma ReadEnd(sql: string, mode: Mode, cur: string, parts: seq<string>)
    requires Read(sql, |sql|, mode, cur, parts)
    ensures parts + Statement(cur) == Split(sql)
  {
    hide Split, Statement;
    assert sql[|sql|..] == "";
    assert Events(mode, "") == [] && Pieces(cur, []) == [cur];
    assert [cur][1..] == [] && Statements([]) == [] && Statement(cur) + [] == Statement(cur);
    assert Statements([cur]) == Statement(cur);
  }

  /** The loop returns exactly the trimmed, non-empty pieces between the semicolons that count, of
      the text without the comments that count. */
  method SplitLoop(sql: string) returns (parts: seq<string>)
    ensures parts == Split(sql)
  {
    hide Read, Split, Chars, Strip, Find, TagRun;
    var cur, quote: Option<char>, dollar: Option<string>, i := "", None, None, 0;
    parts := [];
    ReadStart(sql);
    while i < |sql|
      invariant i <= |sql| && (dollar.Some? ==> quote.None?) && ValidMode(ModeOf(quote, dollar))
      invariant Read(sql, i, ModeOf(quote, dollar), cur, parts)
      decreases |sql| - i
    {
      ghost var mode, rest := ModeOf(quote, dollar), sql[i..];
      var ch, nxt := sql[i], if i + 2 <= |sql| then sql[i..i + 2] else sql[i..];
      CharsOfOne(ch);
      if dollar.Some? {
        if dollar.value <= sql[i..] {
          ReadChars(sql, i, mode, cur, parts, dollar.value);
          cur, i, dollar := cur + dollar.value, i + |dollar.value|, None;
        } else {
          ReadChars(sql, i, mode, cur, parts, [ch]);
          cur, i := cur + [ch], i + 1;
        }
        continue;
      }
      assert nxt == "--" <==> "--" <= rest;
      if quote.None? && nxt == "--" {
        assert Chars("") == [] by { CharsOfNone(); }
        ReadChars(sql, i, mode, cur, parts, "");
        assert cur + "" == cur;
        var j := Find(sql, "\n", i);
        FindSlice(sql, "\n", i, 0);
        if j.None? {
          i := |sql|;
          break;
        }
        i := j.value + 1;
        continue;
      }
      if quote.None? && ch == '$' {
        var m := MatchTag(sql[i..]);
        if m.Some? {
          ReadChars(sql, i, mode, cur, parts, m.value);
          dollar := m;
          cur, i := cur + m.value, i + |m.value|;
          continue;
        }
      }
      if ch == '\'' || ch == '"' {
        if quote == Some(ch) {
          quote := None;
        } else if quote.None? {
          quote := Some(ch);
        }
      }
      if ch == ';' && quote.None? {
        ReadSep(sql, i, mode, cur, parts);
        var stmt := Strip(cur);
        if stmt != "" {
          parts := parts + [stmt];
        }
        assert parts + [] == parts;
        cur := "";
      } else {
        ReadChars(sql, i, mode, cur, parts, [ch]);
        cur := cur + [ch];
      }
      i := i + 1;
    }
    ReadEnd(sql, ModeOf(quote, dollar), cur, parts);
    var tail := Strip(cur);
    if tail != "" {
      parts := parts + [tail];
    }
    assert parts + [] == parts;
  }

  function ModeOf(quote: Option<char>, dollar: Option<string>): Mode {
    if dollar.Some? then Dollar(dollar.value) else if quote.Some? then Quoted(quote.value) else Neutral
  }

  lemma CharsOfOne(c: char)
    ensures Chars([c]) == [Ch(c)]
  {
  }

  lemma CharsOfNone()
    ensures Chars("") == []
  {
  }

  lemma {:induction false} FindSlice(s: string, p: string, lo: nat, from: nat)
    requires lo <= |s|
    ensures var a, b := Find(s, p, lo + from), Find(s[lo..], p, from);
      if b.Some? then a == Some(lo + b.value) else a.None?
    decreases |s| - from
  {
    hide OccursAt;
    if lo + from <= |s| {
      OccursShifted(s, p, lo, from);
      FindSlice(s, p, lo, from + 1);
    }
  }

  // ----- what a text is made of -----

  /** A text is written of these.  The open ones run to the end of the text. */
  datatype Item =
    | Plain(c: char) | Semicolon
    | Literal(q: char, body: string) | Tagged(tag: string, body: string) | Comment(line: string)
    | OpenLiteral(q: char, body: string) | OpenTagged(tag: string, body: string) | OpenComment(line: string)

  function Wording(item: Item): string {
    match item
    case Plain(c) => [c]
    case Semicolon => ";"
    case Literal(q, body) => [q] + body + [q]
    case Tagged(tag, body) => tag + body + tag
    case Comment(line) => "--" + line + "\n"
    case OpenLiteral(q, body) => [q] + body
    case OpenTagged(tag, body) => tag + body
    case OpenComment(line) => "--" + line
  }

  function Written(items: seq<Item>): string {
    if items == [] then "" else Wording(items[0]) + Written(items[1..])
  }

  /** A tag is two dollar signs with letters, digits and underscores between them.  A quoted text ends at the first mark
      that can end it, and a plain character begins nothing. */
  ghost predicate Stands(item: Item, rest: string) {
    match item
    case Plain(c) =>
      && c !in {'\'', '"', ';'}
      && (c == '-' ==> rest == "" || rest[0] != '-')
      && (c == '$' ==> forall t :: IsTag(t) ==> !(t <= [c] + rest))
    case Semicolon => true
    case Literal(q, body) => q in {'\'', '"'} && q !in body
    case Tagged(tag, body) => IsTag(tag) && forall i: nat :: i < |body| ==> !OccursAt(body + tag, tag, i)
    case Comment(line) => '\n' !in line
    case OpenLiteral(q, body) => rest == "" && q in {'\'', '"'} && q !in body
    case OpenTagged(tag, body) => rest == "" && IsTag(tag) && forall i: nat :: !OccursAt(body, tag, i)
    case OpenComment(line) => rest == "" && '\n' !in line
  }

  ghost predicate Legible(items: seq<Item>) {
    items == [] || (Stands(items[0], Written(items[1..])) && Legible(items[1..]))
  }

  /** The texts between the semicolons, quoted texts as they are and comments left out. */
  function Cut(cur: string, items: seq<Item>): seq<string>
    decreases |items|
  {
    if items == [] then [cur]
    else match items[0]
      case Semicolon => [cur] + Cut("", items[1..])
      case Comment(_) => Cut(cur, items[1..])
      case OpenComment(_) => Cut(cur, items[1..])
      case item => Cut(cur + Wording(item), items[1..])
  }

  /** Splitting gives the trimmed texts between the semicolons that stand outside quotes, dollar quotes and comments:
      whatever semicolons, dashes or dollar signs a quoted text holds, it stays whole. */
  lemma SplitIs(items: seq<Item>)
    requires Legible(items)
    ensures Split(Written(items)) == Statements(Cut("", items))
  {
    ItemsRead("", items);
  }

  /** Every text is written so, which settles how each is split. */
  lemma {:induction false} EveryTextIsWritten(s: string) returns (items: seq<Item>)
    ensures Legible(items) && Written(items) == s
    decreases |s|
  {
    hide Stands, Wording;
    if s == "" {
      items := [];
    } else {
      var item, k := FirstItem(s);
      var more := EveryTextIsWritten(s[k..]);
      items := [item] + more;
      assert items[1..] == more;
    }
  }

  /** The item at the front. */
  lemma FirstItem(s: string) returns (item: Item, k: nat)
    requires s != ""
    ensures 0 < k <= |s| && Wording(item) == s[..k] && Stands(item, s[k..])
  {
    var c := s[0];
    if c == ';' {
      item, k := Semicolon, 1;
    } else if c == '\'' || c == '"' {
      item, k := FirstLiteral(s);
    } else if "--" <= s {
      item, k := FirstComment(s);
    } else if t :| IsTag(t) && t <= s {
      item, k := FirstTagged(s, t);
    } else {
      item, k := Plain(c), 1;
      assert [c] + s[1..] == s;
    }
  }

  lemma FirstLiteral(s: string) returns (item: Item, k: nat)
    requires s != "" && s[0] in {'\'', '"'}
    ensures 0 < k <= |s| && Wording(item) == s[..k] && Stands(item, s[k..])
  {
    var q, end := s[0], Find(s, [s[0]], 1);
    var body := if end.Some? then s[1..end.value] else s[1..];
    forall j | 0 <= j < |body| ensures body[j] != q {
      assert OccursAt(s, [q], j + 1) <==> s[j + 1] == q;
    }
    if end.Some? {
      OccursChar(s, [q], end.value, 0);
      item, k := Literal(q, body), end.value + 1;
      assert [q] + body + [q] == s[..k];
    } else {
      item, k := OpenLiteral(q, body), |s|;
      assert [q] + body == s[..k] && s[k..] == "";
    }
  }

  lemma FirstComment(s: string) returns (item: Item, k: nat)
    requires "--" <= s
    ensures 0 < k <= |s| && Wording(item) == s[..k] && Stands(item, s[k..])
  {
    var end := Find(s, "\n", 2);
    var line := if end.Some? then s[2..end.value] else s[2..];
    forall j | 0 <= j < |line| ensures line[j] != '\n' {
      assert OccursAt(s, "\n", j + 2) <==> s[j + 2] == '\n';
    }
    if end.Some? {
      OccursChar(s, "\n", end.value, 0);
      item, k := Comment(line), end.value + 1;
      assert "--" + line + "\n" == s[..k];
    } else {
      item, k := OpenComment(line), |s|;
      assert "--" + line == s[..k] && s[k..] == "";
    }
  }

  lemma FirstTagged(s: string, tag: string) returns (item: Item, k: nat)
    requires IsTag(tag) && tag <= s
    ensures 0 < k <= |s| && Wording(item) == s[..k] && Stands(item, s[k..])
  {
    hide OccursAt, IsTag;
    assert tag != "" by { TagIsLong(tag); }
    var n, end := |tag|, Find(s, tag, |tag|);
    assert s[..n] == tag;
    if end.Some? {
      OccursAtIs(s, tag, end.value);
      var body := s[n..end.value];
      k := end.value + n;
      item := Tagged(tag, body);
      ClosesFirst(s, tag, body, end.value);
      assert tag + body + tag == s[..k];
    } else {
      var body := s[n..];
      item, k := OpenTagged(tag, body), |s|;
      assert s[k..] == "" && tag + body == s[..k];
      forall i: nat ensures !OccursAt(body, tag, i) {
        OccursShifted(s, tag, n, i);
      }
    }
  }

  lemma TagIsLong(tag: string)
    requires IsTag(tag)
    ensures |tag| >= 2
  {
  }

  lemma ClosesFirst(s: string, tag: string, body: string, end: nat)
    requires tag <= s && |tag| <= end && end + |tag| <= |s| && s[end..end + |tag|] == tag && body == s[|tag|..end]
    requires forall j :: |tag| <= j < end ==> !OccursAt(s, tag, j)
    ensures forall i: nat :: i < |body| ==> !OccursAt(body + tag, tag, i)
  {
    hide OccursAt;
    var n, k := |tag|, end + |tag|;
    assert body + tag == s[n..k];
    forall i: nat | i < |body| ensures !OccursAt(body + tag, tag, i) {
      if OccursAt(s[n..k], tag, i) { SliceOccurs(s, tag, n, k, i); }
    }
  }

  lemma OccursAtIs(s: string, p: string, i: nat)
    requires OccursAt(s, p, i)
    ensures i + |p| <= |s| && s[i..i + |p|] == p
  {
  }

  /** What the items say when they are one statement. */
  function Kept(items: seq<Item>): string {
    if items == [] then ""
    else (if items[0].Comment? || items[0].OpenComment? then "" else Wording(items[0])) + Kept(items[1..])
  }

  /** Up to the first semicolon that stands by itself the items are one statement. */
  lemma FirstStatement(front: seq<Item>, rest: seq<Item>)
    requires Legible(front + [Semicolon] + rest) && Semicolon !in front && Legible(rest)
    ensures Split(Written(front + [Semicolon] + rest)) == Statement(Kept(front)) + Split(Written(rest))
  {
    hide Split, Statement, Legible, Written, Kept;
    SplitIs(front + [Semicolon] + rest);
    SplitIs(rest);
    CutFirst("", front, rest);
    assert "" + Kept(front) == Kept(front);
    var all := [Kept(front)] + Cut("", rest);
    assert all[1..] == Cut("", rest);
  }

  lemma {:induction false} CutFirst(cur: string, front: seq<Item>, rest: seq<Item>)
    requires Semicolon !in front
    ensures Cut(cur, front + [Semicolon] + rest) == [cur + Kept(front)] + Cut("", rest)
    decreases |front|
  {
    var items := front + [Semicolon] + rest;
    if front == [] {
      assert items[1..] == rest && cur + "" == cur;
    } else {
      assert items[0] == front[0] && items[1..] == front[1..] + [Semicolon] + rest;
      assert front[0] != Semicolon;
      var skip := front[0].Comment? || front[0].OpenComment?;
      CutFirst(if skip then cur else cur + Wording(front[0]), front[1..], rest);
      assert cur + ("" + Kept(front[1..])) == cur + Kept(front[1..]);
      ConcatAssociates(cur, Wording(front[0]), Kept(front[1..]));
    }
  }

  /** A literal, whatever it holds, is one statement in front of a semicolon. */
  lemma LiteralIsOneStatement(q: char, body: string, rest: string)
    requires q in {'\'', '"'} && q !in body
    ensures Split([q] + body + [q] + ";" + rest) == [[q] + body + [q]] + Split(rest)
  {
    OneItemStatement(Literal(q, body), rest);
  }

  /** So is a dollar quote; its tag must not come to stand earlier, not even together with the closing one. */
  lemma TaggedIsOneStatement(tag: string, body: string, rest: string)
    requires IsTag(tag) && forall i: nat :: i < |body| ==> !OccursAt(body + tag, tag, i)
    ensures Split(tag + body + tag + ";" + rest) == [tag + body + tag] + Split(rest)
  {
    OneItemStatement(Tagged(tag, body), rest);
  }

  /** And a comment is nothing, whatever it holds. */
  lemma CommentIsLeftOut(line: string, rest: string)
    requires '\n' !in line
    ensures Split("--" + line + "\n" + rest) == Split(rest)
  {
    hide Split, Statements;
    var items := EveryTextIsWritten(rest);
    var all := [Comment(line)] + items;
    assert all[1..] == items;
    SplitIs(all);
    SplitIs(items);
  }

  lemma OneItemStatement(item: Item, rest: string)
    requires (item.Literal? || item.Tagged?) && Stands(item, ";" + rest)
    ensures Split(Wording(item) + ";" + rest) == [Wording(item)] + Split(rest)
  {
    hide Split, Statement, Wording, Stands;
    var items := EveryTextIsWritten(rest);
    var all := [item] + [Semicolon] + items;
    assert all[1..] == [Semicolon] + items && ([Semicolon] + items)[1..] == items && [item][1..] == [];
    WordingOfSemicolon();
    assert Written([Semicolon] + items) == ";" + rest && Written(all) == Wording(item) + (";" + rest);
    assert Legible([Semicolon] + items) by { SemicolonStands(rest); }
    FirstStatement([item], items);
    assert Kept([item]) == Wording(item) + "" == Wording(item);
    MarksAreNoSpace(item, ";" + rest);
    assert Wording(item) + ";" + rest == Wording(item) + (";" + rest);
  }

  lemma WordingOfSemicolon()
    ensures Wording(Semicolon) == ";"
  {
  }

  lemma SemicolonStands(rest: string)
    ensures Stands(Semicolon, rest)
  {
  }

  lemma MarksAreNoSpace(item: Item, rest: string)
    requires (item.Literal? || item.Tagged?) && Stands(item, rest)
    ensures Statement(Wording(item)) == [Wording(item)]
  {
    var w := Wording(item);
    assert w[0] == w[|w| - 1] && w[0] in {'\'', '"', '$'};
    StripVisible(w);
  }

  function Said(item: Item): seq<Event> {
    match item
    case Semicolon => [Sep]
    case Comment(_) => []
    case OpenComment(_) => []
    case _ => Chars(Wording(item))
  }

  lemma {:induction false} ItemsRead(cur: string, items: seq<Item>)
    requires Legible(items)
    ensures Pieces(cur, Events(Neutral, Written(items))) == Cut(cur, items)
    decreases |items|
  {
    hide Events, Stands, Wording, Chars, Pieces;
    if items == [] {
      NothingReads(cur);
    } else {
      var item, rest := items[0], Written(items[1..]);
      var es := Events(Neutral, rest);
      ItemReads(item, rest);
      match item
      case Semicolon =>
        SepPiece(cur, es);
        ItemsRead("", items[1..]);
      case Comment(_) =>
        assert [] + es == es;
        ItemsRead(cur, items[1..]);
      case OpenComment(_) =>
        assert [] + es == es;
        ItemsRead(cur, items[1..]);
      case _ =>
        PiecesOfChars(cur, Wording(item), es);
        ItemsRead(cur + Wording(item), items[1..]);
    }
  }

  lemma NothingReads(cur: string)
    ensures Events(Neutral, "") == [] && Pieces(cur, []) == [cur]
  {
  }

  lemma SepPiece(cur: string, es: seq<Event>)
    ensures Pieces(cur, [Sep] + es) == [cur] + Pieces("", es)
  {
    assert ([Sep] + es)[1..] == es;
  }

  /** One item and the rest. */
  lemma ItemReads(item: Item, rest: string)
    requires Stands(item, rest)
    ensures Events(Neutral, Wording(item) + rest) == Said(item) + Events(Neutral, rest)
  {
    hide Events, Chars, Step;
    match item
    case Plain(c) => PlainReads(c, rest);
    case Semicolon => SemicolonReads(rest);
    case Literal(q, body) => LiteralReads(q, body, [q], rest);
    case Tagged(tag, body) => TaggedReads(tag, body, tag, rest);
    case Comment(line) => CommentReads(line, rest);
    case OpenLiteral(q, body) =>
      assert [q] + body + "" == [q] + body;
      LiteralReads(q, body, "", "");
    case OpenTagged(tag, body) =>
      assert body + "" == body && tag + body + "" == tag + body;
      TaggedReads(tag, body, "", "");
    case OpenComment(line) => OpenCommentReads(line);
  }

  lemma PlainReads(c: char, rest: string)
    requires Stands(Plain(c), rest)
    ensures Events(Neutral, [c] + rest) == Chars([c]) + Events(Neutral, rest)
  {
    hide TagRun;
    var s := [c] + rest;
    assert s[1..] == rest;
    assert rest != "" ==> s[1] == rest[0];
    assert MatchTag(s).None?;
    CharsOfOne(c);
  }

  lemma CommentReads(line: string, rest: string)
    requires '\n' !in line
    ensures Events(Neutral, "--" + line + "\n" + rest) == [] + Events(Neutral, rest)
  {
    var s := "--" + line + "\n" + rest;
    var k := |line| + 2;
    forall j: nat | j < k ensures !OccursAt(s, "\n", j) {
      OccursChar(s, "\n", j, 0);
      if j >= 2 { assert s[j] == line[j - 2]; }
    }
    assert s[k..k + 1] == "\n";
    FindAt(s, "\n", 0, k);
    assert s[..2] == "--" && s[k + 1..] == rest;
  }

  lemma OpenCommentReads(line: string)
    requires '\n' !in line
    ensures Events(Neutral, "--" + line + "") == [] + Events(Neutral, "")
  {
    var s := "--" + line;
    assert s + "" == s && s[..2] == "--";
    assert forall j :: 2 <= j < |s| ==> s[j] == line[j - 2] && line[j - 2] in line;
    if Find(s, "\n", 0).Some? {
      OccursChar(s, "\n", Find(s, "\n", 0).value, 0);
    }
    assert s[|s|..] == "";
  }

  /** A quoted text, closed or open. */
  lemma LiteralReads(q: char, body: string, end: string, rest: string)
    requires q in {'\'', '"'} && q !in body && (end == [q] || (end == "" && rest == ""))
    ensures Events(Neutral, [q] + body + end + rest) == Chars([q] + body + end) + Events(Neutral, rest)
  {
    hide Events, Chars, MatchTag;
    var inner := body + end + rest;
    var s := [q] + inner;
    assert [q] + body + end + rest == s && s[0] == q && s[1..] == inner;
    assert !("--" <= s) && MatchTag(s).None? by { NoTag(s); }
    EventsOf(Neutral, s);
    InsideReads(q, body, end, rest);
    CharsOfOne(q);
    CharsJoin([q], body + end);
    assert [q] + (body + end) == [q] + body + end;
    ConcatAssociates(Chars([q]), Chars(body + end), Events(Neutral, rest));
  }

  lemma NoTag(s: string)
    requires s != "" && s[0] != '$'
    ensures MatchTag(s).None?
  {
  }

  lemma EventsOf(mode: Mode, s: string)
    requires s != ""
    ensures var r := Step(mode, s); Events(mode, s) == r.0 + Events(r.2, s[r.1..])
  {
  }

  lemma CharsJoin(a: string, b: string)
    ensures Chars(a + b) == Chars(a) + Chars(b)
  {
  }

  lemma {:induction false} InsideReads(q: char, body: string, end: string, rest: string)
    requires q !in body && (end == [q] || (end == "" && rest == ""))
    ensures Events(Quoted(q), body + end + rest) == Chars(body + end) + Events(Neutral, rest)
    decreases |body|
  {
    hide Events, Chars, MatchTag;
    var s := body + end + rest;
    if body == "" {
      if end == "" {
        CharsOfNone();
        assert s == "";
        NothingSaid();
      } else {
        EventsOf(Quoted(q), s);
        CharsOfOne(q);
        assert s[0] == q && s[1..] == rest && body + end == [q];
      }
    } else {
      EventsOf(Quoted(q), s);
      assert s[0] == body[0] && s[1..] == body[1..] + end + rest;
      InsideReads(q, body[1..], end, rest);
      CharsOfOne(body[0]);
      assert body + end == [body[0]] + (body[1..] + end);
      CharsJoin([body[0]], body[1..] + end);
      ConcatAssociates(Chars([body[0]]), Chars(body[1..] + end), Events(Neutral, rest));
    }
  }

  lemma NothingSaid()
    ensures forall mode :: Events(mode, "") == []
    ensures Chars("") == []
  {
  }

  lemma {:induction false} TagRunOf(tag: string, rest: string, i: nat)
    requires IsTag(tag) && 1 <= i < |tag|
    ensures TagRun(tag + rest, i) == |tag| - 1
    decreases |tag| - i
  {
    if i < |tag| - 1 { TagRunOf(tag, rest, i + 1); }
  }

  lemma TaggedReads(tag: string, body: string, end: string, rest: string)
    requires IsTag(tag) && (end == tag || (end == "" && rest == ""))
    requires forall i: nat :: i < |body| ==> !OccursAt(body + end, tag, i)
    ensures Events(Neutral, tag + body + end + rest) == Chars(tag + body + end) + Events(Neutral, rest)
  {
    hide Events, Chars, TagRun, OccursAt;
    var inner := body + end + rest;
    var s := tag + inner;
    assert tag + body + end + rest == s && s[0] == '$';
    TagRunOf(tag, inner, 1);
    assert s[..|tag|] == tag && s[|tag|..] == inner;
    assert MatchTag(s) == Some(tag);
    EventsOf(Neutral, s);
    DollarReads(tag, body, end, rest);
    CharsJoin(tag, body + end);
    assert tag + (body + end) == tag + body + end;
    ConcatAssociates(Chars(tag), Chars(body + end), Events(Neutral, rest));
  }

  lemma {:induction false} DollarReads(tag: string, body: string, end: string, rest: string)
    requires IsTag(tag) && (end == tag || (end == "" && rest == ""))
    requires forall i: nat :: i < |body| ==> !OccursAt(body + end, tag, i)
    ensures Events(Dollar(tag), body + end + rest) == Chars(body + end) + Events(Neutral, rest)
    decreases |body|
  {
    hide Events, Chars, MatchTag, OccursAt;
    var s := body + end + rest;
    if body == "" {
      if end == "" {
        assert s == "" && body + end == "";
        NothingSaid();
      } else {
        EventsOf(Dollar(tag), s);
        assert s[..|tag|] == tag && s[|tag|..] == rest && body + end == tag;
      }
    } else {
      var more := body[1..];
      EventsOf(Dollar(tag), s);
      NotYetClosed(tag, body, end, rest);
      assert s[0] == body[0] && s[1..] == more + end + rest;
      assert body + end == [body[0]] + (more + end) && (body + end)[1..] == more + end;
      forall i: nat | i < |more| ensures !OccursAt(more + end, tag, i) {
        OccursShifted(body + end, tag, 1, i);
      }
      DollarReads(tag, more, end, rest);
      CharsOfOne(body[0]);
      CharsJoin([body[0]], more + end);
      ConcatAssociates(Chars([body[0]]), Chars(more + end), Events(Neutral, rest));
    }
  }

  lemma NotYetClosed(tag: string, body: string, end: string, rest: string)
    requires body != "" && (end == tag || (end == "" && rest == "")) && !OccursAt(body + end, tag, 0)
    ensures !(tag <= body + end + rest)
  {
    var s := body + end;
    assert |tag| <= |s| ==> s[0..|tag|] == (s + rest)[..|tag|];
  }

  // ----- splitting undoes joining -----

  /** Neither a comment nor a semicolon counts where the text is read next. */
  predicate PlainFront(mode: Mode, s: string) {
    s == "" || !(mode.Neutral? && ("--" <= s || s[0] == ';'))
  }

  /** Read from `mode`, the text holds neither a semicolon nor a comment that counts. */
  predicate Flat(mode: Mode, s: string)
    decreases |s|
  {
    s == "" || (PlainFront(mode, s) && var r := Step(mode, s); Flat(r.2, s[r.1..]))
  }

  function EndMode(mode: Mode, s: string): Mode
    decreases |s|
  {
    if s == "" then mode else var r := Step(mode, s); EndMode(r.2, s[r.1..])
  }

  /** The text also ends outside all quotes. */
  predicate Closed(s: string) {
    Flat(Neutral, s) && EndMode(Neutral, s) == Neutral
  }

  /** A statement as a caller of the database writes it. */
  predicate IsStatement(s: string) {
    s != "" && Strip(s) == s && Closed(s)
  }

  /** A text that may follow without changing how what is before it reads. */
  predicate Bounded(rest: string) {
    rest == "" || !(IsTagChar(rest[0]) || rest[0] == '$' || rest[0] == '-')
  }

  lemma {:induction false} TagRunAppend(s: string, rest: string, i: nat)
    requires i <= |s| && Bounded(rest)
    ensures TagRun(s + rest, i) == TagRun(s, i)
    decreases |s| - i
  {
    if i < |s| && IsTagChar(s[i]) { TagRunAppend(s, rest, i + 1); }
  }

  lemma MatchTagAppend(s: string, rest: string)
    requires s != "" && Bounded(rest)
    ensures MatchTag(s + rest) == MatchTag(s)
  {
    TagRunAppend(s, rest, 1);
    var j := TagRun(s, 1);
    assert j < |s| ==> (s + rest)[..j + 1] == s[..j + 1];
  }

  lemma PrefixAppend(p: string, s: string, rest: string)
    requires p != "" && (forall i :: 0 <= i < |p| ==> IsTagChar(p[i]) || p[i] == '$' || p[i] == '-') && Bounded(rest)
    ensures p <= s + rest <==> p <= s
  {
    if |s| < |p| && rest != "" { assert (s + rest)[|s|] == rest[0] != p[|s|]; }
  }

  /** Text behind does not change how the next thing reads, a comment apart. */
  lemma StepAppend(mode: Mode, s: string, rest: string)
    requires s != "" && ValidMode(mode) && Bounded(rest) && !(mode.Neutral? && "--" <= s)
    ensures Step(mode, s + rest) == Step(mode, s) && ValidMode(Step(mode, s).2)
    ensures PlainFront(mode, s + rest) <==> PlainFront(mode, s)
  {
    assert (s + rest)[0] == s[0];
    if mode.Dollar? { PrefixAppend(mode.tag, s, rest); }
    if mode.Neutral? {
      PrefixAppend("--", s, rest);
      MatchTagAppend(s, rest);
    }
  }

  /** What one step says is the text it reads, unless that is a comment or a semicolon that counts. */
  lemma StepSays(mode: Mode, s: string)
    requires s != "" && PlainFront(mode, s)
    ensures var r := Step(mode, s); r.0 == Chars(s[..r.1])
  {
  }

  /** A flat text reads as itself, whatever follows. */
  lemma {:induction false} FlatReadsAlone(mode: Mode, s: string, rest: string)
    requires ValidMode(mode) && Flat(mode, s) && Bounded(rest)
    ensures Events(mode, s + rest) == Chars(s) + Events(EndMode(mode, s), rest)
    decreases |s|
  {
    if s == "" {
      assert s + rest == rest && Chars(s) + Events(mode, rest) == Events(mode, rest);
    } else {
      hide Step, Chars;
      var r := Step(mode, s);
      var tail := s[r.1..];
      StepAppend(mode, s, rest);
      StepSays(mode, s);
      assert (s + rest)[r.1..] == tail + rest;
      FlatReadsAlone(r.2, tail, rest);
      CharsSplit(s, r.1);
      ConcatAssociates(Chars(s[..r.1]), Chars(tail), Events(EndMode(r.2, tail), rest));
    }
  }

  lemma CharsSplit(s: string, k: nat)
    requires k <= |s|
    ensures Chars(s) == Chars(s[..k]) + Chars(s[k..])
  {
  }

  /** A closed text in front of a semicolon is the first piece. */
  lemma SplitFirst(s: string, rest: string)
    requires Closed(s)
    ensures Split(s + (";" + rest)) == Statement(s) + Split(rest)
  {
    hide Step, Flat, EndMode, Statement, Chars;
    var es := Events(Neutral, rest);
    SemicolonReads(rest);
    FlatReadsAlone(Neutral, s, ";" + rest);
    PiecesOfChars("", s, [Sep] + es);
    assert ([Sep] + es)[1..] == es;
    assert "" + s == s && ([s] + Pieces("", es))[1..] == Pieces("", es);
  }

  /** A text in which nothing counts is one piece, also when a quote is left open. */
  lemma SplitFlat(s: string)
    requires Flat(Neutral, s)
    ensures Split(s) == Statement(s)
  {
    hide Step, Flat, EndMode, Statement;
    FlatReadsAlone(Neutral, s, "");
    assert s + "" == s && Events(EndMode(Neutral, s), "") == [] && Chars(s) + [] == Chars(s);
    PiecesOfChars("", s, []);
    assert "" + s == s && Pieces(s, []) == [s];
    assert [s][1..] == [] && Statements([s]) == Statement(s) + Statements([]);
  }

  lemma SemicolonReads(rest: string)
    ensures Events(Neutral, ";" + rest) == [Sep] + Events(Neutral, rest)
  {
    assert (";" + rest)[1..] == rest && (";" + rest)[0] == ';';
  }

  /** Splitting the ";"-join of statements gives them back. */
  lemma {:induction false} SplitInvertsJoin(stmts: seq<string>)
    requires forall s :: s in stmts ==> IsStatement(s)
    ensures Split(Join(stmts, ";")) == stmts
  {
    hide Split, Statement, Flat, EndMode, Step;
    if stmts == [] {
      SplitFlat("") by { assert Flat(Neutral, "") by { FlatNothing(); } }
      OneStatement("");
    } else {
      var s := stmts[0];
      assert IsStatement(s);
      OneStatement(s);
      if |stmts| == 1 {
        SplitFlat(s);
      } else {
        var rest := Join(stmts[1..], ";");
        ConcatAssociates(s, ";", rest);
        SplitFirst(s, rest);
        SplitInvertsJoin(stmts[1..]);
      }
    }
  }

  lemma FlatNothing()
    ensures Flat(Neutral, "") && EndMode(Neutral, "") == Neutral
  {
  }

  lemma OneStatement(s: string)
    requires Strip(s) == s
    ensures Statement(s) == if s == "" then [] else [s]
  {
  }

  // ----- splitting again changes nothing, unless a comment was erased -----

  /** No line comment counts, read from `mode`. */
  predicate CommentFree(mode: Mode, s: string)
    decreases |s|
  {
    s == "" || (!(mode.Neutral? && "--" <= s) && var r := Step(mode, s); CommentFree(r.2, s[r.1..]))
  }

  /** Where the first semicolon that counts is, or the length of the text. */
  function FirstSemicolon(mode: Mode, s: string): (k: nat)
    ensures k <= |s|
    decreases |s|
  {
    if s == "" || (mode.Neutral? && s[0] == ';') then 0
    else var r := Step(mode, s); r.1 + FirstSemicolon(r.2, s[r.1..])
  }

  lemma {:induction false} HeadIsClosed(mode: Mode, s: string)
    requires ValidMode(mode) && CommentFree(mode, s)
    ensures var k := FirstSemicolon(mode, s);
      && Flat(mode, s[..k])
      && (k < |s| ==> s[k] == ';' && EndMode(mode, s[..k]) == Neutral && CommentFree(Neutral, s[k + 1..]))
    decreases |s|
  {
    hide *;
    HeadUnfold(mode, s);
    if s != "" && !(mode.Neutral? && s[0] == ';') {
      var r := Step(mode, s);
      var k := r.1 + FirstSemicolon(r.2, s[r.1..]);
      StepKeepsValid(mode, s);
      HeadIsClosed(r.2, s[r.1..]);
      HeadStep(mode, s, r.1, k);
      FlatUnfold(mode, s[..k]);
    } else {
      assert s[..0] == "";
      FlatUnfold(mode, "");
      if s != "" { SemicolonStep(s); }
    }
  }

  lemma HeadUnfold(mode: Mode, s: string)
    requires CommentFree(mode, s)
    ensures s != "" && !(mode.Neutral? && s[0] == ';') ==>
      var r := Step(mode, s);
      && !(mode.Neutral? && "--" <= s) && CommentFree(r.2, s[r.1..])
      && FirstSemicolon(mode, s) == r.1 + FirstSemicolon(r.2, s[r.1..])
    ensures s == "" || (mode.Neutral? && s[0] == ';') ==> FirstSemicolon(mode, s) == 0
    ensures s != "" && mode.Neutral? && s[0] == ';' ==>
      var r := Step(mode, s); CommentFree(r.2, s[r.1..])
  {
    hide Step;
  }

  lemma FlatUnfold(mode: Mode, s: string)
    ensures s == "" ==> Flat(mode, s) && EndMode(mode, s) == mode
    ensures s != "" ==>
      var r := Step(mode, s);
      && (Flat(mode, s) <==> PlainFront(mode, s) && Flat(r.2, s[r.1..]))
      && EndMode(mode, s) == EndMode(r.2, s[r.1..])
  {
    hide Step;
  }

  /** The head of a text starts with what the text starts with. */
  lemma HeadStep(mode: Mode, s: string, n: nat, k: nat)
    requires ValidMode(mode) && s != "" && n == Step(mode, s).1 <= k <= |s| && (k < |s| ==> s[k] == ';')
    requires !(mode.Neutral? && ("--" <= s || s[0] == ';'))
    ensures Step(mode, s[..k]) == Step(mode, s) && PlainFront(mode, s[..k])
    ensures s[..k][n..] == s[n..][..k - n] && (k < |s| ==> s[k + 1..] == s[n..][k - n + 1..] && s[k] == s[n..][k - n])
  {
    hide Step, MatchTag;
    assert s == s[..k] + s[k..];
    StepAppend(mode, s[..k], s[k..]);
  }

  lemma StepKeepsValid(mode: Mode, s: string)
    requires s != "" && ValidMode(mode)
    ensures ValidMode(Step(mode, s).2)
  {
  }

  lemma SemicolonStep(s: string)
    requires s != "" && s[0] == ';'
    ensures Step(Neutral, s) == ([Sep], 1, Neutral)
  {
  }

  /** A flat text stays flat without what is behind it. */
  lemma {:induction false} FlatPrefix(mode: Mode, s: string, w: string)
    requires ValidMode(mode) && Flat(mode, s + w) && Bounded(w)
    ensures Flat(mode, s) && EndMode(mode, s + w) == EndMode(EndMode(mode, s), w)
    ensures ValidMode(EndMode(mode, s))
    decreases |s|
  {
    hide Step, Bounded, ValidMode;
    if s == "" {
      assert s + w == w;
    } else {
      PrefixAppend("--", s, w);
      StepAppend(mode, s, w);
      var r := Step(mode, s);
      assert (s + w)[r.1..] == s[r.1..] + w;
      FlatPrefix(r.2, s[r.1..], w);
    }
  }

  /** Space does not open or close anything. */
  lemma {:induction false} SpaceKeepsMode(mode: Mode, w: string)
    requires ValidMode(mode) && SpaceIn(w, 0, |w|)
    ensures EndMode(mode, w) == mode
  {
    if w != "" {
      assert IsSpace(w[0]);
      assert Step(mode, w).1 == 1 && Step(mode, w).2 == mode;
      SpaceKeepsMode(mode, w[1..]);
    }
  }

  lemma {:induction false} FlatBehindSpace(s: string, k: nat)
    requires k <= |s| && SpaceIn(s, 0, k)
    ensures Flat(Neutral, s) ==> Flat(Neutral, s[k..])
    ensures EndMode(Neutral, s) == EndMode(Neutral, s[k..])
  {
    if k > 0 {
      assert IsSpace(s[0]);
      assert Step(Neutral, s).1 == 1 && Step(Neutral, s).2 == Neutral;
      FlatBehindSpace(s[1..], k - 1);
      assert s[1..][k - 1..] == s[k..];
    }
  }

  lemma SpaceIsBounded(w: string)
    requires SpaceIn(w, 0, |w|)
    ensures Bounded(w)
  {
    assert w != "" ==> IsSpace(w[0]);
  }

  /** Trimming keeps a text flat, and closed. */
  lemma TrimFlat(s: string)
    requires Flat(Neutral, s)
    ensures Flat(Neutral, Strip(s)) && EndMode(Neutral, Strip(s)) == EndMode(Neutral, s)
  {
    hide IsSpace, Flat, EndMode, Bounded, LStrip, RStrip;
    var l := LStrip(s);
    FlatBehindSpace(s, |s| - |l|);
    var t := RStrip(l);
    var w := l[|t|..];
    assert l == t + w && SpaceIn(w, 0, |w|);
    SpaceIsBounded(w);
    FlatPrefix(Neutral, t, w);
    SpaceKeepsMode(EndMode(Neutral, t), w);
  }

  /** Without comments the result of splitting is a normal form: written back and split again, it
      is the same, also when the last quote is left open. */
  lemma {:induction false} CommentFreeIsStable(sql: string)
    requires CommentFree(Neutral, sql)
    ensures Split(Join(Split(sql), ";")) == Split(sql)
    decreases |sql|
  {
    hide Split, Flat, EndMode, Step, CommentFree, Strip;
    var k := FirstSemicolon(Neutral, sql);
    var s := sql[..k];
    HeadIsClosed(Neutral, sql);
    if k == |sql| {
      assert s == sql;
      LastIsStable(sql);
    } else {
      var rest := sql[k + 1..];
      assert sql == s + (";" + rest);
      SplitFirst(s, rest);
      CommentFreeIsStable(rest);
      FirstIsStable(s, Split(rest));
    }
  }

  /** A flat text splits into itself, trimmed, and that again into itself. */
  lemma LastIsStable(s: string)
    requires Flat(Neutral, s)
    ensures Split(Join(Split(s), ";")) == Split(s) == Statement(s)
  {
    hide Split, Flat, EndMode, Step, Strip;
    TrimFlat(s);
    StripTwice(s);
    SplitFlat(s);
    SplitFlat(Strip(s));
    if Strip(s) == "" { SplitInvertsJoin([]); }
  }

  /** A closed text in front of a list that splits back keeps that so. */
  lemma FirstIsStable(s: string, parts: seq<string>)
    requires Flat(Neutral, s) && EndMode(Neutral, s) == Neutral && Split(Join(parts, ";")) == parts
    ensures var all := Statement(s) + parts; Split(Join(all, ";")) == all
  {
    hide Split, Flat, EndMode, Step, Strip;
    var t := Strip(s);
    if t == "" {
      assert Statement(s) + parts == parts;
    } else {
      TrimFlat(s);
      StripTwice(s);
      if parts == [] {
        assert [t] + parts == [t];
        SplitFlat(t);
      } else {
        assert ([t] + parts)[1..] == parts;
        ConcatAssociates(t, ";", Join(parts, ";"));
        SplitFirst(t, Join(parts, ";"));
      }
    }
  }

  // ----- comments -----

  /** The text without the comments that count. */
  function Erase(mode: Mode, s: string): string
    decreases |s|
  {
    if s == "" then ""
    else var r := Step(mode, s); (if mode.Neutral? && "--" <= s then "" else s[..r.1]) + Erase(r.2, s[r.1..])
  }

  /** A dollar sign that opens no quote in the text opens none either once the comments are erased. */
  predicate TagsStay(mode: Mode, s: string)
    decreases |s|
  {
    s == ""
    || ((mode.Neutral? && s[0] == '$' && MatchTag(s).None? ==> MatchTag(Erase(mode, s)).None?)
        && var r := Step(mode, s); TagsStay(r.2, s[r.1..]))
  }

  lemma EraseUnfold(mode: Mode, s: string)
    requires s != ""
    ensures var r := Step(mode, s);
      && Erase(mode, s) == (if mode.Neutral? && "--" <= s then "" else s[..r.1]) + Erase(r.2, s[r.1..])
      && (TagsStay(mode, s) ==> TagsStay(r.2, s[r.1..]))
  {
    hide Step;
  }

  lemma EraseFront(mode: Mode, s: string)
    requires s == "" || !(mode.Neutral? && "--" <= s)
    ensures Erase(mode, s) == "" <==> s == ""
    ensures s != "" ==> Erase(mode, s)[0] == s[0]
  {
    hide Step;
    if s != "" { assert s[..Step(mode, s).1][0] == s[0]; }
  }

  /** Inside a dollar quote nothing is erased. */
  lemma {:induction false} DollarStays(tag: string, s: string, p: string)
    requires IsTag(tag) && |p| <= |tag|
    ensures p <= Erase(Dollar(tag), s) <==> p <= s
    decreases |s|
  {
    if s != "" {
      EraseUnfold(Dollar(tag), s);
      var rest := Erase(Step(Dollar(tag), s).2, s[Step(Dollar(tag), s).1..]);
      if tag <= s {
        assert s[..|tag|] == tag && Erase(Dollar(tag), s) == tag + rest;
        assert p <= tag + rest <==> p <= tag;
        assert p <= s <==> p <= tag;
      } else if p != "" {
        DollarStays(tag, s[1..], p[1..]);
        assert s[..1] == [s[0]] && Erase(Dollar(tag), s) == [s[0]] + rest;
        PrefixTail(p, [s[0]] + rest);
        PrefixTail(p, s);
        assert ([s[0]] + rest)[1..] == rest;
      }
    }
  }

  lemma PrefixTail(p: string, s: string)
    requires p != "" && s != ""
    ensures p <= s <==> p[0] == s[0] && p[1..] <= s[1..]
  {
    if |p| <= |s| {
      assert s[..|p|] == [s[0]] + s[1..][..|p| - 1];
      assert p == [p[0]] + p[1..];
    }
  }

  /** Erasing the comments behind does not change how the next thing reads. */
  lemma StepErased(mode: Mode, s: string)
    requires s != "" && ValidMode(mode) && TagsStay(mode, s) && !(mode.Neutral? && "--" <= s)
    ensures var (r, e) := (Step(mode, s), Erase(mode, s));
      && e != "" && Step(mode, e) == r && e[r.1..] == Erase(r.2, s[r.1..]) && !(mode.Neutral? && "--" <= e)
  {
    var r, e := Step(mode, s), Erase(mode, s);
    EraseUnfold(mode, s);
    EraseFront(mode, s);
    assert |s[..r.1]| == r.1;
    match mode
    case Dollar(tag) =>
      DollarStays(tag, s, tag);
    case Quoted(_) =>
    case Neutral =>
      if MatchTag(s).Some? {
        var t := MatchTag(s).value;
        assert s[..r.1] == t;
        TagAtFront(t, Erase(r.2, s[r.1..]));
      } else {
        NoCommentFormed(s);
      }
  }

  lemma TagAtFront(t: string, rest: string)
    requires IsTag(t)
    ensures MatchTag(t + rest) == Some(t)
  {
    var s := t + rest;
    TagEnds(s, 1, |t| - 1);
    assert s[..|t|] == t;
  }

  lemma {:induction false} TagEnds(s: string, i: nat, j: nat)
    requires i <= j < |s| && (forall k :: i <= k < j ==> IsTagChar(s[k])) && !IsTagChar(s[j])
    ensures TagRun(s, i) == j
    decreases j - i
  {
    if i < j { TagEnds(s, i + 1, j); }
  }

  lemma NoCommentFormed(s: string)
    requires s != "" && !("--" <= s) && Step(Neutral, s).1 == 1
    ensures !("--" <= Erase(Neutral, s))
  {
    hide Step;
    var rest, e := s[1..], Erase(Neutral, s);
    EraseUnfold(Neutral, s);
    EraseFront(Neutral, s);
    CommentIff(s);
    CommentIff(e);
    if s[0] == '-' {
      DashIsRead(s);
      CommentIff(rest);
      EraseFront(Neutral, rest);
      assert s[..1] == [s[0]];
      assert e == [s[0]] + Erase(Neutral, rest);
    }
  }

  lemma CommentIff(s: string)
    ensures "--" <= s <==> |s| >= 2 && s[0] == s[1] == '-'
  {
    if |s| >= 2 { assert s[..2] == [s[0], s[1]]; }
  }

  lemma DashIsRead(s: string)
    requires s != "" && s[0] == '-' && !("--" <= s)
    ensures Step(Neutral, s) == ([Ch('-')], 1, Neutral)
  {
  }

  /** Then the text without its comments says the same. */
  lemma {:induction false} EraseReads(mode: Mode, s: string)
    requires ValidMode(mode) && TagsStay(mode, s)
    ensures Events(mode, Erase(mode, s)) == Events(mode, s) && CommentFree(mode, Erase(mode, s))
    decreases |s|
  {
    if s != "" {
      hide Step;
      var r := Step(mode, s);
      EraseUnfold(mode, s);
      StepKeepsValid(mode, s);
      EraseReads(r.2, s[r.1..]);
      if mode.Neutral? && "--" <= s {
        CommentSays(s);
        assert "" + Erase(r.2, s[r.1..]) == Erase(r.2, s[r.1..]);
        assert [] + Events(r.2, s[r.1..]) == Events(r.2, s[r.1..]);
      } else {
        StepErased(mode, s);
      }
    }
  }

  lemma CommentSays(s: string)
    requires "--" <= s
    ensures s != "" && Step(Neutral, s).0 == [] && Step(Neutral, s).2 == Neutral
  {
  }

  /** Also with comments the result of splitting is a normal form, if no dollar sign comes to open a quote by
      what is erased behind it. */
  lemma SplitIsStable(sql: string)
    requires TagsStay(Neutral, sql)
    ensures Split(Join(Split(sql), ";")) == Split(sql)
  {
    hide Events, Erase, TagsStay, CommentFree;
    EraseReads(Neutral, sql);
    CommentFreeIsStable(Erase(Neutral, sql));
  }

  /** No comment counts that stands directly behind a dollar sign and letters, digits or underscores. */
  predicate NoCommentBehindDollar(mode: Mode, s: string)
    decreases |s|
  {
    s == ""
    || ((mode.Neutral? && s[0] == '$' && MatchTag(s).None? ==> !("--" <= s[TagRun(s, 1)..]))
        && var r := Step(mode, s); NoCommentBehindDollar(r.2, s[r.1..]))
  }

  lemma {:induction false} RunStays(s: string, i: nat)
    requires i <= TagRun(s, 0)
    ensures Erase(Neutral, s) == s[..i] + Erase(Neutral, s[i..])
    decreases i
  {
    hide *;
    if i == 0 {
      TakeNone(s, Erase(Neutral, s));
    } else {
      TagCharReads(s);
      EraseUnfold(Neutral, s);
      RunStays(s[1..], i - 1);
      TakeOneMore(s, i, Erase(Neutral, s[i..]));
    }
  }

  lemma TakeNone(s: string, e: string)
    ensures s[0..] == s && s[..0] + e == e
  {
  }

  lemma TakeOneMore(s: string, i: nat, e: string)
    requires 0 < i <= |s|
    ensures s[1..][i - 1..] == s[i..] && s[..1] + (s[1..][..i - 1] + e) == s[..i] + e
  {
    assert s[..1] + s[1..][..i - 1] == s[..i];
  }

  lemma TagCharReads(s: string)
    requires TagRun(s, 0) > 0
    ensures s != "" && Step(Neutral, s).1 == 1 && Step(Neutral, s).2 == Neutral && !("--" <= s)
    ensures TagRun(s[1..], 0) == TagRun(s, 0) - 1
  {
    TagRunSlice(s, 1, 0);
    assert IsTagChar(s[0]);
  }

  lemma {:induction false} TagsStayWithout(mode: Mode, s: string)
    requires NoCommentBehindDollar(mode, s)
    ensures TagsStay(mode, s)
    decreases |s|
  {
    if s != "" {
      var r := Step(mode, s);
      TagsStayWithout(r.2, s[r.1..]);
      if mode.Neutral? && s[0] == '$' && MatchTag(s).None? { DollarStaysOpen(s); }
    }
  }

  lemma DollarStaysOpen(s: string)
    requires s != "" && s[0] == '$' && MatchTag(s).None? && !("--" <= s[TagRun(s, 1)..])
    ensures MatchTag(Erase(Neutral, s)).None?
  {
    hide *;
    var t, j := s[1..], TagRun(s, 1);
    TagRunSlice(s, 1, 0);
    RunStays(t, j - 1);
    var rest := s[j..];
    EraseFront(Neutral, rest);
    LoneDollarReads(s);
    EraseUnfold(Neutral, s);
    TakeOneMore(s, j, Erase(Neutral, rest));
    StillNoTag(s, j, Erase(Neutral, rest));
  }

  lemma LoneDollarReads(s: string)
    requires s != "" && s[0] == '$' && MatchTag(s).None?
    ensures Step(Neutral, s).1 == 1 && Step(Neutral, s).2 == Neutral && !("--" <= s)
  {
  }

  lemma StillNoTag(s: string, j: nat, rest: string)
    requires s != "" && s[0] == '$' && MatchTag(s).None? && j == TagRun(s, 1)
    requires (rest == "" <==> j == |s|) && (j < |s| ==> rest[0] == s[j])
    ensures MatchTag(s[..j] + rest).None?
  {
    var e := s[..j] + rest;
    assert forall k :: 0 <= k < j ==> e[k] == s[k];
    if j < |s| {
      assert e[j] == s[j];
      TagEnds(e, 1, j);
    } else {
      assert |e| == j;
      TagRunsOut(e, 1);
    }
  }

  lemma {:induction false} TagRunsOut(s: string, i: nat)
    requires i <= |s| && forall k :: i <= k < |s| ==> IsTagChar(s[k])
    ensures TagRun(s, i) == |s|
    decreases |s| - i
  {
    if i < |s| { TagRunsOut(s, i + 1); }
  }

  lemma {:induction false} TagRunSlice(s: string, lo: nat, i: nat)
    requires lo + i <= |s|
    ensures TagRun(s, lo + i) == lo + TagRun(s[lo..], i)
    decreases |s| - i
  {
    if lo + i < |s| && IsTagChar(s[lo + i]) { TagRunSlice(s, lo, i + 1); }
  }

  // ----- exactly when joining is undone -----

  /** Each part reads as one statement and, but for the last, ends outside all quotes. */
  predicate Fits(parts: seq<string>) {
    forall i :: 0 <= i < |parts| ==> Flat(Neutral, parts[i]) && (i < |parts| - 1 ==> EndMode(Neutral, parts[i]) == Neutral)
  }

  predicate Trimmed(parts: seq<string>) {
    forall s :: s in parts ==> s != "" && Strip(s) == s
  }

  /** The length of the parts, each with a separator. */
  function Bulk(parts: seq<string>): nat {
    if parts == [] then 0 else |parts[0]| + 1 + Bulk(parts[1..])
  }

  lemma {:induction false} BulkConcat(a: seq<string>, b: seq<string>)
    ensures Bulk(a + b) == Bulk(a) + Bulk(b)
  {
    if a == [] {
      assert a + b == b;
    } else {
      BulkConcat(a[1..], b);
      assert (a + b)[1..] == a[1..] + b;
    }
  }

  lemma StatementBulk(s: string)
    ensures Bulk(Statement(s)) <= |s| + 1 && (Bulk(Statement(s)) == |s| + 1 ==> Statement(s) == [s] && Strip(s) == s)
  {
    StripIff(s);
    hide Strip;
    assert [Strip(s)][1..] == [] && Bulk([]) == 0;
    assert Bulk([Strip(s)]) == |Strip(s)| + 1;
  }

  /** Splitting adds nothing, and loses nothing only from a text without comments that count. */
  lemma {:induction false} SplitBulk(cur: string, mode: Mode, s: string)
    ensures Bulk(Statements(Pieces(cur, Events(mode, s)))) <= |cur| + |s| + 1
    ensures Bulk(Statements(Pieces(cur, Events(mode, s)))) == |cur| + |s| + 1 ==> CommentFree(mode, s)
    decreases |s|
  {
    if s == "" {
      StatementBulk(cur);
      assert Pieces(cur, []) == [cur] && [cur][1..] == [] && Statements([]) == [] && Statement(cur) + [] == Statement(cur);
    } else {
      hide Step, Statement;
      var r := Step(mode, s);
      var rest := s[r.1..];
      StepKinds(mode, s);
      CommentFreeUnfold(mode, s);
      if r.0 == [Sep] {
        SplitBulk("", r.2, rest);
        SepBulk(cur, Events(r.2, rest));
      } else {
        var text := if mode.Neutral? && "--" <= s then "" else s[..r.1];
        PiecesOfChars(cur, text, Events(r.2, rest));
        SplitBulk(cur + text, r.2, rest);
      }
    }
  }

  lemma SepBulk(cur: string, es: seq<Event>)
    ensures Bulk(Statements(Pieces(cur, [Sep] + es))) <= |cur| + 1 + Bulk(Statements(Pieces("", es)))
  {
    hide Statement;
    assert ([Sep] + es)[1..] == es;
    var more := Pieces("", es);
    assert ([cur] + more)[1..] == more;
    BulkConcat(Statement(cur), Statements(more));
    StatementBulk(cur);
  }

  lemma CommentFreeUnfold(mode: Mode, s: string)
    requires s != ""
    ensures CommentFree(mode, s) <==>
      !(mode.Neutral? && "--" <= s) && CommentFree(Step(mode, s).2, s[Step(mode, s).1..])
  {
    hide Step;
  }

  /** A step says a separator, nothing, or what it reads. */
  lemma StepKinds(mode: Mode, s: string)
    requires s != ""
    ensures var r := Step(mode, s);
      if mode.Neutral? && "--" <= s then r.0 == Chars("") != [Sep]
      else if r.0 == [Sep] then r.1 == 1
      else r.0 == Chars(s[..r.1])
  {
    CharsOfNone();
    if !(mode.Neutral? && s[0] == ';') && !(mode.Neutral? && "--" <= s) { StepSays(mode, s); }
  }

  lemma StripNothing()
    ensures Strip("") == "" && Statement("") == [] && Split("") == []
  {
    SplitInvertsJoin([]);
  }

  /** Joining a list of trimmed, non-empty texts and splitting again gives the list back exactly when it fits. */
  lemma {:induction false} JoinSplitsBackIff(parts: seq<string>)
    requires Trimmed(parts)
    ensures Split(Join(parts, ";")) == parts <==> Fits(parts)
  {
    hide Split, Statement, Flat, EndMode, Strip, Trimmed;
    if parts == [] {
      StripNothing();
    } else if |parts| == 1 {
      OneTrimmed(parts);
      assert Join(parts, ";") == parts[0] && parts == [parts[0]];
      if Flat(Neutral, parts[0]) { SplitFlat(parts[0]); }
      if Split(parts[0]) == parts { WholeIsFlat(parts[0]); }
    } else {
      var p, rest := parts[0], parts[1..];
      var tail := Join(rest, ";");
      OneTrimmed(parts);
      JoinSplitsBackIff(rest);
      FitsCons(parts);
      assert parts == [p] + rest;
      ConcatAssociates(p, ";", tail);
      if Flat(Neutral, p) && EndMode(Neutral, p) == Neutral {
        SplitFirst(p, tail);
        assert [p] + Split(tail) == [p] + rest <==> Split(tail) == rest by {
          assert ([p] + Split(tail))[1..] == Split(tail) && ([p] + rest)[1..] == rest;
        }
      }
      if Split(p + (";" + tail)) == parts { FirstIsClosed(p, tail, rest); }
    }
  }

  lemma OneTrimmed(parts: seq<string>)
    requires Trimmed(parts) && parts != []
    ensures Statement(parts[0]) == [parts[0]] && parts[0] != "" && Trimmed(parts[1..])
  {
    assert parts[0] in parts && forall s :: s in parts[1..] ==> s in parts;
  }

  lemma FitsCons(parts: seq<string>)
    requires |parts| > 1
    ensures Fits(parts) <==> Flat(Neutral, parts[0]) && EndMode(Neutral, parts[0]) == Neutral && Fits(parts[1..])
  {
    hide Flat, EndMode;
    var rest := parts[1..];
    assert forall i :: 0 <= i < |rest| ==> rest[i] == parts[i + 1];
    if Fits(parts) {
      forall i | 0 <= i < |rest| ensures Flat(Neutral, rest[i]) && (i < |rest| - 1 ==> EndMode(Neutral, rest[i]) == Neutral) {
        assert Flat(Neutral, parts[i + 1]);
      }
    }
    if Fits(rest) {
      forall i | 1 <= i < |parts| ensures Flat(Neutral, parts[i]) && (i < |parts| - 1 ==> EndMode(Neutral, parts[i]) == Neutral) {
        assert parts[i] == rest[i - 1];
      }
    }
  }

  lemma SplitIsBounded(s: string)
    ensures Bulk(Split(s)) <= |s| + 1 && (Bulk(Split(s)) == |s| + 1 ==> CommentFree(Neutral, s))
  {
    SplitBulk("", Neutral, s);
  }

  /** A text of which splitting loses nothing starts with its first statement. */
  lemma FirstOfFull(s: string)
    requires Bulk(Split(s)) == |s| + 1
    ensures var k := FirstSemicolon(Neutral, s);
      && Flat(Neutral, s[..k])
      && (k == |s| ==> s[..k] == s && |Split(s)| <= 1)
      && (k < |s| ==> EndMode(Neutral, s[..k]) == Neutral && Split(s) == [s[..k]] + Split(s[k + 1..]))
  {
    hide Split, Flat, EndMode, CommentFree, Statement, FirstSemicolon, Bulk, Strip;
    SplitIsBounded(s);
    var k := FirstSemicolon(Neutral, s);
    HeadIsClosed(Neutral, s);
    if k == |s| {
      assert s[..k] == s;
      SplitFlat(s);
      OneAtMost(s);
    } else {
      var head, tail := s[..k], s[k + 1..];
      assert s == head + (";" + tail);
      SplitFirst(head, tail);
      StatementBulk(head);
      SplitIsBounded(tail);
      BulkConcat(Statement(head), Split(tail));
    }
  }

  /** A text that splits into itself holds nothing that counts. */
  lemma WholeIsFlat(s: string)
    requires s != "" && Split(s) == [s]
    ensures Flat(Neutral, s)
  {
    hide Split, Flat, EndMode;
    assert [s][1..] == [] && Bulk([s]) == |s| + 1;
    FirstOfFull(s);
    var k := FirstSemicolon(Neutral, s);
    assert k < |s| ==> Split(s)[0] == s[..k];
  }

  lemma FirstIsClosed(p: string, tail: string, rest: seq<string>)
    requires Split(p + (";" + tail)) == [p] + rest && rest != [] && tail == Join(rest, ";") && p != ""
    ensures Flat(Neutral, p) && EndMode(Neutral, p) == Neutral
  {
    hide Split, Flat, EndMode, Join;
    var s := p + (";" + tail);
    JoinBulk(rest);
    BulkConcat([p], rest);
    assert [p][1..] == [] && Bulk([p]) == |p| + 1;
    FirstOfFull(s);
    var k := FirstSemicolon(Neutral, s);
    assert |Split(s)| >= 2 && Split(s)[0] == p;
    assert k < |s| ==> Split(s)[0] == s[..k];
  }

  lemma OneAtMost(s: string)
    ensures |Statement(s)| <= 1
  {
  }

  lemma {:induction false} JoinBulk(parts: seq<string>)
    requires parts != []
    ensures |Join(parts, ";")| + 1 == Bulk(parts)
  {
    if |parts| == 1 {
      assert Bulk(parts[1..]) == 0;
    } else {
      JoinBulk(parts[1..]);
    }
  }

  lemma {:induction false} StatementsAreTrimmed(pieces: seq<string>)
    ensures Trimmed(Statements(pieces))
  {
    if pieces != [] {
      hide Strip, Statement;
      StatementsAreTrimmed(pieces[1..]);
      StatementIsTrimmed(pieces[0]);
    }
  }

  lemma StatementIsTrimmed(piece: string)
    ensures Trimmed(Statement(piece))
  {
    hide Strip;
    StripTwice(piece);
  }

  /** Whatever the text, splitting what was joined from its statements gives the same statements exactly when
      each of them reads as one statement and, but for the last, ends outside all quotes. */
  lemma SplitIsStableIff(sql: string)
    ensures Split(Join(Split(sql), ";")) == Split(sql) <==> Fits(Split(sql))
  {
    hide Fits, Trimmed;
    StatementsAreTrimmed(Pieces("", Events(Neutral, sql)));
    JoinSplitsBackIff(Split(sql));
  }

  /** An erased comment can bring two dollar signs together, which then quote the rest. */
  lemma ErasedCommentBreaksStability()
    ensures var sql := "$--\n$;a";
      && Split(sql) == ["$$", "a"]
      && Split(Join(Split(sql), ";")) == ["$$;a"]
  {
    EventsOfComment();
    SplitOfComment();
    DollarEvents();
    SplitOfDollars();
  }

  lemma SplitOfComment()
    requires Events(Neutral, "$--\n$;a") == Chars("$$") + ([Sep] + (Chars("a") + []))
    ensures Split("$--\n$;a") == ["$$", "a"] && Join(["$$", "a"], ";") == "$$;a"
  {
    hide Chars, Strip, Statement, Events;
    PiecesOfChars("", "$$", [Sep] + (Chars("a") + []));
    PiecesOfChars("", "a", []);
    assert "" + "$$" == "$$" && "" + "a" == "a";
    TwoPieces("$$", Chars("a") + [], "a");
    StatementsOfTwo("$$", "a");
    assert ["$$", "a"][1..] == ["a"] && "$$" + ";" + "a" == "$$;a";
  }

  lemma SplitOfDollars()
    requires Events(Neutral, "$$;a") == Chars("$$;a")
    ensures Split("$$;a") == ["$$;a"]
  {
    hide Chars, Strip, Statement, Events;
    assert Chars("$$;a") + [] == Chars("$$;a") && "" + "$$;a" == "$$;a";
    PiecesOfChars("", "$$;a", []);
    OneStatement("$$;a") by { StripVisible("$$;a"); }
    assert ["$$;a"][1..] == [] && Statements(["$$;a"]) == Statement("$$;a") + Statements([]);
  }

  lemma TwoPieces(a: string, es: seq<Event>, b: string)
    requires Pieces("", es) == [b]
    ensures Pieces(a, [Sep] + es) == [a, b]
  {
    assert ([Sep] + es)[1..] == es;
  }

  lemma StripVisible(s: string)
    requires s != "" && !IsSpace(s[0]) && !IsSpace(s[|s| - 1])
    ensures Strip(s) == s
  {
    LStripAt(s, 0);
    RStripAt(s, |s|);
  }

  lemma StatementsOfTwo(a: string, b: string)
    requires a != "" && !IsSpace(a[0]) && !IsSpace(a[|a| - 1])
    requires b != "" && !IsSpace(b[0]) && !IsSpace(b[|b| - 1])
    ensures Statements([a, b]) == [a, b]
  {
    StripVisible(a);
    StripVisible(b);
    assert [a, b][1..] == [b] && [b][1..] == [];
    assert Statements([b]) == Statement(b) + Statements([]);
  }

  lemma EventsOfComment()
    ensures Events(Neutral, "$--\n$;a") == Chars("$$") + ([Sep] + (Chars("a") + []))
  {
    CommentSteps();
    TailEvents();
    hide Step;
    assert Events(Neutral, "$;a") == [Ch('$')] + [Sep, Ch('a')];
    assert Events(Neutral, "--\n$;a") == [] + Events(Neutral, "$;a");
    assert Events(Neutral, "$--\n$;a") == [Ch('$')] + Events(Neutral, "--\n$;a");
  }

  lemma CommentSteps()
    ensures Step(Neutral, "$--\n$;a") == ([Ch('$')], 1, Neutral) && "$--\n$;a"[1..] == "--\n$;a"
    ensures Step(Neutral, "--\n$;a") == ([], 3, Neutral) && "--\n$;a"[3..] == "$;a"
    ensures Step(Neutral, "$;a") == ([Ch('$')], 1, Neutral) && "$;a"[1..] == ";a"
  {
    var c := "--\n$;a";
    assert c[0] == '-' && c[1] == '-' && c[2] == '\n' && c[2..3] == [c[2]];
    OccursChar(c, "\n", 0, 0);
    OccursChar(c, "\n", 1, 0);
    FindAt(c, "\n", 0, 2);
  }

  lemma TailEvents()
    ensures Events(Neutral, ";a") == [Sep, Ch('a')]
    ensures Events(Dollar("$$"), ";a") == [Ch(';'), Ch('a')]
  {
    assert ";a"[1..] == "a" && "a"[1..] == "";
    assert Events(Neutral, "a") == [Ch('a')];
    assert !("$$" <= ";a") && !("$$" <= "a");
    assert Events(Dollar("$$"), "") == [] && Events(Dollar("$$"), "a") == [Ch('a')];
  }

  lemma DollarEvents()
    ensures Events(Neutral, "$$;a") == Chars("$$;a")
  {
    var s := "$$;a";
    assert s[..2] == "$$" && TagRun(s, 1) == 1 && MatchTag(s) == Some("$$") && s[2..] == ";a";
    TailEvents();
    assert Events(Neutral, s) == Chars("$$") + Events(Dollar("$$"), ";a");
  }
}
