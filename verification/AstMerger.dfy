/**
 Semantic merge of one file: the named blocks of three versions are merged as a map, and the edits of
 the other branch are then replayed on our text, block by block and in no fixed order.
 */
module AstMerger {
  import opened Text
  import opened TextReplace

  type Blocks = map<string, string>

  function Lookup(b: Blocks, name: string): Option<string> {
    if name in b then Some(b[name]) else None
  }

  /** The blocks that a branch changed, added or deleted. */
  function Modified(base: Blocks, branch: Blocks): set<string> {
    set n | n in base.Keys + branch.Keys && Lookup(base, n) != Lookup(branch, n)
  }

  method ModifiedBlocks(base: Blocks, branch: Blocks) returns (modified: set<string>)
    ensures modified == Modified(base, branch)
  {
    modified := {};
    var todo := branch.Keys;
    while todo != {}
      invariant todo <= branch.Keys
      invariant forall n :: n in modified <==> n in branch && n !in todo && Lookup(base, n) != Lookup(branch, n)
      decreases |todo|
    {
      var name :| name in todo;
      if name !in base || branch[name] != base[name] {
        modified := modified + {name};
      }
      todo := todo - {name};
    }
    todo := base.Keys;
    while todo != {}
      invariant todo <= base.Keys
      invariant forall n :: (n in modified <==>
                             (n in branch || (n in base && n !in todo)) && Lookup(base, n) != Lookup(branch, n))
      decreases |todo|
    {
      var name :| name in todo;
      if name !in branch {
        modified := modified + {name};
      }
      todo := todo - {name};
    }
  }

  // ----- the block map -----

  /** Their block where they modified it, ours everywhere else; a deleted block is absent. */
  function ThreeWay(base: Blocks, ours: Blocks, theirs: Blocks): Blocks {
    var mods := Modified(base, theirs);
    map n | n in ours.Keys + theirs.Keys && (if n in mods then n in theirs else n in ours)
      :: if n in mods then theirs[n] else ours[n]
  }

  method MergeBlocks(base: Blocks, ours: Blocks, theirs: Blocks, theirMods: set<string>) returns (merged: Blocks)
    requires theirMods == Modified(base, theirs)
    ensures merged == ThreeWay(base, ours, theirs)
  {
    merged := ours;
    var todo := theirMods;
    while todo != {}
      invariant todo <= theirMods
      invariant forall n :: n in theirMods && n !in todo ==> Lookup(merged, n) == Lookup(theirs, n)
      invariant forall n :: n !in theirMods || n in todo ==> Lookup(merged, n) == Lookup(ours, n)
      decreases |todo|
    {
      var name :| name in todo;
      if name in theirs {
        merged := merged[name := theirs[name]];
      } else if name in merged {
        merged := merged - {name};
      }
      todo := todo - {name};
    }
    forall n ensures Lookup(merged, n) == Lookup(ThreeWay(base, ours, theirs), n) {
      ThreeWayLookup(base, ours, theirs, n);
    }
    SameLookups(merged, ThreeWay(base, ours, theirs));
  }

  lemma SameLookups(a: Blocks, b: Blocks)
    requires forall n :: Lookup(a, n) == Lookup(b, n)
    ensures a == b
  {
    assert forall n :: n in a <==> Lookup(a, n).Some?;
    assert forall n :: n in b <==> Lookup(b, n).Some?;
    assert a.Keys == b.Keys;
    forall n | n in a ensures a[n] == b[n] {
      assert Lookup(a, n) == Lookup(b, n);
    }
  }

  lemma ThreeWayLookup(base: Blocks, ours: Blocks, theirs: Blocks, n: string)
    ensures Lookup(ThreeWay(base, ours, theirs), n)
      == if Lookup(theirs, n) != Lookup(base, n) then Lookup(theirs, n) else Lookup(ours, n)
  {
    assert n in Modified(base, theirs) <==> Lookup(theirs, n) != Lookup(base, n);
  }

  predicate Disjoint(base: Blocks, ours: Blocks, theirs: Blocks) {
    forall n :: n in Modified(base, ours) ==> n !in Modified(base, theirs)
  }

  /** No edit of either side is lost in the block map. */
  lemma BlocksKeepBothEdits(base: Blocks, ours: Blocks, theirs: Blocks, n: string)
    requires Disjoint(base, ours, theirs)
    ensures var merged := Lookup(ThreeWay(base, ours, theirs), n);
      && (n in Modified(base, ours) ==> merged == Lookup(ours, n))
      && (n in Modified(base, theirs) ==> merged == Lookup(theirs, n))
      && (n !in Modified(base, ours) + Modified(base, theirs) ==> merged == Lookup(base, n))
  {
    ThreeWayLookup(base, ours, theirs, n);
    assert n in Modified(base, ours) <==> Lookup(ours, n) != Lookup(base, n);
    assert n in Modified(base, theirs) <==> Lookup(theirs, n) != Lookup(base, n);
  }

  /** Which side is called ours matters only for a block that both modified differently. */
  lemma SidesSwapIff(base: Blocks, ours: Blocks, theirs: Blocks)
    ensures ThreeWay(base, ours, theirs) == ThreeWay(base, theirs, ours) <==>
      forall n :: n in Modified(base, ours) * Modified(base, theirs) ==> Lookup(ours, n) == Lookup(theirs, n)
  {
    var a, b := ThreeWay(base, ours, theirs), ThreeWay(base, theirs, ours);
    forall n ensures Lookup(a, n) == Lookup(b, n) <==>
        (n in Modified(base, ours) * Modified(base, theirs) ==> Lookup(ours, n) == Lookup(theirs, n)) {
      ThreeWayLookup(base, ours, theirs, n);
      ThreeWayLookup(base, theirs, ours, n);
      assert n in Modified(base, ours) <==> Lookup(ours, n) != Lookup(base, n);
      assert n in Modified(base, theirs) <==> Lookup(theirs, n) != Lookup(base, n);
    }
    if forall n :: Lookup(a, n) == Lookup(b, n) { SameLookups(a, b); }
  }

  // ----- the text -----

  /** Replays the edit of one block they modified. */
  function TextStep(base: Blocks, ours: Blocks, theirs: Blocks, cur: string, name: string): string {
    if name in base && name in ours then
      if name in theirs then Replace(cur, ours[name], theirs[name]) else cur
    else if name !in base && name in theirs then RStrip(cur) + "\n\n" + theirs[name] + "\n"
    else if name in ours && name !in theirs then Replace(cur, ours[name], "")
    else cur
  }

  function TextMerge(base: Blocks, ours: Blocks, theirs: Blocks, src: string, names: seq<string>): string {
    if names == [] then src
    else
      var last := |names| - 1;
      TextStep(base, ours, theirs, TextMerge(base, ours, theirs, src, names[..last]), names[last])
  }

  /** A deletion by theirs leaves the text as it is: the branch that would cut the block out is never taken. */
  lemma DeletionReachesNoText(base: Blocks, ours: Blocks, theirs: Blocks, cur: string, name: string)
    requires Disjoint(base, ours, theirs) && name in Modified(base, theirs) && name !in theirs
    ensures name in base && name in ours && TextStep(base, ours, theirs, cur, name) == cur
  {
    assert name in base && name !in ours ==> name in Modified(base, ours);
  }

  datatype Outcome =
    | NoBlocks
    | Overlapping(names: set<string>)
    | Merged(blocks: Blocks, text: string)

  ghost predicate Enumerates(names: seq<string>, s: set<string>) {
    && (forall n :: n in names <==> n in s)
    && (forall i, j :: 0 <= i < j < |names| ==> names[i] != names[j])
  }

  /** The modifications are replayed in whatever order the set happens to be walked. */
  method ReplayText(base: Blocks, ours: Blocks, theirs: Blocks, src: string, mods: set<string>) returns (text: string)
    ensures exists order :: Enumerates(order, mods) && text == TextMerge(base, ours, theirs, src, order)
  {
    ghost var order := [];
    text := src;
    var todo := mods;
    while todo != {}
      invariant todo <= mods && Enumerates(order, mods - todo)
      invariant text == TextMerge(base, ours, theirs, src, order)
      decreases |todo|
    {
      var name :| name in todo;
      assert (order + [name])[..|order|] == order;
      if name in base && name in ours {
        if name in theirs {
          text := Replace(text, ours[name], theirs[name]);
        }
      } else if name !in base && name in theirs {
        text := RStrip(text) + "\n\n" + theirs[name] + "\n";
      } else if name in ours && name !in theirs {
        text := Replace(text, ours[name], "");
      }
      order := order + [name];
      todo := todo - {name};
    }
    assert mods - todo == mods;
  }

  method TryMerge(base: Blocks, ours: Blocks, theirs: Blocks, src: string) returns (r: Outcome)
    ensures r.NoBlocks? <==> base.Keys + ours.Keys + theirs.Keys == {}
    ensures r.Overlapping? <==> !Disjoint(base, ours, theirs)
    ensures r.Overlapping? ==> r.names == Modified(base, ours) * Modified(base, theirs)
    ensures r.Merged? ==> r.blocks == ThreeWay(base, ours, theirs)
    ensures r.Merged? ==> exists order ::
      Enumerates(order, Modified(base, theirs)) && r.text == TextMerge(base, ours, theirs, src, order)
  {
    if base.Keys == {} && ours.Keys == {} && theirs.Keys == {} {
      assert Modified(base, ours) == {};
      return NoBlocks;
    }
    var ourMods := ModifiedBlocks(base, ours);
    var theirMods := ModifiedBlocks(base, theirs);
    var conflicts := ourMods * theirMods;
    if conflicts != {} {
      var n :| n in conflicts;
      assert n in Modified(base, ours) && n in Modified(base, theirs);
      return Overlapping(conflicts);
    }
    assert forall n :: n in ourMods && n in theirMods ==> n in conflicts;
    var merged := MergeBlocks(base, ours, theirs, theirMods);
    var text := ReplayText(base, ours, theirs, src, theirMods);
    return Merged(merged, text);
  }

  // ----- a file as a layout of blocks -----

  /** A file is its blocks in order, with the text between them. */
  datatype Piece = Gap(text: string) | Block(name: string)

  function TextOf(p: Piece, m: Blocks): string {
    match p
    case Gap(text) => text
    case Block(name) => if name in m then m[name] else ""
  }

  function Render(ps: seq<Piece>, m: Blocks): string {
    if ps == [] then "" else TextOf(ps[0], m) + Render(ps[1..], m)
  }

  lemma {:induction false} RenderConcat(a: seq<Piece>, b: seq<Piece>, m: Blocks)
    ensures Render(a + b, m) == Render(a, m) + Render(b, m)
  {
    if a == [] {
      assert a + b == b;
    } else {
      assert (a + b)[1..] == a[1..] + b;
      RenderConcat(a[1..], b, m);
    }
  }

  lemma RenderLast(a: seq<Piece>, p: Piece, m: Blocks)
    ensures Render(a + [p], m) == Render(a, m) + TextOf(p, m)
  {
    RenderConcat(a, [p], m);
    assert [p][1..] == [];
  }

  lemma {:induction false} RenderSame(ps: seq<Piece>, m: Blocks, name: string, to: string)
    requires Block(name) !in ps
    ensures Render(ps, m[name := to]) == Render(ps, m)
  {
    hide Render;
    if ps == [] {
      NothingRenders(m);
      NothingRenders(m[name := to]);
    } else {
      assert ps[0] in ps && TextOf(ps[0], m[name := to]) == TextOf(ps[0], m);
      RenderSame(ps[1..], m, name, to);
      RenderCons(ps, m);
      RenderCons(ps, m[name := to]);
    }
  }

  lemma NothingRenders(m: Blocks)
    ensures Render([], m) == ""
  {
  }

  lemma RenderCons(ps: seq<Piece>, m: Blocks)
    requires ps != []
    ensures Render(ps, m) == TextOf(ps[0], m) + Render(ps[1..], m)
  {
  }

  lemma RenderAround(ps: seq<Piece>, i: nat, m: Blocks)
    requires i < |ps|
    ensures Render(ps, m) == Render(ps[..i], m) + TextOf(ps[i], m) + Render(ps[i + 1..], m)
  {
    assert ps == ps[..i] + [ps[i]] + ps[i + 1..];
    RenderConcat(ps[..i] + [ps[i]], ps[i + 1..], m);
    RenderLast(ps[..i], ps[i], m);
  }

  /** The pieces, the last of which says something, and the white space behind them. */
  datatype File = File(pre: seq<Piece>, last: Piece, post: string)

  function Source(f: File, m: Blocks): string {
    Render(f.pre, m) + TextOf(f.last, m) + f.post
  }

  /** The file holds exactly the blocks of `m`, each once. */
  ghost predicate Layout(f: File, m: Blocks) {
    && (forall n :: n in m <==> Block(n) in f.pre || Block(n) == f.last)
    && (forall i, j :: 0 <= i < j < |f.pre| && f.pre[i].Block? ==> f.pre[i] != f.pre[j])
    && (f.last.Block? ==> f.last !in f.pre)
    && SpaceIn(f.post, 0, |f.post|)
    && (RStrip(TextOf(f.last, m)) != "" || f.pre == [])
  }

  lemma {:induction false} AbsentFromLines(ps: seq<Piece>, m: Blocks, h: string)
    requires OneLine(h)
    requires forall p :: p in ps ==> WholeLines(TextOf(p, m)) && Absent(TextOf(p, m), h)
    ensures Absent(Render(ps, m), h)
  {
    if ps != [] {
      assert ps[0] in ps;
      AbsentFromLines(ps[1..], m, h);
      forall i: nat ensures !OccursAt(Render(ps, m), h, i) {
        if OccursAt(Render(ps, m), h, i) {
          OccursInOne(TextOf(ps[0], m), Render(ps[1..], m), h, i);
        }
      }
    }
  }

  lemma {:induction false} LinesAreWhole(ps: seq<Piece>, m: Blocks)
    requires forall p :: p in ps ==> WholeLines(TextOf(p, m))
    ensures WholeLines(Render(ps, m))
  {
    if ps != [] {
      assert ps[0] in ps;
      LinesAreWhole(ps[1..], m);
    }
  }

  // ----- what a replay writes -----

  predicate Added(base: Blocks, theirs: Blocks, name: string) {
    name !in base && name in theirs
  }

  /** Our blocks, with those of theirs that were replayed so far. */
  function Mix(ours: Blocks, theirs: Blocks, names: seq<string>): Blocks {
    map n | n in ours.Keys + theirs.Keys && (n in ours || n in names)
      :: if n in names && n in theirs then theirs[n] else ours[n]
  }

  /** The added blocks at the end of the text, each trimmed before the next one follows. */
  function Tail(base: Blocks, theirs: Blocks, names: seq<string>): string {
    if names == [] then ""
    else
      var name := names[|names| - 1];
      var front := Tail(base, theirs, names[..|names| - 1]);
      if !Added(base, theirs, name) then front
      else (if front == "" then "" else RStrip(front) + "\n\n") + theirs[name] + "\n"
  }

  /** Our last block is replayed when a block has already been added behind it. */
  predicate Late(f: File, base: Blocks, ours: Blocks, theirs: Blocks, names: seq<string>) {
    names != []
    && (var name, front := names[|names| - 1], names[..|names| - 1];
        Late(f, base, ours, theirs, front)
        || (f.last == Block(name) && name in ours && name in theirs && Tail(base, theirs, front) != ""))
  }

  /** No white space stands at the end of the text, or one line feed: then it is still found in front of an
      added block. */
  predicate Findable(t: string) {
    t == RStrip(t) || t == RStrip(t) + "\n"
  }

  /** What stands between the pieces before the last one and the added blocks. */
  function Between(f: File, base: Blocks, ours: Blocks, theirs: Blocks, names: seq<string>): string {
    var t := TextOf(f.last, ours);
    var now := TextOf(f.last, Mix(ours, theirs, names));
    if Tail(base, theirs, names) == "" then now + f.post
    else if !Late(f, base, ours, theirs, names) then RStrip(now) + "\n\n"
    else if !Findable(t) then RStrip(t) + "\n\n"
    else now + (if t == RStrip(t) then "\n\n" else "\n")
  }

  // ----- when the blocks can be told apart -----

  /** The first line of our block opens it and occurs in no other text of either side that comes together. */
  ghost predicate Separable(f: File, ours: Blocks, theirs: Blocks, mods: set<string>, name: string)
    requires name in ours
  {
    var h := Head(ours[name]);
    && h != "" && Opens(h, ours[name])
    && (forall p :: p in f.pre + [f.last] && p.Gap? ==> Absent(p.text, h)) && Absent(f.post, h)
    && (forall n :: n in ours && n != name ==> Absent(ours[n], h))
    && (forall n :: n in mods && n in theirs && n != name ==> Absent(theirs[n], h))
  }

  /** The edits are disjoint, the file is laid out of our blocks, what stands in front of its last piece is
      whole lines before and after the edits, no changed text is blank, and the changed blocks can be told
      apart.  Nothing is asked of the white space at the end of a block, but that our last one, if they changed
      it, does not end in a blank line. */
  ghost predicate Mergeable(f: File, base: Blocks, ours: Blocks, theirs: Blocks) {
    var mods := Modified(base, theirs);
    && Disjoint(base, ours, theirs) && Layout(f, ours)
    && (forall p :: p in f.pre ==> WholeLines(TextOf(p, ours)))
    && Apart(TextOf(f.last, ours), f.post)
    && (forall n :: n in mods && n in theirs ==> RStrip(theirs[n]) != "")
    && (forall n :: n in mods && n in theirs && n in ours ==>
          && (Block(n) in f.pre ==> WholeLines(theirs[n]))
          && (Block(n) == f.last ==> Apart(theirs[n], f.post) && NoBlankEnd(ours[n]))
          && Separable(f, ours, theirs, mods, n))
  }

  /** White space at the end that starts with a line feed is that line feed. */
  predicate NoBlankEnd(t: string) {
    var w := t[|RStrip(t)|..];
    w == "" || w[0] != '\n' || w == "\n"
  }

  lemma HeadIsLine(t: string)
    requires Head(t) != ""
    ensures OneLine(Head(t)) && OccursAt(t, Head(t), 0) && Head(t) == t[..|Head(t)|] && t != ""
  {
  }

  /** A block that its first line opens occurs once between texts that lack that line. */
  lemma BlockOccursOnce(pre: string, text: string, post: string)
    requires WholeLines(pre) && Apart(text, post) && Head(text) != "" && Opens(Head(text), text)
    requires Absent(pre, Head(text)) && Absent(post, Head(text))
    ensures forall i: nat :: OccursAt(pre + text + post, text, i) ==> i == |pre|
  {
    hide Head, Absent, Opens;
    var h, s := Head(text), pre + text + post;
    HeadIsLine(text);
    assert s == pre + (text + post);
    forall i: nat | OccursAt(s, text, i) ensures i == |pre| {
      SliceOfSlice(s, i, i + |text|, 0, |h|);
      assert OccursAt(s, h, i);
      OccursOnlyIn(pre, text, post, h, i);
    }
  }

  lemma OccursOnlyIn(pre: string, text: string, post: string, h: string, i: nat)
    requires WholeLines(pre) && Apart(text, post) && OneLine(h) && OccursAt(pre + (text + post), h, i)
    requires Absent(pre, h) && Absent(post, h) && Opens(h, text)
    ensures i == |pre|
  {
    hide WholeLines, OneLine, OccursAt;
    WholeIsApart(pre, text + post);
    OccursInOne(pre, text + post, h, i);
    OccursInOne(text, post, h, i - |pre|);
  }

  lemma WholeIsApart(a: string, b: string)
    requires WholeLines(a)
    ensures Apart(a, b)
  {
  }

  /** A block before the last piece is replaced in its place, whatever stands behind the pieces. */
  lemma ReplaceInPieces(ps: seq<Piece>, m: Blocks, name: string, to: string, behind: string)
    requires Block(name) in ps && name in m && (forall i, j :: 0 <= i < j < |ps| && ps[i].Block? ==> ps[i] != ps[j])
    requires forall p :: p in ps ==> WholeLines(TextOf(p, m))
    requires Head(m[name]) != "" && Opens(Head(m[name]), m[name])
    requires forall p :: p in ps && p != Block(name) ==> Absent(TextOf(p, m), Head(m[name]))
    requires Absent(behind, Head(m[name]))
    ensures Replace(Render(ps, m) + behind, m[name], to) == Render(ps, m[name := to]) + behind
  {
    hide Replace, Head, Render, Absent, Opens, WholeLines;
    var i :| 0 <= i < |ps| && ps[i] == Block(name);
    var pre, post, h := ps[..i], ps[i + 1..], Head(m[name]);
    HeadIsLine(m[name]);
    forall p | p in pre || p in post ensures p in ps && p != Block(name) {
      var k :| 0 <= k < |ps| && k != i && ps[k] == p;
    }
    LinesAreWhole(pre, m);
    LinesAreWhole(post, m);
    AbsentFromLines(pre, m, h);
    AbsentFromLines(post, m, h);
    var a, b := Render(pre, m), Render(post, m);
    WholeIsApart(b, behind);
    AbsentJoin(b, behind, h);
    WholeIsApart(m[name], b + behind);
    BlockOccursOnce(a, m[name], b + behind);
    ReplaceOnce(a, m[name], b + behind, to);
    RenderAround(ps, i, m);
    RenderAround(ps, i, m[name := to]);
    RenderSame(pre, m, name, to);
    RenderSame(post, m, name, to);
    ConcatAssociates(a + m[name], b, behind);
    ConcatAssociates(a + to, b, behind);
  }

  // ----- the text, for every order -----

  /** What disjointness says of the next name. */
  lemma NextName(base: Blocks, ours: Blocks, theirs: Blocks, front: seq<string>, name: string)
    requires Disjoint(base, ours, theirs) && name in Modified(base, theirs) && name !in front
    ensures name in base <==> name in ours
    ensures name in base || name in theirs
    ensures Mix(ours, theirs, front + [name]) == (
      if name in theirs then Mix(ours, theirs, front)[name := theirs[name]] else Mix(ours, theirs, front))
    ensures name in ours ==> Lookup(Mix(ours, theirs, front), name) == Some(ours[name])
    ensures name in Mix(ours, theirs, front) <==> name in ours
  {
    assert name !in Modified(base, ours);
    MixNext(ours, theirs, front, name);
  }

  lemma MixNext(ours: Blocks, theirs: Blocks, front: seq<string>, name: string)
    requires name in ours || name in theirs
    ensures Mix(ours, theirs, front + [name]) == (
      if name in theirs then Mix(ours, theirs, front)[name := theirs[name]] else Mix(ours, theirs, front))
  {
    assert forall n :: n in front + [name] <==> n in front || n == name;
  }

  lemma {:induction false} LateSays(f: File, base: Blocks, ours: Blocks, theirs: Blocks, names: seq<string>)
    requires Late(f, base, ours, theirs, names)
    ensures f.last.Block? && f.last.name in names && f.last.name in ours && f.last.name in theirs
    ensures Tail(base, theirs, names) != ""
    decreases |names|
  {
    var last := |names| - 1;
    if Late(f, base, ours, theirs, names[..last]) { LateSays(f, base, ours, theirs, names[..last]); }
    assert names == names[..last] + [names[last]];
  }

  lemma TailNext(base: Blocks, theirs: Blocks, front: seq<string>, name: string)
    ensures var t := Tail(base, theirs, front);
      Tail(base, theirs, front + [name]) == if !Added(base, theirs, name) then t
        else (if t == "" then "" else RStrip(t) + "\n\n") + theirs[name] + "\n"
  {
    assert (front + [name])[..|front|] == front;
  }

  lemma LateNext(f: File, base: Blocks, ours: Blocks, theirs: Blocks, front: seq<string>, name: string)
    ensures Late(f, base, ours, theirs, front + [name]) ==
      (Late(f, base, ours, theirs, front)
       || (f.last == Block(name) && name in ours && name in theirs && Tail(base, theirs, front) != ""))
  {
    assert (front + [name])[..|front|] == front;
  }

  /** The added blocks say something, and lack what their texts lack. */
  lemma {:induction false} TailSays(base: Blocks, theirs: Blocks, names: seq<string>)
    requires forall n :: n in names && n in theirs ==> RStrip(theirs[n]) != ""
    ensures Tail(base, theirs, names) != "" ==> RStrip(Tail(base, theirs, names)) != ""
    decreases |names|
  {
    if names != [] {
      hide RStrip;
      var front, name := names[..|names| - 1], names[|names| - 1];
      assert names == front + [name] && name in names && forall n :: n in front ==> n in names;
      TailSays(base, theirs, front);
      TailNext(base, theirs, front, name);
      if Added(base, theirs, name) {
        var a := if Tail(base, theirs, front) == "" then "" else RStrip(Tail(base, theirs, front)) + "\n\n";
        ConcatAssociates(a, theirs[name], "\n");
        RStripConcat(a, theirs[name] + "\n");
        FeedStrips(theirs[name]);
        StripFront(a, RStrip(theirs[name]));
      }
    }
  }

  lemma FeedStrips(t: string)
    ensures RStrip(t + "\n") == RStrip(t)
  {
    RStripAt("\n", 0);
    RStripConcat(t, "\n");
  }

  lemma StripFront(a: string, b: string)
    requires b != ""
    ensures a + b != ""
  {
  }

  lemma {:induction false} TailLacks(base: Blocks, theirs: Blocks, names: seq<string>, h: string)
    requires OneLine(h) && forall n :: n in names && n in theirs ==> Absent(theirs[n], h)
    ensures Absent(Tail(base, theirs, names), h)
    decreases |names|
  {
    hide RStrip, OneLine, Absent;
    if names == [] {
      FeedsLack("", h);
    } else {
      var front, name := names[..|names| - 1], names[|names| - 1];
      assert names == front + [name] && name in names && forall n :: n in front ==> n in names;
      TailLacks(base, theirs, front, h);
      TailNext(base, theirs, front, name);
      if Added(base, theirs, name) {
        var t := Tail(base, theirs, front);
        BlockAndFeedLack(theirs[name], h);
        if t == "" {
          assert "" + theirs[name] + "\n" == theirs[name] + "\n";
        } else {
          TrimmedAndFeedsLack(t, h);
          FeedsAreWhole(RStrip(t));
          AbsentJoin(RStrip(t) + "\n\n", theirs[name] + "\n", h);
          ConcatAssociates(RStrip(t) + "\n\n", theirs[name], "\n");
        }
      }
    }
  }

  lemma FeedsLack(t: string, h: string)
    requires OneLine(h) && forall c :: c in t ==> c == '\n'
    ensures Absent(t, h)
  {
    AllBreaks(t, h);
  }

  lemma BlockAndFeedLack(t: string, h: string)
    requires OneLine(h) && Absent(t, h)
    ensures Absent(t + "\n", h)
  {
    AbsentAfterBreaks(t, "\n", h);
  }

  lemma BlockAndFeedsLack(t: string, h: string)
    requires OneLine(h) && Absent(t, h)
    ensures Absent(t + "\n\n", h)
  {
    AbsentAfterBreaks(t, "\n\n", h);
  }

  lemma TrimmedAndFeedsLack(t: string, h: string)
    requires OneLine(h) && Absent(t, h)
    ensures Absent(RStrip(t) + "\n\n", h)
  {
    TrimmedLacks(t);
  }

  lemma FeedsAreWhole(t: string)
    ensures forall b :: Apart(t + "\n\n", b) && Apart(t + "\n", b)
  {
  }

  /** The names replayed are theirs, each once. */
  ghost predicate Replayed(base: Blocks, theirs: Blocks, names: seq<string>) {
    && (forall n :: n in names ==> n in Modified(base, theirs))
    && (forall i, j :: 0 <= i < j < |names| ==> names[i] != names[j])
  }

  lemma ReplayedFront(base: Blocks, theirs: Blocks, front: seq<string>, name: string)
    requires Replayed(base, theirs, front + [name])
    ensures Replayed(base, theirs, front) && name in Modified(base, theirs) && name !in front
  {
    hide Modified;
    var names := front + [name];
    assert names[|front|] == name && name in names;
    assert forall i :: 0 <= i < |front| ==> names[i] == front[i];
    assert forall n :: n in front ==> n in names;
  }

  /** The last piece as it is by now. */
  lemma LastNow(f: File, base: Blocks, ours: Blocks, theirs: Blocks, names: seq<string>)
    requires Mergeable(f, base, ours, theirs) && Replayed(base, theirs, names)
    ensures var now := TextOf(f.last, Mix(ours, theirs, names));
      && Apart(now, f.post) && (RStrip(now) != "" || f.pre == [])
      && now == (if f.last.Block? && f.last.name in names && f.last.name in theirs then theirs[f.last.name]
                 else TextOf(f.last, ours))
  {
    hide Apart, RStrip, Modified, Disjoint, Separable, NoBlankEnd, WholeLines;
    if f.last.Block? { assert f.last.name in ours; }
  }

  lemma LastLacks(f: File, base: Blocks, ours: Blocks, theirs: Blocks, names: seq<string>, name: string)
    requires Mergeable(f, base, ours, theirs) && Replayed(base, theirs, names)
    requires name in Modified(base, theirs) && name in ours && name in theirs && f.last != Block(name)
    ensures var h := Head(ours[name]);
      && OneLine(h) && Absent(TextOf(f.last, ours), h) && Absent(TextOf(f.last, Mix(ours, theirs, names)), h)
      && Absent(f.post, h)
  {
    LastNow(f, base, ours, theirs, names);
    hide Apart, RStrip, Modified, Disjoint, NoBlankEnd, WholeLines, Absent, Head, Opens;
    HeadIsLine(ours[name]);
    assert f.last in f.pre + [f.last];
    if f.last.Block? { assert f.last.name in ours; }
  }

  lemma BetweenLacks(f: File, base: Blocks, ours: Blocks, theirs: Blocks, names: seq<string>, name: string)
    requires Mergeable(f, base, ours, theirs) && Replayed(base, theirs, names)
    requires name in Modified(base, theirs) && name in ours && name in theirs && f.last != Block(name)
    requires name !in names
    ensures Absent(Between(f, base, ours, theirs, names) + Tail(base, theirs, names), Head(ours[name]))
  {
    hide Apart, RStrip, Modified, Disjoint, NoBlankEnd, WholeLines, Absent, Head, Opens, Separable, Late, Tail,
         Layout, OneLine, Findable;
    var h, t, now := Head(ours[name]), TextOf(f.last, ours), TextOf(f.last, Mix(ours, theirs, names));
    var b, tail := Between(f, base, ours, theirs, names), Tail(base, theirs, names);
    LastNow(f, base, ours, theirs, names);
    LastLacks(f, base, ours, theirs, names, name);
    if tail == "" {
      AbsentJoin(now, f.post, h);
      assert b + tail == b;
    } else {
      TheirsLack(f, base, ours, theirs, names, name);
      TailLacks(base, theirs, names, h);
      FeedsAreWhole(RStrip(now));
      FeedsAreWhole(RStrip(t));
      FeedsAreWhole(now);
      TrimmedAndFeedsLack(now, h);
      TrimmedAndFeedsLack(t, h);
      BlockAndFeedsLack(now, h);
      BlockAndFeedLack(now, h);
      AbsentJoin(b, tail, h);
    }
  }

  lemma TheirsLack(f: File, base: Blocks, ours: Blocks, theirs: Blocks, names: seq<string>, name: string)
    requires Mergeable(f, base, ours, theirs) && Replayed(base, theirs, names) && name !in names
    requires name in Modified(base, theirs) && name in ours && name in theirs
    ensures forall n :: n in names && n in theirs ==> Absent(theirs[n], Head(ours[name]))
  {
    hide Apart, RStrip, Modified, Disjoint, NoBlankEnd, WholeLines, Absent, Head, Opens, Layout;
    assert Separable(f, ours, theirs, Modified(base, theirs), name);
  }

  /** The text after the names were replayed. */
  function Written(f: File, base: Blocks, ours: Blocks, theirs: Blocks, names: seq<string>): string {
    Render(f.pre, Mix(ours, theirs, names)) + Between(f, base, ours, theirs, names) + Tail(base, theirs, names)
  }

  /** The edit of a block before the last piece. */
  lemma EditBefore(f: File, base: Blocks, ours: Blocks, theirs: Blocks, front: seq<string>, name: string)
    requires Mergeable(f, base, ours, theirs) && Replayed(base, theirs, front + [name])
    requires name in ours && name in theirs && Block(name) in f.pre
    ensures Replace(Written(f, base, ours, theirs, front), ours[name], theirs[name])
      == Written(f, base, ours, theirs, front + [name])
  {
    hide Apart, RStrip, Modified, Disjoint, NoBlankEnd, WholeLines, Absent, Head, Opens, Late, Tail, Replace,
         Render, Findable, Lookup, Mix;
    ReplayedFront(base, theirs, front, name);
    NextName(base, ours, theirs, front, name);
    var m := Mix(ours, theirs, front);
    var b, tail := Between(f, base, ours, theirs, front), Tail(base, theirs, front);
    BetweenLacks(f, base, ours, theirs, front, name);
    PiecesNow(f, base, ours, theirs, front, name);
    ReplaceInPieces(f.pre, m, name, theirs[name], b + tail);
    TailNext(base, theirs, front, name);
    LateNext(f, base, ours, theirs, front, name);
    ConcatAssociates(Render(f.pre, m), b, tail);
    ConcatAssociates(Render(f.pre, m[name := theirs[name]]), b, tail);
    LastUntouched(f, m, name, theirs[name]);
  }

  lemma LastUntouched(f: File, m: Blocks, name: string, to: string)
    requires f.last != Block(name)
    ensures TextOf(f.last, m[name := to]) == TextOf(f.last, m)
  {
  }

  lemma PiecesNow(f: File, base: Blocks, ours: Blocks, theirs: Blocks, names: seq<string>, name: string)
    requires Mergeable(f, base, ours, theirs) && Replayed(base, theirs, names) && name !in names
    requires name in Modified(base, theirs) && name in ours && name in theirs
    ensures var (m, h) := (Mix(ours, theirs, names), Head(ours[name]));
      && name in m && m[name] == ours[name] && h != "" && Opens(h, ours[name])
      && (forall p :: p in f.pre ==> WholeLines(TextOf(p, m)))
      && (forall p :: p in f.pre && p != Block(name) ==> Absent(TextOf(p, m), h))
  {
    hide Apart, RStrip, Modified, Disjoint, NoBlankEnd, WholeLines, Absent, Head, Opens;
    var m, h := Mix(ours, theirs, names), Head(ours[name]);
    assert Separable(f, ours, theirs, Modified(base, theirs), name);
    forall p | p in f.pre ensures WholeLines(TextOf(p, m)) && (p != Block(name) ==> Absent(TextOf(p, m), h)) {
      assert p in f.pre + [f.last];
      assert WholeLines(TextOf(p, ours));
      if p.Block? {
        assert p.name in ours;
        if p.name in names && p.name in theirs { assert p.name in Modified(base, theirs); }
      }
    }
  }

  lemma StripsToPrefix(t: string)
    ensures |RStrip(t)| <= |t| && t == RStrip(t) + t[|RStrip(t)|..] && RStrip(t) == t[..|RStrip(t)|]
  {
    hide RStrip, SpaceIn;
  }

  /** A last block that is not findable occurs nowhere any more once it was trimmed. */
  lemma NotFound(pre: string, t: string, tail: string)
    requires WholeLines(pre) && Head(t) != "" && Opens(Head(t), t) && NoBlankEnd(t) && !Findable(t)
    requires Absent(pre, Head(t)) && Absent(tail, Head(t))
    ensures Absent(pre + (RStrip(t) + "\n\n") + tail, t)
  {
    hide Head, Opens, RStrip, WholeLines, Findable, NoBlankEnd, Apart;
    var h, r := Head(t), RStrip(t);
    var cur := pre + (r + "\n\n") + tail;
    HeadIsLine(t);
    StripsToPrefix(t);
    PrefixLacks(t, |r|, h);
    TrimmedOpens(t, h);
    FeedsAreWhole(r);
    AbsentJoinFeeds(tail, h);
    FeedsStart("\n\n" + tail, r);
    assert cur == pre + (r + ("\n\n" + tail));
    forall i: nat ensures !OccursAt(cur, t, i) {
      if OccursAt(cur, t, i) {
        SliceOfSlice(cur, i, i + |t|, 0, |h|);
        assert OccursAt(cur, h, i);
        OccursOnlyIn(pre, r, "\n\n" + tail, h, i);
        EndIsFeed(pre, t, tail);
      }
    }
  }

  lemma PrefixLacks(t: string, n: nat, h: string)
    requires n <= |t| && Opens(h, t)
    ensures Opens(h, t[..n])
  {
    hide OccursAt;
    forall i: nat | OccursAt(t[..n], h, i) ensures i == 0 {
      OccursInPrefix(t, n, h, i);
    }
  }

  lemma TrimmedOpens(t: string, h: string)
    requires Opens(h, t)
    ensures Opens(h, RStrip(t))
  {
    hide Opens, RStrip, SpaceIn;
    StripsToPrefix(t);
    PrefixLacks(t, |RStrip(t)|, h);
  }

  lemma AbsentJoinFeeds(tail: string, h: string)
    requires OneLine(h) && Absent(tail, h)
    ensures Absent("\n\n" + tail, h)
  {
    AllBreaks("\n\n", h);
    AbsentJoin("\n\n", tail, h);
  }

  lemma FeedsStart(s: string, r: string)
    requires s != "" && s[0] == '\n'
    ensures Apart(r, s)
  {
  }

  /** What would have to stand there is one line feed. */
  lemma EndIsFeed(pre: string, t: string, tail: string)
    requires NoBlankEnd(t) && OccursAt(pre + (RStrip(t) + "\n\n") + tail, t, |pre|)
    ensures Findable(t)
  {
    hide RStrip, SpaceIn;
    StripsToPrefix(t);
    var r := RStrip(t);
    var w := t[|r|..];
    var cur := pre + (r + "\n\n") + tail;
    if w != "" {
      OccursChar(cur, t, |pre|, |r|);
      assert cur[|pre| + |r|] == '\n';
      assert w[0] == t[|r|];
    } else {
      assert t == r;
    }
  }

  /** The edit of our last block before anything was added. */
  lemma EditLastEarly(f: File, base: Blocks, ours: Blocks, theirs: Blocks, front: seq<string>, name: string)
    requires Mergeable(f, base, ours, theirs) && Replayed(base, theirs, front + [name])
    requires name in ours && name in theirs && f.last == Block(name) && Tail(base, theirs, front) == ""
    ensures Replace(Written(f, base, ours, theirs, front), ours[name], theirs[name])
      == Written(f, base, ours, theirs, front + [name])
  {
    hide Apart, RStrip, Modified, Disjoint, NoBlankEnd, WholeLines, Absent, Head, Opens, Tail, Replace, Render,
         Findable, Lookup, Mix, Late;
    ReplayedFront(base, theirs, front, name);
    NextName(base, ours, theirs, front, name);
    var m, t, to := Mix(ours, theirs, front), ours[name], theirs[name];
    LastInPlace(f, base, ours, theirs, front, name);
    var p := Render(f.pre, m);
    BlockOccursOnce(p, t, f.post);
    ReplaceOnce(p, t, f.post, to);
    TailNext(base, theirs, front, name);
    RenderSame(f.pre, m, name, to);
    ConcatAssociates(p, t, f.post);
    ConcatAssociates(p, to, f.post);
    assert Written(f, base, ours, theirs, front) == p + t + f.post;
    assert Written(f, base, ours, theirs, front + [name]) == p + to + f.post;
  }

  /** Where our last block stands, and what lacks its first line. */
  lemma LastInPlace(f: File, base: Blocks, ours: Blocks, theirs: Blocks, front: seq<string>, name: string)
    requires Mergeable(f, base, ours, theirs) && Replayed(base, theirs, front + [name])
    requires name in ours && name in theirs && f.last == Block(name)
    ensures var (m, t) := (Mix(ours, theirs, front), ours[name]);
      && name in m && m[name] == t && Block(name) !in f.pre
      && WholeLines(Render(f.pre, m)) && Apart(t, f.post) && Head(t) != "" && Opens(Head(t), t) && NoBlankEnd(t)
      && Absent(Render(f.pre, m), Head(t)) && Absent(f.post, Head(t)) && Absent(Tail(base, theirs, front), Head(t))
  {
    hide Apart, RStrip, Modified, Disjoint, NoBlankEnd, WholeLines, Absent, Head, Opens, Tail, Render, Late,
         Lookup, Mix;
    ReplayedFront(base, theirs, front, name);
    PiecesNow(f, base, ours, theirs, front, name);
    var m, h := Mix(ours, theirs, front), Head(ours[name]);
    HeadIsLine(ours[name]);
    AbsentFromLines(f.pre, m, h);
    LinesAreWhole(f.pre, m);
    assert Separable(f, ours, theirs, Modified(base, theirs), name);
    TheirsLack(f, base, ours, theirs, front, name);
    TailLacks(base, theirs, front, h);
  }

  /** Its edit behind an addition. */
  lemma EditLastLate(f: File, base: Blocks, ours: Blocks, theirs: Blocks, front: seq<string>, name: string)
    requires Mergeable(f, base, ours, theirs) && Replayed(base, theirs, front + [name])
    requires name in ours && name in theirs && f.last == Block(name) && Tail(base, theirs, front) != ""
    ensures Replace(Written(f, base, ours, theirs, front), ours[name], theirs[name])
      == Written(f, base, ours, theirs, front + [name])
  {
    hide Apart, RStrip, Modified, Disjoint, NoBlankEnd, WholeLines, Absent, Head, Opens, Tail, Replace, Render,
         Lookup, Mix, Late;
    ReplayedFront(base, theirs, front, name);
    NextName(base, ours, theirs, front, name);
    var m, t, to, tail := Mix(ours, theirs, front), ours[name], theirs[name], Tail(base, theirs, front);
    LastInPlace(f, base, ours, theirs, front, name);
    TailNext(base, theirs, front, name);
    LateNext(f, base, ours, theirs, front, name);
    NotLateYet(f, base, ours, theirs, front, name);
    RenderSame(f.pre, m, name, to);
    var p := Render(f.pre, m);
    assert Written(f, base, ours, theirs, front) == p + (RStrip(t) + "\n\n") + tail;
    if Findable(t) {
      FoundLate(p, t, to, tail);
    } else {
      NotFound(p, t, tail);
      ReplaceNone(p + (RStrip(t) + "\n\n") + tail, t, to);
    }
  }

  lemma NotLateYet(f: File, base: Blocks, ours: Blocks, theirs: Blocks, front: seq<string>, name: string)
    requires f.last == Block(name) && name !in front
    ensures !Late(f, base, ours, theirs, front)
  {
    if Late(f, base, ours, theirs, front) { LateSays(f, base, ours, theirs, front); }
  }

  lemma FoundLate(p: string, t: string, to: string, tail: string)
    requires WholeLines(p) && Head(t) != "" && Opens(Head(t), t) && Findable(t)
    requires Absent(p, Head(t)) && Absent(tail, Head(t))
    ensures Replace(p + (RStrip(t) + "\n\n") + tail, t, to)
      == p + (to + (if t == RStrip(t) then "\n\n" else "\n")) + tail
  {
    hide Apart, RStrip, WholeLines, Absent, Head, Opens, Replace;
    var v := if t == RStrip(t) then "\n\n" else "\n";
    HeadIsLine(t);
    SplitFeeds(t);
    FeedsStart(v + tail, t);
    if v == "\n\n" { AbsentJoinFeeds(tail, Head(t)); } else { AbsentJoinFeed(tail, Head(t)); }
    BlockOccursOnce(p, t, v + tail);
    ReplaceOnce(p, t, v + tail, to);
    assert p + (RStrip(t) + "\n\n") + tail == p + t + (v + tail);
    assert p + (to + v) + tail == p + to + (v + tail);
  }

  lemma AbsentJoinFeed(tail: string, h: string)
    requires OneLine(h) && Absent(tail, h)
    ensures Absent("\n" + tail, h)
  {
    AllBreaks("\n", h);
    AbsentJoin("\n", tail, h);
  }

  lemma SplitFeeds(t: string)
    requires Findable(t)
    ensures RStrip(t) + "\n\n" == t + (if t == RStrip(t) then "\n\n" else "\n")
  {
    hide RStrip;
    assert "\n\n" == "\n" + "\n";
  }

  /** What an addition is to leave behind. */
  lemma AdditionWrites(f: File, base: Blocks, ours: Blocks, theirs: Blocks, front: seq<string>, name: string)
    requires Mergeable(f, base, ours, theirs) && Replayed(base, theirs, front + [name])
    requires name !in base && name !in ours && name in theirs
    ensures var (m, tail) := (Mix(ours, theirs, front), Tail(base, theirs, front));
      Written(f, base, ours, theirs, front + [name]) == Render(f.pre, m)
        + (if tail == "" then RStrip(TextOf(f.last, m)) + "\n\n" else Between(f, base, ours, theirs, front))
        + ((if tail == "" then "" else RStrip(tail) + "\n\n") + theirs[name] + "\n")
  {
    hide Apart, RStrip, Modified, Disjoint, NoBlankEnd, WholeLines, Tail, Render, Findable, Lookup, Mix,
         Separable, Late, SpaceIn;
    ReplayedFront(base, theirs, front, name);
    NextName(base, ours, theirs, front, name);
    TailNext(base, theirs, front, name);
    LateNext(f, base, ours, theirs, front, name);
    if Tail(base, theirs, front) == "" { NotLateWithoutTail(f, base, ours, theirs, front); }
    var m := Mix(ours, theirs, front);
    assert Block(name) !in f.pre && f.last != Block(name);
    LastUntouched(f, m, name, theirs[name]);
    RenderSame(f.pre, m, name, theirs[name]);
  }

  /** An addition. */
  lemma Addition(f: File, base: Blocks, ours: Blocks, theirs: Blocks, front: seq<string>, name: string)
    requires Mergeable(f, base, ours, theirs) && Replayed(base, theirs, front + [name])
    requires name !in base && name !in ours && name in theirs
    ensures RStrip(Written(f, base, ours, theirs, front)) + "\n\n" + theirs[name] + "\n"
      == Written(f, base, ours, theirs, front + [name])
  {
    hide Apart, RStrip, Modified, Disjoint, NoBlankEnd, WholeLines, Tail, Render, Findable, Lookup, Mix,
         Separable, Late, SpaceIn, Between;
    ReplayedFront(base, theirs, front, name);
    AdditionWrites(f, base, ours, theirs, front, name);
    var m, tail, b := Mix(ours, theirs, front), Tail(base, theirs, front), Between(f, base, ours, theirs, front);
    var p, now := Render(f.pre, m), TextOf(f.last, m);
    if tail == "" {
      LastNow(f, base, ours, theirs, front);
      SourceStrips(f, m);
      NothingAddedYet(f, base, ours, theirs, front);
      RegroupFirst(p, RStrip(now), theirs[name]);
    } else {
      assert forall n :: n in front && n in theirs ==> RStrip(theirs[n]) != "";
      TailSays(base, theirs, front);
      RStripConcat(p + b, tail);
      RegroupNext(p + b, RStrip(tail), theirs[name]);
    }
  }

  lemma NothingAddedYet(f: File, base: Blocks, ours: Blocks, theirs: Blocks, front: seq<string>)
    requires Tail(base, theirs, front) == ""
    ensures Written(f, base, ours, theirs, front) == Source(f, Mix(ours, theirs, front))
  {
    hide Tail, Late, Render, Mix, RStrip;
    var m := Mix(ours, theirs, front);
    var p, now := Render(f.pre, m), TextOf(f.last, m);
    assert p + (now + f.post) + "" == p + now + f.post;
  }

  lemma RegroupFirst(p: string, r: string, t: string)
    ensures p + r + "\n\n" + t + "\n" == p + (r + "\n\n") + ("" + t + "\n")
  {
    assert "" + t == t;
  }

  lemma RegroupNext(p: string, r: string, t: string)
    ensures p + r + "\n\n" + t + "\n" == p + (r + "\n\n" + t + "\n")
  {
  }

  lemma NotLateWithoutTail(f: File, base: Blocks, ours: Blocks, theirs: Blocks, names: seq<string>)
    requires Tail(base, theirs, names) == ""
    ensures !Late(f, base, ours, theirs, names)
  {
    if Late(f, base, ours, theirs, names) { LateSays(f, base, ours, theirs, names); }
  }

  lemma SourceStrips(f: File, m: Blocks)
    requires SpaceIn(f.post, 0, |f.post|) && (RStrip(TextOf(f.last, m)) != "" || f.pre == [])
    ensures RStrip(Source(f, m)) == Render(f.pre, m) + RStrip(TextOf(f.last, m))
  {
    hide RStrip, Render, IsSpace;
    var p, now := Render(f.pre, m), TextOf(f.last, m);
    RStripAt(f.post, 0);
    RStripConcat(p + now, f.post);
    RStripConcat(p, now);
    if f.pre == [] {
      NothingRenders(m);
      RStripAt("", 0);
      assert "" + RStrip(now) == RStrip(now);
    }
  }

  /** Whatever the order, the text after a replay is exactly this. */
  lemma {:induction false} ReplayIs(f: File, base: Blocks, ours: Blocks, theirs: Blocks, names: seq<string>)
    requires Mergeable(f, base, ours, theirs) && Replayed(base, theirs, names)
    ensures TextMerge(base, ours, theirs, Source(f, ours), names) == Written(f, base, ours, theirs, names)
    decreases |names|
  {
    hide Modified, Separable, Layout, TextStep, Between, Render;
    if names == [] {
      NothingReplayed(f, base, ours, theirs);
    } else {
      var last := |names| - 1;
      var front, name := names[..last], names[last];
      assert names == front + [name];
      ReplayedFront(base, theirs, front, name);
      ReplayIs(f, base, ours, theirs, front);
      ReplayNext(f, base, ours, theirs, front, name);
    }
  }

  lemma NothingReplayed(f: File, base: Blocks, ours: Blocks, theirs: Blocks)
    ensures Written(f, base, ours, theirs, []) == Source(f, ours)
  {
    hide Render;
    assert Mix(ours, theirs, []) == ours;
    var p, now := Render(f.pre, ours), TextOf(f.last, ours);
    assert p + (now + f.post) + "" == p + now + f.post;
  }

  lemma ReplayNext(f: File, base: Blocks, ours: Blocks, theirs: Blocks, front: seq<string>, name: string)
    requires Mergeable(f, base, ours, theirs) && Replayed(base, theirs, front + [name])
    ensures TextStep(base, ours, theirs, Written(f, base, ours, theirs, front), name)
      == Written(f, base, ours, theirs, front + [name])
  {
    hide Modified, Disjoint, Separable, Written, Replace, RStrip, Replayed, Tail, Lookup, Mix, Apart,
         NoBlankEnd, WholeLines;
    ReplayedFront(base, theirs, front, name);
    NextName(base, ours, theirs, front, name);
    if name in ours && name in theirs {
      if f.last != Block(name) {
        EditBefore(f, base, ours, theirs, front, name);
      } else if Tail(base, theirs, front) == "" {
        EditLastEarly(f, base, ours, theirs, front, name);
      } else {
        EditLastLate(f, base, ours, theirs, front, name);
      }
    } else if name in ours {
      DeletionWritesNothing(f, base, ours, theirs, front, name);
    } else {
      Addition(f, base, ours, theirs, front, name);
    }
  }

  lemma DeletionWritesNothing(f: File, base: Blocks, ours: Blocks, theirs: Blocks, front: seq<string>, name: string)
    requires Disjoint(base, ours, theirs) && name in Modified(base, theirs) && name !in front && name !in theirs
    ensures Written(f, base, ours, theirs, front + [name]) == Written(f, base, ours, theirs, front)
  {
    hide Render, RStrip, Findable, Modified, Disjoint, Late, Tail, Mix;
    NextName(base, ours, theirs, front, name);
    TailNext(base, theirs, front, name);
    LateNext(f, base, ours, theirs, front, name);
  }

  // ----- no edit is lost -----

  /** The text shows the blocks of `m` in our layout and the added ones behind, on lines of their own; only the
      white space between them is left open. */
  ghost predicate Laid(text: string, f: File, m: Blocks, tail: string) {
    if tail == "" then text == Source(f, m)
    else exists w: string :: IsGapText(w) && text == RStrip(Source(f, m)) + w + tail
  }

  predicate IsGapText(w: string) {
    w != "" && SpaceIn(w, 0, |w|) && IsBreak(w[|w| - 1])
  }

  /** Nothing but white space at its end tells the two texts apart. */
  predicate SameButEnd(t: string, u: string) {
    RStrip(t) == RStrip(u)
  }

  /** What a late edit of our last block leaves in front of the added blocks shows it exactly when it was found
      or changed white space at its end only. */
  lemma LateShowsIff(p: string, t: string, to: string, tail: string)
    ensures var b := if Findable(t) then to + (if t == RStrip(t) then "\n\n" else "\n") else RStrip(t) + "\n\n";
      (exists w: string :: IsGapText(w) && p + b + tail == p + RStrip(to) + w + tail) <==> Findable(t) || SameButEnd(t, to)
  {
    hide RStrip, Findable, IsGapText, SameButEnd;
    var b := if Findable(t) then to + (if t == RStrip(t) then "\n\n" else "\n") else RStrip(t) + "\n\n";
    forall w: string ensures p + b + tail == p + RStrip(to) + w + tail <==> b == RStrip(to) + w {
      Cancel(p, b, RStrip(to), w, tail);
    }
    if Findable(t) {
      var v := if t == RStrip(t) then "\n\n" else "\n";
      StripsToPrefix(to);
      EndIsGap(to, v);
      assert to + v == RStrip(to) + (to[|RStrip(to)|..] + v);
    } else {
      FeedsAreGap();
      if SameButEnd(t, to) { SameStrips(t, to); }
      forall w: string | IsGapText(w) && b == RStrip(to) + w ensures SameButEnd(t, to) {
        StripsApart(t, to, w);
      }
    }
  }

  lemma SameStrips(t: string, to: string)
    requires SameButEnd(t, to)
    ensures RStrip(t) == RStrip(to)
  {
  }

  lemma StripsApart(t: string, to: string, w: string)
    requires IsGapText(w) && RStrip(t) + "\n\n" == RStrip(to) + w
    ensures SameButEnd(t, to)
  {
    hide RStrip, IsGapText;
    FeedsAreGap();
    GapStrips(RStrip(t), "\n\n");
    GapStrips(RStrip(to), w);
    RStripTwice(t);
    RStripTwice(to);
  }

  lemma Cancel(p: string, b: string, r: string, w: string, tail: string)
    ensures p + b + tail == p + r + w + tail <==> b == r + w
  {
    assert p + r + w + tail == p + (r + w) + tail;
    if p + b + tail == p + (r + w) + tail {
      assert |b| == |r + w|;
      assert b == (p + b + tail)[|p|..|p| + |b|] == (p + (r + w) + tail)[|p|..|p| + |b|] == r + w;
    }
  }

  lemma EndIsGap(t: string, v: string)
    requires v == "\n\n" || v == "\n"
    ensures IsGapText(t[|RStrip(t)|..] + v)
  {
    var w := t[|RStrip(t)|..];
    assert SpaceIn(t, |RStrip(t)|, |t|);
    assert forall i :: 0 <= i < |w| ==> w[i] == t[|RStrip(t)| + i];
  }

  lemma FeedsAreGap()
    ensures IsGapText("\n\n")
  {
  }

  lemma GapStrips(t: string, w: string)
    requires IsGapText(w)
    ensures RStrip(t + w) == RStrip(t)
  {
    RStripAt(w, 0);
    RStripConcat(t, w);
  }

  /** For each order: the text shows every edit exactly when our last block is not replayed behind an addition,
      or was still found there, or they changed white space at its end only. */
  lemma LaidIff(f: File, base: Blocks, ours: Blocks, theirs: Blocks, names: seq<string>)
    requires Mergeable(f, base, ours, theirs) && Replayed(base, theirs, names)
    ensures Laid(TextMerge(base, ours, theirs, Source(f, ours), names), f, Mix(ours, theirs, names), Tail(base, theirs, names))
      <==> (Late(f, base, ours, theirs, names) ==>
              Findable(TextOf(f.last, ours)) || SameButEnd(TextOf(f.last, ours), TextOf(f.last, theirs)))
  {
    hide Modified, Separable, TextMerge, RStrip, Late, Tail, Render, Findable, Disjoint, Mix, IsGapText, Apart,
         WholeLines, Replayed, NoBlankEnd;
    var m, tail := Mix(ours, theirs, names), Tail(base, theirs, names);
    var t, p, now := TextOf(f.last, ours), Render(f.pre, m), TextOf(f.last, m);
    ReplayIs(f, base, ours, theirs, names);
    LastNow(f, base, ours, theirs, names);
    if tail == "" {
      NotLateWithoutTail(f, base, ours, theirs, names);
      assert Written(f, base, ours, theirs, names) == p + (now + f.post) + "" == p + now + f.post;
    } else {
      SourceStrips(f, m);
      if Late(f, base, ours, theirs, names) {
        LateSays(f, base, ours, theirs, names);
        LateShowsIff(p, t, now, tail);
      } else {
        FeedsAreGap();
        ConcatAssociates(p, RStrip(now), "\n\n");
      }
    }
  }

  /** Our blocks and the added ones are the merged map exactly when theirs deleted no block, and agree with it on
      every name that theirs did not delete. */
  lemma MixIsMergedIff(base: Blocks, ours: Blocks, theirs: Blocks, order: seq<string>)
    requires Enumerates(order, Modified(base, theirs)) && Disjoint(base, ours, theirs)
    ensures var m, w := Mix(ours, theirs, order), ThreeWay(base, ours, theirs);
      && (m == w <==> base.Keys <= theirs.Keys)
      && (forall n :: !(n in base && n !in theirs) ==> Lookup(m, n) == Lookup(w, n))
  {
    var m, w := Mix(ours, theirs, order), ThreeWay(base, ours, theirs);
    forall n ensures n in base && n !in theirs ==> n in m && n !in w {
      assert n in base && n !in theirs ==> n in Modified(base, theirs);
      assert n in base && n !in ours ==> n in Modified(base, ours);
    }
    forall n ensures !(n in base && n !in theirs) ==> Lookup(m, n) == Lookup(w, n) {
      assert n in order <==> n in Modified(base, theirs);
    }
    if base.Keys <= theirs.Keys { SameLookups(m, w); }
  }

  /** Theirs edits our last block. */
  predicate EditsLast(f: File, base: Blocks, ours: Blocks, theirs: Blocks) {
    f.last.Block? && f.last.name in Modified(base, theirs) && f.last.name in ours && f.last.name in theirs
  }

  /** Every order of the edits gives a text that shows them all, exactly when theirs adds no block, or does not
      edit our last one, or that one ends in a line feed or nothing behind what it says, or they changed white
      space at its end only.  Otherwise an order that loses the edit exists. */
  lemma EveryOrderIsLaidIff(f: File, base: Blocks, ours: Blocks, theirs: Blocks)
    requires Mergeable(f, base, ours, theirs)
    ensures (forall order :: Enumerates(order, Modified(base, theirs)) ==>
        Laid(TextMerge(base, ours, theirs, Source(f, ours), order), f, Mix(ours, theirs, order), Tail(base, theirs, order)))
      <==> ((exists n :: n in Modified(base, theirs) && Added(base, theirs, n)) && EditsLast(f, base, ours, theirs) ==>
              Findable(TextOf(f.last, ours)) || SameButEnd(TextOf(f.last, ours), TextOf(f.last, theirs)))
  {
    hide Modified, Separable, TextMerge, Late, Tail, Findable, Disjoint, Mix, Laid, Mergeable, SameButEnd;
    var fine := Findable(TextOf(f.last, ours)) || SameButEnd(TextOf(f.last, ours), TextOf(f.last, theirs));
    var mods := Modified(base, theirs);
    forall order | Enumerates(order, mods)
      ensures Laid(TextMerge(base, ours, theirs, Source(f, ours), order), f, Mix(ours, theirs, order), Tail(base, theirs, order))
        <==> (Late(f, base, ours, theirs, order) ==> fine)
    {
      LaidIff(f, base, ours, theirs, order);
    }
    forall order | Enumerates(order, mods) && Late(f, base, ours, theirs, order)
      ensures EditsLast(f, base, ours, theirs) && exists n :: n in mods && Added(base, theirs, n)
    {
      LateSays(f, base, ours, theirs, order);
      TailHasAdded(base, theirs, order);
    }
    if n :| n in mods && Added(base, theirs, n) && EditsLast(f, base, ours, theirs) {
      MergeableIsDisjoint(f, base, ours, theirs);
      var order := LateOrder(f, base, ours, theirs, n);
    }
  }

  lemma MergeableIsDisjoint(f: File, base: Blocks, ours: Blocks, theirs: Blocks)
    requires Mergeable(f, base, ours, theirs)
    ensures Disjoint(base, ours, theirs)
  {
    hide Disjoint;
  }

  lemma {:induction false} TailHasAdded(base: Blocks, theirs: Blocks, names: seq<string>)
    requires Tail(base, theirs, names) != ""
    ensures exists n :: n in names && Added(base, theirs, n)
    decreases |names|
  {
    var last := |names| - 1;
    assert names[last] in names;
    if !Added(base, theirs, names[last]) {
      TailHasAdded(base, theirs, names[..last]);
      var n :| n in names[..last] && Added(base, theirs, n);
      assert n in names;
    }
  }

  lemma {:induction false} Enumeration(s: set<string>) returns (order: seq<string>)
    ensures Enumerates(order, s)
    decreases |s|
  {
    if s == {} {
      order := [];
    } else {
      var x :| x in s;
      var front := Enumeration(s - {x});
      order := front + [x];
    }
  }

  /** An order in which the addition comes first, then the edit of our last block. */
  lemma LateOrder(f: File, base: Blocks, ours: Blocks, theirs: Blocks, n: string) returns (order: seq<string>)
    requires n in Modified(base, theirs) && Added(base, theirs, n) && EditsLast(f, base, ours, theirs)
    requires Disjoint(base, ours, theirs)
    ensures Enumerates(order, Modified(base, theirs)) && Late(f, base, ours, theirs, order)
  {
    hide Modified, RStrip, Late, Tail;
    var l, mods := f.last.name, Modified(base, theirs);
    assert l in base by { NextName(base, ours, theirs, [], l); }
    var rest := Enumeration(mods - {n, l});
    TailNext(base, theirs, [], n);
    LateNext(f, base, ours, theirs, [n], l);
    assert [] + [n] == [n] && [n] + [l] == [n, l];
    NothingAdded(base, theirs);
    LateStays(f, base, ours, theirs, [n, l], rest);
    order := [n, l] + rest;
    TwoFirst(n, l, rest, mods);
  }

  lemma TwoFirst(n: string, l: string, rest: seq<string>, s: set<string>)
    requires n in s && l in s && n != l && Enumerates(rest, s - {n, l})
    ensures Enumerates([n, l] + rest, s)
  {
    var order := [n, l] + rest;
    assert forall i :: 2 <= i < |order| ==> order[i] == rest[i - 2] && rest[i - 2] in rest;
    assert order[0] == n && order[1] == l;
    forall x ensures x in order <==> x in s {
      assert x in rest <==> x in s && x != n && x != l;
    }
  }

  lemma NothingAdded(base: Blocks, theirs: Blocks)
    ensures Tail(base, theirs, []) == ""
  {
  }

  lemma {:induction false} LateStays(f: File, base: Blocks, ours: Blocks, theirs: Blocks, a: seq<string>, b: seq<string>)
    requires Late(f, base, ours, theirs, a)
    ensures Late(f, base, ours, theirs, a + b)
    decreases |b|
  {
    hide Late, Tail;
    if b == [] {
      assert a + b == a;
    } else {
      var front := b[..|b| - 1];
      LateStays(f, base, ours, theirs, a, front);
      LateNext(f, base, ours, theirs, a + front, b[|b| - 1]);
      assert a + b == (a + front) + [b[|b| - 1]];
    }
  }

  /** With disjoint edits and blocks that can be told apart, no edit is lost in any order of the edits under
      that condition: the text shows one map of blocks, which is the merged one exactly when theirs deleted no
      block. */
  lemma NoEditIsLost(f: File, base: Blocks, ours: Blocks, theirs: Blocks, order: seq<string>)
    requires Mergeable(f, base, ours, theirs) && Enumerates(order, Modified(base, theirs))
    requires (exists n :: n in Modified(base, theirs) && Added(base, theirs, n)) && EditsLast(f, base, ours, theirs) ==>
      Findable(TextOf(f.last, ours)) || SameButEnd(TextOf(f.last, ours), TextOf(f.last, theirs))
    ensures var m := Mix(ours, theirs, order);
      && Laid(TextMerge(base, ours, theirs, Source(f, ours), order), f, m, Tail(base, theirs, order))
      && (m == ThreeWay(base, ours, theirs) <==> base.Keys <= theirs.Keys)
      && (forall n :: !(n in base && n !in theirs) ==> Lookup(m, n) == Lookup(ThreeWay(base, ours, theirs), n))
  {
    hide Separable, Laid, TextMerge, Source, Tail, Mix, ThreeWay, Findable, SameButEnd, Modified, Lookup;
    EveryOrderIsLaidIff(f, base, ours, theirs);
    MixIsMergedIff(base, ours, theirs, order);
  }

  // ----- the text between the blocks -----

  /** A text that shows the blocks in one layout shows them in another exactly when what stands in front of the last
      piece reads the same there. */
  lemma LaidElsewhereIff(text: string, f: File, pre: seq<Piece>, m: Blocks, tail: string)
    requires Laid(text, f, m, tail) && RStrip(TextOf(f.last, m)) != "" && SpaceIn(f.post, 0, |f.post|)
    ensures Laid(text, f.(pre := pre), m, tail) <==> Render(pre, m) == Render(f.pre, m)
  {
    hide Render, RStrip, IsSpace;
    var g := f.(pre := pre);
    var p, q, now := Render(f.pre, m), Render(pre, m), TextOf(f.last, m);
    if tail == "" {
      assert Source(f, m) == p + (now + f.post) && Source(g, m) == q + (now + f.post);
      SameFront(p, q, now + f.post);
    } else {
      SourceStrips(f, m);
      SourceStrips(g, m);
      var w: string :| IsGapText(w) && text == RStrip(Source(f, m)) + w + tail;
      if v: string :| IsGapText(v) && text == RStrip(Source(g, m)) + v + tail {
        var r := RStrip(now);
        SameFront(p + r + w, q + r + v, tail);
        EndsAt(p, r, w);
        EndsAt(q, r, v);
        SameFront(p, q, r);
      }
    }
  }

  lemma SameFront(p: string, q: string, end: string)
    ensures p + end == q + end <==> p == q
  {
    if p + end == q + end {
      assert |p| == |q|;
      assert p == (p + end)[..|p|] == (q + end)[..|q|] == q;
    }
  }

  lemma EndsAt(p: string, r: string, w: string)
    requires IsGapText(w) && r != "" && !IsSpace(r[|r| - 1])
    ensures RStrip(p + r + w) == p + r
  {
    RStripAt(p + r + w, |p + r|);
  }

  /** What theirs has between the blocks reaches no text, where every edit of a block does: the text shows the
      edit of a gap exactly when there is none. */
  lemma GapEditShowsIff(
      f: File, base: Blocks, ours: Blocks, theirs: Blocks, order: seq<string>, i: nat, text: string)
    requires Mergeable(f, base, ours, theirs) && Enumerates(order, Modified(base, theirs))
    requires (exists n :: n in Modified(base, theirs) && Added(base, theirs, n)) && EditsLast(f, base, ours, theirs) ==>
      Findable(TextOf(f.last, ours)) || SameButEnd(TextOf(f.last, ours), TextOf(f.last, theirs))
    requires i < |f.pre| && f.pre[i].Gap?
    ensures Laid(TextMerge(base, ours, theirs, Source(f, ours), order), f.(pre := f.pre[i := Gap(text)]),
                 Mix(ours, theirs, order), Tail(base, theirs, order))
      <==> text == f.pre[i].text
  {
    hide Separable, Laid, TextMerge, Source, Tail, Mix, Findable, SameButEnd, Modified, RStrip, Render, Apart, Disjoint;
    var m, pre := Mix(ours, theirs, order), f.pre[i := Gap(text)];
    NoEditIsLost(f, base, ours, theirs, order);
    LastNow(f, base, ours, theirs, order);
    LaidElsewhereIff(TextMerge(base, ours, theirs, Source(f, ours), order), f, pre, m, Tail(base, theirs, order));
    RenderAround(f.pre, i, m);
    RenderAround(pre, i, m);
    assert pre[..i] == f.pre[..i] && pre[i + 1..] == f.pre[i + 1..];
    GapBetween(Render(f.pre[..i], m), text, f.pre[i].text, Render(f.pre[i + 1..], m));
  }

  lemma GapBetween(a: string, t: string, u: string, b: string)
    ensures a + t + b == a + u + b <==> t == u
  {
    SameFront(a + t, a + u, b);
    if a + t == a + u { assert t == (a + t)[|a|..] == (a + u)[|a|..] == u; }
  }

  // ----- such losses -----

  /** With a space at the end of the last block, adding a block trims it, and whether the edit of that
      block is still found depends on the order in which the set is walked. */
  lemma OrderDecidesWhatIsLost()
    ensures var base, theirs := map["f" := "f \n"], map["f" := "h\n", "g" := "g\n"];
      && Disjoint(base, base, theirs) && Modified(base, theirs) == {"f", "g"}
      && TextMerge(base, base, theirs, "f \n", ["f", "g"]) == "h\n\ng\n\n"
      && TextMerge(base, base, theirs, "f \n", ["g", "f"]) == "f\n\ng\n\n"
  {
    var base, theirs := map["f" := "f \n"], map["f" := "h\n", "g" := "g\n"];
    hide Replace, RStrip, Lookup, Modified, OccursAt, TextStep, TextMerge, Disjoint;
    EditAndAddition(base, theirs, "f", "g", "f \n");
    ReplaceAll("f \n", "h\n");
    TrimmedIsLost();
    Trimming();
  }

  lemma EditAndAddition(base: Blocks, theirs: Blocks, f: string, g: string, src: string)
    requires base.Keys == {f} && theirs.Keys == {f, g} && f != g && |base[f]| != |theirs[f]|
    ensures Disjoint(base, base, theirs) && Modified(base, theirs) == {f, g}
    ensures TextMerge(base, base, theirs, src, [f, g])
      == RStrip(Replace(src, base[f], theirs[f])) + "\n\n" + theirs[g] + "\n"
    ensures TextMerge(base, base, theirs, src, [g, f])
      == Replace(RStrip(src) + "\n\n" + theirs[g] + "\n", base[f], theirs[f])
  {
    hide Replace, RStrip, TextMerge;
    assert Lookup(base, f) != Lookup(theirs, f);
    TwoSteps(base, base, theirs, src, f, g);
    TwoSteps(base, base, theirs, src, g, f);
  }

  lemma Trimming()
    ensures RStrip("f \n") + "\n\n" + "g\n" + "\n" == "f\n\ng\n\n"
    ensures RStrip("h\n") + "\n\n" + "g\n" + "\n" == "h\n\ng\n\n"
  {
    RStripAt("f \n", 1);
    RStripAt("h\n", 1);
  }

  lemma TwoSteps(base: Blocks, ours: Blocks, theirs: Blocks, src: string, a: string, b: string)
    ensures TextMerge(base, ours, theirs, src, [a, b])
      == TextStep(base, ours, theirs, TextStep(base, ours, theirs, src, a), b)
  {
    hide TextStep;
    assert [a, b][..1] == [a] && [a][..0] == [] && [a][0] == a && [a, b][1] == b;
    assert TextMerge(base, ours, theirs, src, [a]) == TextStep(base, ours, theirs, src, a);
  }

  lemma ReplaceAll(s: string, to: string)
    requires s != ""
    ensures Replace(s, s, to) == to
  {
    assert s == "" + s + "" && to == "" + to + "";
    ReplaceOnce("", s, "", to);
  }

  lemma TrimmedIsLost()
    ensures Replace("f\n\ng\n\n", "f \n", "h\n") == "f\n\ng\n\n"
  {
    hide Replace, OccursAt;
    var text, pat := "f\n\ng\n\n", "f \n";
    assert pat[1] == ' ' && ' ' !in text;
    forall i: nat ensures !OccursAt(text, pat, i) {
      OccursChar(text, pat, i, 1);
    }
    ReplaceNone(text, pat, "h\n");
  }

  /** The text of a small block that also ends a line of another block is replaced there too. */
  lemma EditLeaksIntoAnotherBlock(line: string, indent: string, to: string)
    requires line != "" && forall i: nat :: OccursAt(indent + line, line, i) ==> i == |indent|
    ensures Replace(line + (indent + line), line, to) == to + (indent + to)
  {
    hide Replace, OccursAt;
    var s := line + (indent + line);
    StartsWith(line, indent + line);
    ReplaceHere(s, line, to);
    assert s[|line|..] == indent + line == indent + line + "";
    ReplaceOnce(indent, line, "", to);
    assert indent + to + "" == indent + to;
  }
}
