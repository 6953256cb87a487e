/**
 Merging the agents' branches into mainline: a merge is made, verified, and undone if any gate finds
 a loss; the branch, the only other copy of the work, is deleted only afterwards.

 `base` is checked out, so HEAD is its tip.  What git and the gates answer is in `Replies`.
 */
module MergeResolver {
  import opened Text
  import opened ShapeGate

  /** Parents come before their children. */
  datatype Commit = Commit(parents: seq<nat>, tree: Tree, time: int)

  predicate WellFormed(cs: seq<Commit>) {
    forall i, j :: 0 <= i < |cs| && 0 <= j < |cs[i].parents| ==> cs[i].parents[j] < i
  }

  /** `to` is `from` or an ancestor of it. */
  predicate Reaches(cs: seq<Commit>, from: nat, to: nat)
    requires WellFormed(cs) && from < |cs|
    decreases from
  {
    from == to || exists j :: 0 <= j < |cs[from].parents| && Reaches(cs, cs[from].parents[j], to)
  }

  lemma {:induction false} ReachesTransitive(cs: seq<Commit>, a: nat, b: nat, c: nat)
    requires WellFormed(cs) && a < |cs| && b < |cs| && Reaches(cs, a, b) && Reaches(cs, b, c)
    ensures Reaches(cs, a, c)
    decreases a
  {
    if a != b {
      var j :| 0 <= j < |cs[a].parents| && Reaches(cs, cs[a].parents[j], b);
      ReachesTransitive(cs, cs[a].parents[j], b, c);
    }
  }

  /** New commits do not change the history of old ones. */
  lemma {:induction false} ReachesKept(cs: seq<Commit>, more: seq<Commit>, a: nat, b: nat)
    requires WellFormed(cs) && WellFormed(more) && cs <= more && a < |cs|
    ensures Reaches(more, a, b) <==> Reaches(cs, a, b)
    decreases a
  {
    forall j | 0 <= j < |cs[a].parents| {
      ReachesKept(cs, more, cs[a].parents[j], b);
    }
  }

  datatype Config = Config(limits: Limits, maxAge: int, maxConflicts: nat, refusalTtl: int)

  /** The answers during one attempt on one branch. */
  datatype Replies = Replies(
    mergeBase: Option<nat>,         // `git merge-base`
    clean: Option<Tree>,            // the tree of a merge without conflicts
    conflicts: seq<(string, bool)>, // content conflicts, each with whether it needs a person
    modifyDelete: seq<string>,      // paths deleted on one side and changed on the other
    resolved: seq<bool>,            // whether the chosen strategy resolved the nth conflict
    markers: bool,                  // conflict markers were left behind
    commits: bool,                  // the resolved merge could be committed
    resolvedTree: Tree,
    content: bool,                  // a content gate found a loss, crashed or ran out of time
    deletes: bool,                  // `git branch -d` finds nothing but HEAD to ask about
    ins: nat, rem: nat)

  datatype Outcome =
    | AlreadyRefused | StaleBase | MergedClean | RegressionBlocked | ModifyDelete | NoConflictFiles
    | Manual | TooManyConflicts | WouldResolve | ResolveFailed | MarkersLeft | CommitFailed | MergedAuto

  predicate IsMerged(o: Outcome) {
    o == MergedClean || o == WouldResolve || o == MergedAuto
  }

  /** The tree of the merge base, which is an ancestor of HEAD. */
  function BaseTree(cs: seq<Commit>, head: nat, g: Replies): Option<Tree>
    requires head < |cs|
  {
    if g.mergeBase.Some? && g.mergeBase.value <= head then Some(cs[g.mergeBase.value].tree) else None
  }

  /** All gates are clean: the four content gates and the shape gate. */
  predicate GatesClean(cfg: Config, cs: seq<Commit>, g: Replies, pre: nat, tip: nat, result: Tree)
    requires pre < |cs| && tip < |cs|
  {
    !g.content
    && ShapeVerdict(cfg.limits, cs[pre].tree, BaseTree(cs, pre, g), cs[tip].tree, result, g.ins, g.rem).Accepted?
  }

  /** Then no content gate objects, every mainline path the merge drops was in the merge base and the branch deleted
      it, and the merge does not shrink the tree or its lines beyond the limits. */
  lemma GatesCleanIff(cfg: Config, cs: seq<Commit>, g: Replies, pre: nat, tip: nat, result: Tree)
    requires pre < |cs| && tip < |cs|
    ensures GatesClean(cfg, cs, g, pre, tip, result) <==>
      && !g.content && g.mergeBase.Some? && g.mergeBase.value <= pre
      && (forall p :: p in cs[pre].tree && p !in result ==> p in cs[g.mergeBase.value].tree && p !in cs[tip].tree)
      && !TooSmall(cfg.limits, |cs[pre].tree|, |result|)
      && g.ins - g.rem >= -cfg.limits.maxNetLines
  {
    hide ShapeVerdict, TooSmall;
    AcceptedIff(cfg.limits, cs[pre].tree, BaseTree(cs, pre, g), cs[tip].tree, result, g.ins, g.rem);
  }

  lemma GatesKept(cfg: Config, cs: seq<Commit>, more: seq<Commit>, g: Replies, pre: nat, tip: nat, result: Tree)
    requires cs <= more && pre < |cs| && tip < |cs|
    ensures GatesClean(cfg, more, g, pre, tip, result) == GatesClean(cfg, cs, g, pre, tip, result)
  {
    hide ShapeVerdict;
  }

  /** The outcomes that are written to the ledger. */
  predicate IsRecorded(o: Outcome) {
    o == RegressionBlocked || o == StaleBase || o == ModifyDelete
  }

  // ----- what no run may do: lose work -----

  /** The history and the refs into it. */
  datatype Refs = Refs(commits: seq<Commit>, head: nat, branches: map<string, nat>)

  ghost predicate ValidRefs(r: Refs) {
    WellFormed(r.commits) && r.head < |r.commits| && forall b :: b in r.branches ==> r.branches[b] < |r.commits|
  }

  /** Some ref leads to the commit. */
  ghost predicate Kept(r: Refs, c: nat)
    requires ValidRefs(r)
  {
    Reaches(r.commits, r.head, c) || exists b :: b in r.branches && Reaches(r.commits, r.branches[b], c)
  }

  /** History only grows, HEAD only moves forward, and a branch disappears only into HEAD. */
  ghost predicate Progress(r: Refs, s: Refs) {
    && ValidRefs(r) && ValidRefs(s) && r.commits <= s.commits
    && Reaches(s.commits, s.head, r.head)
    && (forall b :: b in s.branches ==> b in r.branches && s.branches[b] == r.branches[b])
    && (forall b :: b in r.branches && b !in s.branches ==> Reaches(s.commits, s.head, r.branches[b]))
  }

  /** Then every commit that a ref led to is still led to. */
  lemma ProgressKeepsWork(r: Refs, s: Refs, c: nat)
    requires Progress(r, s) && Kept(r, c)
    ensures Kept(s, c)
  {
    hide Reaches;
    if Reaches(r.commits, r.head, c) {
      ReachesKept(r.commits, s.commits, r.head, c);
      ReachesTransitive(s.commits, s.head, r.head, c);
    } else {
      var b :| b in r.branches && Reaches(r.commits, r.branches[b], c);
      ReachesKept(r.commits, s.commits, r.branches[b], c);
      if b !in s.branches { ReachesTransitive(s.commits, s.head, r.branches[b], c); }
    }
  }

  lemma ProgressTransitive(r: Refs, s: Refs, t: Refs)
    requires Progress(r, s) && Progress(s, t)
    ensures Progress(r, t)
  {
    hide Reaches;
    ReachesTransitive(t.commits, t.head, s.head, r.head) by { ReachesKept(s.commits, t.commits, s.head, r.head); }
    forall b | b in r.branches && b !in t.branches ensures Reaches(t.commits, t.head, r.branches[b]) {
      if b !in s.branches {
        ReachesKept(s.commits, t.commits, s.head, r.branches[b]);
        ReachesTransitive(t.commits, t.head, s.head, r.branches[b]);
      }
    }
  }

  lemma ReachesSelf(cs: seq<Commit>, a: nat)
    requires WellFormed(cs) && a < |cs|
    ensures Reaches(cs, a, a)
  {
  }

  // ----- how an attempt ends -----

  predicate Unattended(g: Replies) {
    forall i :: 0 <= i < |g.conflicts| ==> !g.conflicts[i].1
  }

  /** The conflicts can be left to the strategies. */
  predicate Resolvable(cfg: Config, g: Replies) {
    g.modifyDelete == [] && 1 <= |g.conflicts| <= cfg.maxConflicts && Unattended(g)
  }

  predicate AllResolved(g: Replies) {
    |g.conflicts| <= |g.resolved| && forall i :: 0 <= i < |g.conflicts| ==> g.resolved[i]
  }

  /** Every conflict was resolved by its strategy and no marker is left. */
  predicate ResolvedWhole(cfg: Config, g: Replies) {
    Resolvable(cfg, g) && AllResolved(g) && !g.markers
  }

  /** What a merge in conflict comes to. */
  predicate EndsAs(cfg: Config, g: Replies, dryRun: bool, gatesClean: bool, o: Outcome) {
    match o
    case ModifyDelete => g.modifyDelete != []
    case NoConflictFiles => g.modifyDelete == [] && g.conflicts == []
    case Manual => g.modifyDelete == [] && !Unattended(g)
    case TooManyConflicts => g.modifyDelete == [] && Unattended(g) && |g.conflicts| > cfg.maxConflicts
    case WouldResolve => Resolvable(cfg, g) && dryRun
    case ResolveFailed => Resolvable(cfg, g) && !dryRun && !AllResolved(g)
    case MarkersLeft => Resolvable(cfg, g) && !dryRun && AllResolved(g) && g.markers
    case CommitFailed => ResolvedWhole(cfg, g) && !dryRun && !g.commits
    case RegressionBlocked => ResolvedWhole(cfg, g) && !dryRun && g.commits && !gatesClean
    case MergedAuto => ResolvedWhole(cfg, g) && !dryRun && g.commits && gatesClean
    case _ => false
  }

  predicate Stale(cfg: Config, r: Refs, g: Replies)
    requires r.head < |r.commits|
  {
    cfg.maxAge > 0 &&
    (g.mergeBase.None? || g.mergeBase.value > r.head
     || r.commits[r.head].time - r.commits[g.mergeBase.value].time > cfg.maxAge)
  }

  predicate Contained(r: Refs, b: string)
    requires ValidRefs(r)
  {
    b in r.branches && Reaches(r.commits, r.head, r.branches[b])
  }

  /** The branch has something to merge, and git cannot merge it without conflicts. */
  predicate Conflicting(r: Refs, b: string, g: Replies)
    requires ValidRefs(r)
  {
    b in r.branches && !Contained(r, b) && g.clean.None?
  }

  /** All gates are clean on this tree as the result of the merge. */
  predicate CleanResult(cfg: Config, r: Refs, b: string, g: Replies, result: Tree)
    requires ValidRefs(r)
  {
    b in r.branches && GatesClean(cfg, r.commits, g, r.head, r.branches[b], result)
  }

  /** Git can merge the branch without conflicts, if there is anything to merge, and no gate objects. */
  predicate MergesClean(cfg: Config, r: Refs, b: string, g: Replies)
    requires ValidRefs(r)
  {
    if Contained(r, b) then CleanResult(cfg, r, b, g, r.commits[r.head].tree)
    else g.clean.Some? && CleanResult(cfg, r, b, g, g.clean.value)
  }

  /** Every attempt comes to some end. */
  lemma JudgedTotal(cfg: Config, r: Refs, b: string, g: Replies, refused: bool, dryRun: bool) returns (o: Outcome)
    requires ValidRefs(r)
    ensures JudgedAs(cfg, r, b, g, refused, dryRun, o)
  {
    hide Reaches, GatesClean;
    var clean := CleanResult(cfg, r, b, g, g.resolvedTree);
    o := if !dryRun && refused then AlreadyRefused
         else if Stale(cfg, r, g) then StaleBase
         else if MergesClean(cfg, r, b, g) then MergedClean
         else if !Conflicting(r, b, g) then (if b in r.branches then RegressionBlocked else NoConflictFiles)
         else if g.modifyDelete != [] then ModifyDelete
         else if g.conflicts == [] then NoConflictFiles
         else if !Unattended(g) then Manual
         else if |g.conflicts| > cfg.maxConflicts then TooManyConflicts
         else if dryRun then WouldResolve
         else if !AllResolved(g) then ResolveFailed
         else if g.markers then MarkersLeft
         else if !g.commits then CommitFailed
         else if clean then MergedAuto else RegressionBlocked;
  }

  /** What an attempt comes to; `refused` tells whether a refusal of the same tips stands. */
  predicate JudgedAs(cfg: Config, r: Refs, b: string, g: Replies, refused: bool, dryRun: bool, o: Outcome)
    requires ValidRefs(r)
  {
    var asked := dryRun || !refused;
    var tried, inConflict := asked && !Stale(cfg, r, g), Conflicting(r, b, g);
    match o
    case AlreadyRefused => !asked
    case StaleBase => asked && Stale(cfg, r, g)
    case MergedClean => tried && MergesClean(cfg, r, b, g)
    case _ =>
      && tried
      && (if inConflict then EndsAs(cfg, g, dryRun, CleanResult(cfg, r, b, g, g.resolvedTree), o)
          else if b in r.branches then o == RegressionBlocked && !MergesClean(cfg, r, b, g)
          else o == NoConflictFiles)
  }

  /** So the conditions tell the outcomes apart. */
  lemma JudgedOnce(cfg: Config, r: Refs, b: string, g: Replies, refused: bool, dryRun: bool, o: Outcome, p: Outcome)
    requires ValidRefs(r)
    requires JudgedAs(cfg, r, b, g, refused, dryRun, o) && JudgedAs(cfg, r, b, g, refused, dryRun, p)
    ensures o == p
  {
    hide Reaches, GatesClean;
  }

  /** A resolution is kept, or announced by a dry run, exactly then; no conflict in it was one for a person, none was
      left unresolved, and no marker is left. */
  lemma ResolvedIff(cfg: Config, r: Refs, b: string, g: Replies, refused: bool, dryRun: bool, o: Outcome)
    requires ValidRefs(r) && JudgedAs(cfg, r, b, g, refused, dryRun, o)
    ensures o == MergedAuto <==>
      (&& !dryRun && !refused
       && (cfg.maxAge > 0 ==> && g.mergeBase.Some? && g.mergeBase.value <= r.head
                              && r.commits[r.head].time - r.commits[g.mergeBase.value].time <= cfg.maxAge)
       && b in r.branches && !Reaches(r.commits, r.head, r.branches[b]) && g.clean.None? && g.modifyDelete == []
       && 1 <= |g.conflicts| <= cfg.maxConflicts && |g.conflicts| <= |g.resolved|
       && (forall i :: 0 <= i < |g.conflicts| ==> !g.conflicts[i].1 && g.resolved[i])
       && !g.markers && g.commits && GatesClean(cfg, r.commits, g, r.head, r.branches[b], g.resolvedTree))
    ensures o == WouldResolve <==>
      (&& dryRun
       && (cfg.maxAge > 0 ==> && g.mergeBase.Some? && g.mergeBase.value <= r.head
                              && r.commits[r.head].time - r.commits[g.mergeBase.value].time <= cfg.maxAge)
       && b in r.branches && !Reaches(r.commits, r.head, r.branches[b]) && g.clean.None? && g.modifyDelete == []
       && 1 <= |g.conflicts| <= cfg.maxConflicts && forall i :: 0 <= i < |g.conflicts| ==> !g.conflicts[i].1)
  {
    hide Reaches, GatesClean;
  }

  lemma FailsAt(g: Replies, i: nat)
    requires i < |g.conflicts| && (i >= |g.resolved| || !g.resolved[i])
    ensures !AllResolved(g)
  {
  }

  lemma AllSucceeded(g: Replies)
    requires |g.conflicts| <= |g.resolved| && forall j :: 0 <= j < |g.conflicts| ==> g.resolved[j]
    ensures AllResolved(g)
  {
  }

  lemma NobodyIsAsked(g: Replies)
    ensures g.conflicts == [] ==> Unattended(g)
  {
  }

  /** The tree of a merge is the one that git made without conflicts, or a resolution. */
  predicate Sound(cfg: Config, g: Replies, c: Commit) {
    g.clean == Some(c.tree) || (g.clean.None? && ResolvedWhole(cfg, g) && c.tree == g.resolvedTree)
  }

  /** The attempt added no commit, or the one merge of HEAD and the branch. */
  ghost predicate AddsMerge(cfg: Config, g: Replies, r: Refs, b: string, cs: seq<Commit>) {
    || cs == r.commits
    || (&& |cs| == |r.commits| + 1 && r.commits <= cs && b in r.branches
        && cs[|r.commits|].parents == [r.head, r.branches[b]] && Sound(cfg, g, cs[|r.commits|]))
  }

  lemma SoundIsAdded(cfg: Config, g: Replies, r: Refs, b: string, c: Commit)
    requires b in r.branches && c.parents == [r.head, r.branches[b]] && Sound(cfg, g, c)
    ensures AddsMerge(cfg, g, r, b, r.commits + [c])
  {
  }

  lemma AddedIsMerge(cfg: Config, g: Replies, r: Refs, b: string, cs: seq<Commit>)
    requires AddsMerge(cfg, g, r, b, cs) && |cs| > |r.commits|
    ensures r.commits <= cs && |cs| == |r.commits| + 1 && b in r.branches
    ensures cs[|r.commits|].parents == [r.head, r.branches[b]] && Sound(cfg, g, cs[|r.commits|])
  {
    hide Sound;
  }

  /** HEAD stays, or moves to the merge just made, which every gate passed. */
  predicate Moves(cfg: Config, g: Replies, r: Refs, b: string, s: Refs)
    requires ValidRefs(r) && ValidRefs(s)
  {
    || s.head == r.head
    || (&& b in r.branches && r.commits <= s.commits && s.head == |r.commits| == |s.commits| - 1
        && s.commits[s.head].parents == [r.head, r.branches[b]]
        && GatesClean(cfg, s.commits, g, r.head, r.branches[b], s.commits[s.head].tree))
  }

  /** A merge that git could not make. */
  lemma ConflictJudged(
      cfg: Config, r: Refs, b: string, g: Replies, refused: bool, dryRun: bool, found: bool, cs: seq<Commit>, now: int,
      o: Outcome)
    requires dryRun || !refused
    requires ValidRefs(r) && !Stale(cfg, r, g) && (b in r.branches ==> Conflicting(r, b, g))
    requires found <==> b in r.branches && (g.conflicts != [] || g.modifyDelete != [])
    requires if found then EndsAs(cfg, g, dryRun, CleanResult(cfg, r, b, g, g.resolvedTree), o) else o == NoConflictFiles
    requires cs == if found && o in {MergedAuto, RegressionBlocked}
                   then r.commits + [Commit([r.head, r.branches[b]], g.resolvedTree, now)] else r.commits
    ensures JudgedAs(cfg, r, b, g, refused, dryRun, o)
    ensures AddsMerge(cfg, g, r, b, cs)
  {
    hide Stale, Reaches, GatesClean;
    if found && o in {MergedAuto, RegressionBlocked} {
      SoundIsAdded(cfg, g, r, b, Commit([r.head, r.branches[b]], g.resolvedTree, now));
    }
  }

  /** A merge that git made. */
  lemma MergedJudged(
      cfg: Config, r: Refs, b: string, g: Replies, refused: bool, dryRun: bool, cs: seq<Commit>, head: nat, now: int)
    requires dryRun || !refused
    requires ValidRefs(r) && b in r.branches && !Stale(cfg, r, g) && !Conflicting(r, b, g) && head < |cs|
    requires if Contained(r, b) then cs == r.commits && head == r.head
             else g.clean.Some? && head == |r.commits|
                  && cs == r.commits + [Commit([r.head, r.branches[b]], g.clean.value, now)]
    ensures AddsMerge(cfg, g, r, b, cs)
    ensures JudgedAs(cfg, r, b, g, refused, dryRun,
                     if CleanResult(cfg, r, b, g, cs[head].tree) then MergedClean else RegressionBlocked)
  {
    hide Stale, Reaches, GatesClean;
    if !Contained(r, b) { SoundIsAdded(cfg, g, r, b, cs[|r.commits|]); }
  }

  type Ledger = map<(string, nat, nat), int>

  /** The refusal is written down, and of the others those are kept that still stand. */
  ghost predicate Notes(was: Ledger, after: Ledger, key: (string, nat, nat), now: int, ttl: int) {
    && key in after && after[key] == now
    && (forall k :: k != key ==> (k in after <==> k in was && now - was[k] <= ttl))
    && (forall k :: k != key && k in after ==> after[k] == was[k])
  }

  class Repo {
    var commits: seq<Commit>
    var head: nat
    var branches: map<string, nat>
    var merging: Option<nat>
    /** When a branch, at this pair of tips, was last refused. */
    var ledger: Ledger

    ghost predicate Valid()
      reads this
    {
      && WellFormed(commits) && head < |commits| && merging.None?
      && forall b :: b in branches ==> branches[b] < |commits|
    }

    constructor (commits: seq<Commit>, head: nat, branches: map<string, nat>)
      requires ValidRefs(Refs(commits, head, branches))
      ensures Valid() && State() == Refs(commits, head, branches) && ledger == map[]
    {
      this.commits, this.head, this.branches := commits, head, branches;
      merging, ledger := None, map[];
    }

    function State(): Refs
      reads this
    {
      Refs(commits, head, branches)
    }

    predicate Refused(cfg: Config, branch: string, now: int)
      reads this
    {
      branch in branches && (branch, head, branches[branch]) in ledger
      && now - ledger[(branch, head, branches[branch])] <= cfg.refusalTtl
    }

    // ----- git -----

    /** `git merge --no-ff`: no commit when there is nothing to merge. */
    method Merge(branch: string, g: Replies, now: int) returns (ok: bool)
      requires Valid()
      modifies this`commits, this`head, this`merging
      ensures WellFormed(commits) && head < |commits|
      ensures ok <==> branch in branches && (Reaches(old(commits), old(head), branches[branch]) || g.clean.Some?)
      ensures ok ==> merging.None?
      ensures ok && Reaches(old(commits), old(head), branches[branch]) ==>
        commits == old(commits) && head == old(head)
      ensures ok && !Reaches(old(commits), old(head), branches[branch]) ==>
        g.clean.Some? && head == |old(commits)|
        && commits == old(commits) + [Commit([old(head), branches[branch]], g.clean.value, now)]
      ensures !ok ==> branch !in branches || (g.clean.None? && !Reaches(old(commits), old(head), branches[branch]))
      ensures !ok ==> commits == old(commits) && head == old(head)
                      && (merging.Some? ==> branch in branches && merging.value == branches[branch])
                      && (merging.Some? <==> branch in branches && (g.conflicts != [] || g.modifyDelete != []))
    {
      if branch !in branches {
        return false;
      }
      var tip := branches[branch];
      if Reaches(commits, head, tip) {
        return true;
      }
      if g.clean.Some? {
        commits, head := commits + [Commit([head, tip], g.clean.value, now)], |commits|;
        return true;
      }
      if g.conflicts != [] || g.modifyDelete != [] {
        merging := Some(tip);
      }
      return false;
    }

    method Abort()
      modifies this`merging
      ensures merging.None?
    {
      merging := None;
    }

    method ResetHard(c: nat)
      modifies this`head, this`merging
      ensures head == c && merging.None?
    {
      head, merging := c, None;
    }

    /** `git commit` of a resolved merge. */
    method CommitMerge(g: Replies, now: int) returns (ok: bool)
      requires WellFormed(commits) && head < |commits| && (merging.Some? ==> merging.value < |commits|)
      modifies this`commits, this`head, this`merging
      ensures WellFormed(commits) && head < |commits|
      ensures ok <==> old(merging).Some? && g.commits
      ensures ok ==> merging.None? && head == |old(commits)|
      ensures ok ==> commits == old(commits) + [Commit([old(head), old(merging).value], g.resolvedTree, now)]
      ensures !ok ==> commits == old(commits) && head == old(head)
    {
      if merging.None? || !g.commits {
        return false;
      }
      commits, head := commits + [Commit([head, merging.value], g.resolvedTree, now)], |commits|;
      merging := None;
      return true;
    }

    /** `git branch -d`, which refuses a branch that HEAD does not contain, and may refuse one that HEAD contains
        because an upstream does not or another worktree has it checked out. */
    method DeleteMerged(branch: string, g: Replies)
      requires WellFormed(commits) && head < |commits|
      modifies this`branches
      ensures branches == if branch in old(branches) && Reaches(commits, head, old(branches)[branch]) && g.deletes
                          then old(branches) - {branch} else old(branches)
    {
      if branch in branches && Reaches(commits, head, branches[branch]) && g.deletes {
        branches := branches - {branch};
      }
    }

    method Remember(cfg: Config, branch: string, pre: nat, now: int)
      modifies this`ledger
      ensures Recorded(cfg, old(ledger), branch, pre, now)
    {
      if branch in branches {
        ledger := (map k | k in ledger && now - ledger[k] <= cfg.refusalTtl :: ledger[k])
                  + map[(branch, pre, branches[branch]) := now];
      }
    }

    /** Undoes a merge that would lose work; the branch stays. */
    method RejectMerge(cfg: Config, branch: string, pre: nat, now: int)
      modifies this`head, this`merging, this`ledger
      ensures head == pre && merging.None? && Recorded(cfg, old(ledger), branch, pre, now)
    {
      ResetHard(pre);
      Remember(cfg, branch, pre, now);
    }

    /** A refusal of these tips is noted; of a branch that is not there, nothing is. */
    ghost predicate Recorded(cfg: Config, was: Ledger, branch: string, pre: nat, now: int)
      reads this
    {
      if branch in branches then Notes(was, ledger, (branch, pre, branches[branch]), now, cfg.refusalTtl)
      else ledger == was
    }

    /** HEAD now holds what it held before and the branch, and every gate was clean. */
    ghost predicate Integrated(cfg: Config, g: Replies, pre: nat, tip: nat)
      requires Valid()
      reads this
    {
      pre < |commits| && tip < |commits|
      && Reaches(commits, head, pre) && Reaches(commits, head, tip) && GatesClean(cfg, commits, g, pre, tip, commits[head].tree)
    }

    // ----- one branch -----

    /** Keeps a merge only if every gate is clean. */
    method VerifyMerge(cfg: Config, branch: string, g: Replies, pre: nat, now: int) returns (clean: bool)
      requires Valid() && branch in branches && pre < |commits|
      modifies this`head, this`merging, this`ledger
      ensures Valid()
      ensures clean <==> old(GatesClean(cfg, commits, g, pre, branches[branch], commits[head].tree))
      ensures clean ==> head == old(head)
      ensures if clean then ledger == old(ledger) else head == pre && Recorded(cfg, old(ledger), branch, pre, now)
    {
      hide ShapeVerdict;
      clean := GatesClean(cfg, commits, g, pre, branches[branch], commits[head].tree);
      if !clean {
        RejectMerge(cfg, branch, pre, now);
      }
    }

    /** Commits the resolution and keeps it, and removes the branch, only if every gate is clean. */
    method CommitAndVerify(cfg: Config, branch: string, g: Replies, now: int) returns (o: Outcome)
      requires WellFormed(commits) && head < |commits| && forall b :: b in branches ==> branches[b] < |commits|
      requires merging.Some? ==> branch in branches && merging.value == branches[branch]
      modifies this
      ensures Valid() && old(commits) <= commits && o in {MergedAuto, RegressionBlocked, CommitFailed}
      ensures o == CommitFailed <==> old(merging).None? || !g.commits
      ensures o == MergedAuto <==>
        (old(merging).Some? && g.commits && GatesClean(cfg, old(commits), g, old(head), old(merging).value, g.resolvedTree))
      ensures commits == if o == CommitFailed then old(commits)
                         else old(commits) + [Commit([old(head), old(merging).value], g.resolvedTree, now)]
      ensures o == MergedAuto ==>
        && branch in old(branches) && branches == Without(old(branches), branch, g)
        && Integrated(cfg, g, old(head), old(branches)[branch]) && head == |old(commits)|
      ensures o != MergedAuto ==> head == old(head) && branches == old(branches)
      ensures if IsRecorded(o) then Recorded(cfg, old(ledger), branch, head, now) else ledger == old(ledger)
    {
      hide Reaches, GatesClean, Recorded, Notes;
      var pre := head;
      var committed := CommitMerge(g, now);
      if committed {
        MergeKeepsHistory(old(commits), pre, branches[branch], commits, head);
        GatesKept(cfg, old(commits), commits, g, pre, branches[branch], g.resolvedTree);
        var clean := VerifyMerge(cfg, branch, g, pre, now);
        if !clean {
          return RegressionBlocked;
        }
        DeleteMerged(branch, g);
        return MergedAuto;
      }
      Abort();
      ResetHard(head);
      return CommitFailed;
    }

    /** Keeps a merge that git made, if every gate is clean, and removes the branch; a dry run undoes it. */
    method KeepMerge(cfg: Config, branch: string, g: Replies, pre: nat, now: int, dryRun: bool) returns (clean: bool)
      requires Valid() && branch in branches && pre < |commits| && Reaches(commits, head, branches[branch])
      modifies this`head, this`merging, this`ledger, this`branches
      ensures Valid()
      ensures clean <==> old(GatesClean(cfg, commits, g, pre, branches[branch], commits[head].tree))
      ensures if clean then ledger == old(ledger)
              else head == pre && branches == old(branches) && Recorded(cfg, old(ledger), branch, pre, now)
      ensures clean && !dryRun ==> head == old(head) && branches == Without(old(branches), branch, g)
      ensures clean && dryRun ==>
        && branches == old(branches)
        && head == if old(commits[head]).parents != [] then old(commits[head]).parents[0] else old(head)
    {
      hide Reaches, GatesClean, Recorded, Notes;
      clean := VerifyMerge(cfg, branch, g, pre, now);
      if !clean {
        return;
      }
      if dryRun {
        if commits[head].parents != [] {
          ResetHard(commits[head].parents[0]);
        }
      } else {
        DeleteMerged(branch, g);
      }
    }

    /** Resolves each conflict by its strategy, and commits the result if no marker is left. */
    method ResolveEach(cfg: Config, branch: string, g: Replies, now: int) returns (o: Outcome)
      requires WellFormed(commits) && head < |commits| && forall b :: b in branches ==> branches[b] < |commits|
      requires merging.Some? && branch in branches && merging.value == branches[branch] && Resolvable(cfg, g)
      modifies this
      ensures Valid() && old(commits) <= commits
      ensures EndsAs(cfg, g, false, GatesClean(cfg, old(commits), g, old(head), old(merging).value, g.resolvedTree), o)
      ensures commits == if o !in {MergedAuto, RegressionBlocked} then old(commits)
                         else old(commits) + [Commit([old(head), old(merging).value], g.resolvedTree, now)]
      ensures o == MergedAuto ==>
        && branches == Without(old(branches), branch, g)
        && Integrated(cfg, g, old(head), old(branches)[branch]) && head == |old(commits)|
      ensures o != MergedAuto ==> head == old(head) && branches == old(branches)
      ensures if IsRecorded(o) then Recorded(cfg, old(ledger), branch, head, now) else ledger == old(ledger)
    {
      hide Reaches, GatesClean, Unattended, AllResolved, Recorded, Notes;
      var pre := head;
      for i := 0 to |g.conflicts|
        invariant unchanged(this) && i <= |g.conflicts|
        invariant i <= |g.resolved| && forall j :: 0 <= j < i ==> g.resolved[j]
      {
        if i >= |g.resolved| || !g.resolved[i] {
          FailsAt(g, i);
          Abort();
          return ResolveFailed;
        }
      }
      AllSucceeded(g);
      if g.markers {
        Abort();
        ResetHard(pre);
        return MarkersLeft;
      }
      o := CommitAndVerify(cfg, branch, g, now);
    }

    /** Handles the conflicts of a merge that git could not make. */
    method ResolveConflicts(cfg: Config, branch: string, g: Replies, now: int, dryRun: bool) returns (o: Outcome)
      requires WellFormed(commits) && head < |commits| && forall b :: b in branches ==> branches[b] < |commits|
      requires merging.Some? ==> branch in branches && merging.value == branches[branch]
      modifies this
      ensures Valid() && old(commits) <= commits && o !in {AlreadyRefused, StaleBase, MergedClean}
      ensures old(merging).None? ==> o == NoConflictFiles
      ensures old(merging).Some? ==>
        EndsAs(cfg, g, dryRun, GatesClean(cfg, old(commits), g, old(head), old(merging).value, g.resolvedTree), o)
      ensures commits == if o !in {MergedAuto, RegressionBlocked} then old(commits)
                         else old(commits) + [Commit([old(head), old(merging).value], g.resolvedTree, now)]
      ensures o == MergedAuto ==>
        && !dryRun && branch in old(branches) && branches == Without(old(branches), branch, g)
        && Integrated(cfg, g, old(head), old(branches)[branch]) && head == |old(commits)|
      ensures o != MergedAuto ==> head == old(head) && branches == old(branches)
      ensures o == WouldResolve ==> dryRun
      ensures if IsRecorded(o) then Recorded(cfg, old(ledger), branch, head, now) else ledger == old(ledger)
    {
      hide Reaches, GatesClean, Unattended, AllResolved, Recorded, Notes;
      var pre := head;
      if merging.Some? && g.modifyDelete != [] {
        Abort();
        Remember(cfg, branch, pre, now);
        return ModifyDelete;
      }
      NobodyIsAsked(g);
      if merging.None? || g.conflicts == [] {
        Abort();
        return NoConflictFiles;
      }
      if !Unattended(g) {
        Abort();
        return Manual;
      }
      if |g.conflicts| > cfg.maxConflicts {
        Abort();
        return TooManyConflicts;
      }
      if dryRun {
        Abort();
        return WouldResolve;
      }
      o := ResolveEach(cfg, branch, g, now);
    }

    method ResolveBranch(cfg: Config, branch: string, g: Replies, now: int, dryRun: bool) returns (o: Outcome)
      requires Valid()
      modifies this
      ensures Valid() && old(commits) <= commits
      // the branch goes only when HEAD holds its tip and every gate was clean, and then if git lets it go
      ensures !dryRun && IsMerged(o) ==>
        && branch in old(branches) && branches == Without(old(branches), branch, g)
        && Integrated(cfg, g, old(head), old(branches)[branch])
      ensures !dryRun ==> head == old(head) || head == |old(commits)| < |commits|
      // every other exit leaves HEAD and all branches alone
      ensures !dryRun && !IsMerged(o) ==> head == old(head) && branches == old(branches)
      // a dry run keeps the branches, and HEAD unless there was nothing to merge: then it drops a commit
      ensures dryRun ==> branches == old(branches)
      ensures dryRun ==>
        head == if o == MergedClean && Contained(old(State()), branch) && old(commits[head]).parents != []
                then old(commits[head]).parents[0] else old(head)
      // how the attempt ends, and what it commits, kept or not
      ensures JudgedAs(cfg, old(State()), branch, g, old(Refused(cfg, branch, now)), dryRun, o)
      ensures AddsMerge(cfg, g, old(State()), branch, commits)
      // a refusal is recorded, and not asked again about the same tips while it stands
      ensures if IsRecorded(o) then Recorded(cfg, old(ledger), branch, head, now) else ledger == old(ledger)
      ensures o == AlreadyRefused <==>
        && !dryRun && branch in old(branches) && (branch, old(head), old(branches)[branch]) in old(ledger)
        && now - old(ledger)[(branch, old(head), old(branches)[branch])] <= cfg.refusalTtl
      ensures o == AlreadyRefused ==> commits == old(commits)
    {
      hide Reaches, GatesClean, Stale, EndsAs, Sound, Recorded, Notes;
      var pre := head;
      ghost var r, refused := State(), Refused(cfg, branch, now);
      if !dryRun && Refused(cfg, branch, now) {
        return AlreadyRefused;
      }
      if Stale(cfg, State(), g) {
        Remember(cfg, branch, pre, now);
        return StaleBase;
      }
      var ok := Merge(branch, g, now);
      if !ok {
        ghost var found := merging.Some?;
        o := ResolveConflicts(cfg, branch, g, now, dryRun);
        ConflictJudged(cfg, r, branch, g, refused, dryRun, found, commits, now, o);
        return;
      }
      MergedJudged(cfg, r, branch, g, refused, dryRun, commits, head, now);
      MergeKeepsHistory(old(commits), pre, branches[branch], commits, head);
      GatesKept(cfg, old(commits), commits, g, pre, branches[branch], commits[head].tree);
      var clean := KeepMerge(cfg, branch, g, pre, now, dryRun);
      o := if clean then MergedClean else RegressionBlocked;
    }

    // ----- all branches -----

    /** One attempt is progress, and removes the branch if it merged and git lets it go; HEAD moves only to a merge
        that every gate passed. */
    method Attempt(cfg: Config, branch: string, g: Replies, now: int) returns (o: Outcome)
      requires Valid()
      modifies this
      ensures Valid() && Progress(old(State()), State())
      ensures old(commits) <= commits && (IsMerged(o) ==> branch in old(branches))
      ensures branches == if IsMerged(o) then Without(old(branches), branch, g) else old(branches)
      ensures !IsMerged(o) ==> head == old(head)
      ensures JudgedAs(cfg, old(State()), branch, g, o == AlreadyRefused, false, o)
      ensures AddsMerge(cfg, g, old(State()), branch, commits) && Moves(cfg, g, old(State()), branch, State())
      ensures o == AlreadyRefused <==>
        && branch in old(branches) && (branch, old(head), old(branches)[branch]) in old(ledger)
        && now - old(ledger)[(branch, old(head), old(branches)[branch])] <= cfg.refusalTtl
    {
      hide Reaches, Progress, GatesClean, Stale, EndsAs, AddsMerge, Contained, MergesClean, Conflicting, Recorded, Refused;
      o := ResolveBranch(cfg, branch, g, now, false);
      AttemptIsProgress(old(State()), State(), branch, g, IsMerged(o));
      if head != old(head) { AddedIsMerge(cfg, g, old(State()), branch, commits); }
    }

    /** A dry attempt keeps all branches, and HEAD unless it rewinds it. */
    method Rehearse(cfg: Config, branch: string, g: Replies, now: int) returns (o: Outcome)
      requires Valid()
      modifies this
      ensures Valid() && old(commits) <= commits && branches == old(branches)
      ensures head == if Rewinds(cfg, old(State()), branch, g) then old(commits[head].parents[0]) else old(head)
      ensures JudgedAs(cfg, old(State()), branch, g, false, true, o)
      ensures AddsMerge(cfg, g, old(State()), branch, commits)
    {
      hide Reaches, GatesClean, EndsAs, AddsMerge;
      o := ResolveBranch(cfg, branch, g, now, true);
    }

    /** One pass over the agents' branches, in any order. */
    method MergePass(cfg: Config, world: (nat, string) -> Replies, n: nat, now: int, ghost start: Refs)
      returns (merged: nat, ghost visits: seq<Visit>)
      requires Valid() && n >= 1 && ValidRefs(start) && Progress(start, State()) && Vetted(cfg, world, n - 1, start, State())
      modifies this
      ensures Valid() && Progress(start, State()) && Vetted(cfg, world, n, start, State())
      ensures Toured(cfg, world, n, old(State()), State(), {}, visits) && merged == Merged(visits)
    {
      hide Reaches, GatesClean, Progress, IsAgentBranch, Toured, Vetted, JudgedAs, AddsMerge, Moves;
      ghost var r := State();
      merged, visits := 0, [];
      var todo := AgentBranches(branches);
      VettedLater(cfg, world, n, start, r);
      TourBegins(cfg, world, n, r);
      while todo != {}
        invariant Valid() && Progress(start, State()) && Vetted(cfg, world, n, start, State())
        invariant todo <= AgentBranches(r.branches)
        invariant Toured(cfg, world, n, r, State(), todo, visits) && merged == Merged(visits)
        decreases todo
      {
        var b :| b in todo;
        ghost var was, rest := State(), todo;
        todo := todo - {b};
        var o := Attempt(cfg, b, world(n, b), now);
        if IsMerged(o) {
          merged := merged + 1;
        }
        ProgressTransitive(start, was, State());
        VettedNext(cfg, world, n, start, was, State(), b);
        TourNext(cfg, world, n, r, was, State(), rest, visits, b, o);
        visits := visits + [Visit(b, o)];
      }
    }

    /** Passes over the agents' branches until one merges nothing, ten at most.  A merged branch that git does not
        delete is merged again, and counted again, in the next pass. */
    method MergePasses(cfg: Config, world: (nat, string) -> Replies, clock: nat -> int)
      returns (passes: nat, totalMerged: nat, ghost log: seq<Pass>)
      requires Valid()
      modifies this
      ensures Valid() && |log| == passes && Ran(cfg, world, old(State()), State(), log, totalMerged) && Stops(log)
    {
      hide Reaches, Progress, Toured, Vetted, Ran, Merged, AgentBranches;
      ghost var start := State();
      passes, totalMerged, log := 0, 0, [];
      NothingRan(cfg, world, start);
      var prevMerged: int := -1;
      while totalMerged != prevMerged && passes < 10
        invariant Valid() && |log| == passes <= 10 && Ran(cfg, world, start, State(), log, totalMerged)
        invariant if passes == 0 then prevMerged == -1 else totalMerged - prevMerged == Merged(log[passes - 1].visits)
        invariant forall p: nat :: p < passes - 1 ==> Merged(log[p].visits) > 0
        decreases 10 - passes
      {
        prevMerged := totalMerged;
        passes := passes + 1;
        ghost var was := State();
        var merged;
        ghost var visits;
        assert Progress(start, was) && Vetted(cfg, world, |log|, start, was) by {
          RanSoFar(cfg, world, start, was, log, totalMerged);
        }
        merged, visits := MergePass(cfg, world, passes, clock(passes), start);
        RanNext(cfg, world, start, was, State(), log, totalMerged, visits);
        totalMerged := totalMerged + merged;
        log := log + [Pass(AgentBranches(was.branches), visits)];
      }
    }

    /** A dry run has made the visits `p`, `b` with `p < passes`, and in pass `passes` those outside `todo`: all
        refs stay but HEAD, which has lost that many first parents, none exactly when no visit rewinds. */
    ghost predicate Rehearsed(cfg: Config, world: (nat, string) -> Replies, start: Refs, passes: nat, todo: set<string>,
                              lost: nat)
      requires ValidRefs(start)
      reads this
    {
      && branches == start.branches && start.commits <= commits && IsBack(commits, start.head, lost, head)
      && todo <= AgentBranches(branches) && lost + |todo| <= passes * |AgentBranches(branches)|
      && (lost == 0 <==> forall p, b :: Visited(start.branches, passes, todo, p, b) ==> !Rewinds(cfg, start, b, world(p, b)))
    }

    /** One visit of a dry run. */
    method RehearseNext(cfg: Config, world: (nat, string) -> Replies, ghost start: Refs, passes: nat, ghost todo: set<string>,
                        ghost lost: nat, b: string, now: int) returns (o: Outcome, ghost lostNow: nat)
      requires Valid() && ValidRefs(start) && b in todo && Rehearsed(cfg, world, start, passes, todo, lost)
      modifies this
      ensures Valid() && Rehearsed(cfg, world, start, passes, todo - {b}, lostNow)
      ensures branches == old(branches)
      ensures JudgedAs(cfg, old(State()), b, world(passes, b), false, true, o)
    {
      hide Reaches, ShapeVerdict, IsAgentBranch, Rewinds, IsBack, Visited;
      ghost var was := State();
      var g := world(passes, b);
      o := Rehearse(cfg, b, g, now);
      if lost == 0 { RewindsKept(cfg, start, was, b, g); }
      BackKept(was.commits, commits, start.head, lost, was.head);
      lostNow := lost;
      if Rewinds(cfg, was, b, g) {
        RewindsToParent(cfg, was, b, g);
        BackNext(commits, start.head, lost, was.head);
        lostNow := lost + 1;
      }
      VisitOne(start.branches, passes, todo, b);
      assert Visited(start.branches, passes, todo - {b}, passes, b);
    }

    method RehearsePass(cfg: Config, world: (nat, string) -> Replies, n: nat, now: int, ghost start: Refs, ghost lost: nat)
      returns (merged: nat, ghost visits: seq<Visit>, ghost lostNow: nat)
      requires Valid() && n >= 1 && ValidRefs(start) && Rehearsed(cfg, world, start, n, AgentBranches(branches), lost)
      modifies this
      ensures Valid() && Rehearsed(cfg, world, start, n, {}, lostNow) && merged == Merged(visits)
      ensures branches == old(branches)
      ensures Names(visits) == AgentBranches(branches) && |visits| == |AgentBranches(branches)|
    {
      hide Rehearsed, ShapeVerdict, Names, Merged, JudgedAs, AddsMerge;
      var todo := AgentBranches(branches);
      merged, visits, lostNow := 0, [], lost;
      NothingToured();
      ghost var roster := todo;
      while todo != {}
        invariant Valid() && Rehearsed(cfg, world, start, n, todo, lostNow) && merged == Merged(visits)
        invariant branches == old(branches)
        invariant todo <= roster && Names(visits) == roster - todo && |visits| == |roster| - |todo|
        decreases todo
      {
        var b :| b in todo;
        var o;
        o, lostNow := RehearseNext(cfg, world, start, n, todo, lostNow, b, now);
        todo := todo - {b};
        if IsMerged(o) {
          merged := merged + 1;
        }
        NamesNext(visits, Visit(b, o));
        MergedNext(visits, Visit(b, o));
        visits := visits + [Visit(b, o)];
      }
    }

    method RehearsePasses(cfg: Config, world: (nat, string) -> Replies, clock: nat -> int)
      returns (passes: nat, totalMerged: nat, ghost lost: nat, ghost log: seq<Pass>)
      requires Valid()
      modifies this
      ensures Valid() && Rehearsed(cfg, world, old(State()), passes, {}, lost)
      ensures |log| == passes && totalMerged == MergedIn(log) && Stops(log)
      ensures Logged(world, true, AgentBranches(old(branches)), log, AgentBranches(branches))
    {
      hide Rehearsed, ShapeVerdict, Logged, Names, Merged;
      ghost var start := State();
      passes, totalMerged, lost, log := 0, 0, 0, [];
      NothingRehearsed(cfg, world);
      NothingLogged(world, true, AgentBranches(branches));
      var prevMerged: int := -1;
      while totalMerged != prevMerged && passes < 10
        invariant passes <= 10 && Valid() && Rehearsed(cfg, world, start, passes, {}, lost)
        invariant |log| == passes && totalMerged == MergedIn(log)
        invariant Logged(world, true, AgentBranches(start.branches), log, AgentBranches(branches))
        invariant if passes == 0 then prevMerged == -1 else totalMerged - prevMerged == Merged(log[passes - 1].visits)
        invariant forall p: nat :: p < passes - 1 ==> Merged(log[p].visits) > 0
        decreases 10 - passes
      {
        prevMerged := totalMerged;
        PassBegins(cfg, world, start, passes, lost);
        passes := passes + 1;
        var merged;
        ghost var visits;
        merged, visits, lost := RehearsePass(cfg, world, passes, clock(passes), start, lost);
        totalMerged := totalMerged + merged;
        ghost var pass := Pass(AgentBranches(branches), visits);
        PassLogged(world, true, AgentBranches(start.branches), log, pass, AgentBranches(branches));
        MergedInNext(log, pass);
        log := log + [pass];
      }
    }

    lemma NothingRehearsed(cfg: Config, world: (nat, string) -> Replies)
      requires Valid()
      ensures Rehearsed(cfg, world, State(), 0, {}, 0)
    {
      hide Rewinds;
      BackNone(commits, head);
    }

    lemma PassBegins(cfg: Config, world: (nat, string) -> Replies, start: Refs, passes: nat, lost: nat)
      requires ValidRefs(start) && Rehearsed(cfg, world, start, passes, {}, lost)
      ensures Rehearsed(cfg, world, start, passes + 1, AgentBranches(branches), lost)
    {
      hide Rewinds, IsBack, IsAgentBranch;
      NextPass(passes, |AgentBranches(branches)|);
      assert forall p, b :: Visited(branches, passes + 1, AgentBranches(branches), p, b) <==> Visited(branches, passes, {}, p, b);
    }

    /** In a real run, whatever the order of the branches and the answers, no commit that a ref led to is lost,
        a branch disappears only into HEAD, and other branches are not touched; the merges counted are the branches
        gone, and more only where git would not delete one.  With uncommitted work in the
        checkout nothing is done at all.  A dry run keeps all branches, but HEAD loses a first parent for each
        visit that finds a branch already contained and clean, at most one for each agents' branch in each
        pass; it is kept exactly when none of the visits made would find its branch so at the start.
        Either way each pass visits each agents' branch that is still there once, another pass follows exactly when
        the last one merged something, up to the tenth, and the merges of all are counted.  In a real run every new
        commit is git's own merge or a resolution that needed no person and left no marker, HEAD holds only those
        that passed every gate, and when a run stops by itself no branch that is left could be merged. */
    method ResolveRepo(cfg: Config, dirty: bool, dryRun: bool, world: (nat, string) -> Replies, clock: nat -> int)
      returns (passes: nat, totalMerged: nat, ghost lost: nat, ghost log: seq<Pass>)
      requires Valid()
      modifies this
      ensures Valid() && |log| == passes && totalMerged == MergedIn(log)
      ensures dirty && !dryRun ==> State() == old(State()) && passes == 0
      ensures !dirty || dryRun ==>
        Stops(log) && Logged(world, dryRun, AgentBranches(old(branches)), log, AgentBranches(branches))
      ensures !dryRun ==> Ran(cfg, world, old(State()), State(), log, totalMerged)
      ensures !dryRun ==> forall c :: Kept(old(State()), c) ==> Kept(State(), c)
      ensures dryRun ==> DryRan(cfg, world, old(State()), State(), passes, lost)
    {
      hide Reaches, ShapeVerdict, Progress, IsAgentBranch, Rewinds, IsBack, Logged, Stops, Vetted, Counts, Settled;
      ghost var start := State();
      passes, totalMerged, lost, log := 0, 0, 0, [];
      NoProgress(start);
      if dryRun {
        passes, totalMerged, lost, log := RehearsePasses(cfg, world, clock);
        BackIsDown(commits, start.head, lost, head);
        assert forall p, b :: Visited(start.branches, passes, {}, p, b) <==> 1 <= p <= passes && b in AgentBranches(branches);
      } else {
        NothingRan(cfg, world, start);
        if !dirty {
          passes, totalMerged, log := MergePasses(cfg, world, clock);
        }
        forall c | Kept(start, c) ensures Kept(State(), c) {
          ProgressKeepsWork(start, State(), c);
        }
      }
    }
  }

  // ----- what the passes did -----

  datatype Visit = Visit(branch: string, outcome: Outcome)

  /** One pass: the agents' branches there were, and the visits made. */
  datatype Pass = Pass(roster: set<string>, visits: seq<Visit>)

  function Merged(vs: seq<Visit>): nat {
    if vs == [] then 0 else Merged(vs[..|vs| - 1]) + (if IsMerged(vs[|vs| - 1].outcome) then 1 else 0)
  }

  function MergedIn(log: seq<Pass>): nat {
    if log == [] then 0 else MergedIn(log[..|log| - 1]) + Merged(log[|log| - 1].visits)
  }

  lemma MergedNext(vs: seq<Visit>, v: Visit)
    ensures Merged(vs + [v]) == Merged(vs) + (if IsMerged(v.outcome) then 1 else 0)
  {
    assert (vs + [v])[..|vs|] == vs;
  }

  lemma MergedInNext(log: seq<Pass>, p: Pass)
    ensures MergedIn(log + [p]) == MergedIn(log) + Merged(p.visits)
  {
    assert (log + [p])[..|log|] == log;
  }

  lemma {:induction false} NoneMerged(vs: seq<Visit>, v: Visit)
    requires Merged(vs) == 0 && v in vs
    ensures !IsMerged(v.outcome)
  {
    var last := |vs| - 1;
    assert vs == vs[..last] + [vs[last]];
    if v != vs[last] { NoneMerged(vs[..last], v); }
  }

  /** The branches that pass `n` merged and git deleted. */
  function Leaving(world: (nat, string) -> Replies, n: nat, vs: seq<Visit>): set<string> {
    set v | v in vs && IsMerged(v.outcome) && world(n, v.branch).deletes :: v.branch
  }

  function Names(vs: seq<Visit>): set<string> {
    set v | v in vs :: v.branch
  }

  lemma NothingToured()
    ensures Names([]) == {} && Merged([]) == 0
  {
  }

  lemma NamesNext(vs: seq<Visit>, v: Visit)
    ensures Names(vs + [v]) == Names(vs) + {v.branch}
  {
    assert forall w :: w in vs + [v] <==> w in vs || w == v;
  }

  lemma LeavingNext(world: (nat, string) -> Replies, n: nat, vs: seq<Visit>, v: Visit)
    ensures Leaving(world, n, vs + [v])
      == Leaving(world, n, vs) + if IsMerged(v.outcome) && world(n, v.branch).deletes then {v.branch} else {}
  {
    assert forall w :: w in vs + [v] <==> w in vs || w == v;
  }

  ghost predicate OthersStay(r: Refs, s: Refs) {
    forall b :: b in r.branches && !IsAgentBranch(b) ==> b in s.branches
  }

  /** Git deletes whatever it is asked to. */
  ghost predicate DeletesAll(world: (nat, string) -> Replies) {
    forall p, b :: world(p, b).deletes
  }

  /** The branches are fewer by at most the merges, and by all of them if git deletes all it is asked to. */
  ghost predicate Counts(world: (nat, string) -> Replies, r: Refs, s: Refs, merged: int) {
    && |r.branches| - |s.branches| <= merged
    && (DeletesAll(world) ==> |r.branches| - |s.branches| == merged)
  }

  lemma NothingCounts(world: (nat, string) -> Replies, r: Refs)
    ensures Counts(world, r, r, 0)
  {
  }

  lemma CountsAdd(world: (nat, string) -> Replies, r: Refs, s: Refs, t: Refs, a: int, b: int)
    requires Counts(world, r, s, a) && Counts(world, s, t, b)
    ensures Counts(world, r, t, a + b)
  {
  }

  lemma CountsOne(world: (nat, string) -> Replies, n: nat, s: Refs, t: Refs, b: string, merged: bool)
    requires merged ==> b in s.branches
    requires t.branches == if merged then Without(s.branches, b, world(n, b)) else s.branches
    ensures Counts(world, s, t, if merged then 1 else 0)
  {
    OneLeaves(s.branches, t.branches, b, merged && world(n, b).deletes);
  }

  /** Every agents' branch outside `todo` was visited once. */
  ghost predicate Swept(roster: set<string>, todo: set<string>, vs: seq<Visit>) {
    todo <= roster && Names(vs) == roster - todo && |vs| == |roster| - |todo|
  }

  /** And from `r` to `s` exactly those are gone that were merged and that git deleted. */
  ghost predicate Tour(world: (nat, string) -> Replies, n: nat, r: Refs, s: Refs, todo: set<string>, vs: seq<Visit>) {
    && Swept(AgentBranches(r.branches), todo, vs)
    && AgentBranches(s.branches) == AgentBranches(r.branches) - Leaving(world, n, vs)
    && OthersStay(r, s) && Counts(world, r, s, Merged(vs))
  }

  /** Nothing was merged, so that every visit would end the same way now. */
  ghost predicate Quiet(cfg: Config, world: (nat, string) -> Replies, n: nat, s: Refs, vs: seq<Visit>)
    requires ValidRefs(s)
  {
    forall v :: v in vs ==>
      && !IsMerged(v.outcome)
      && JudgedAs(cfg, s, v.branch, world(n, v.branch), v.outcome == AlreadyRefused, false, v.outcome)
  }

  ghost predicate Toured(cfg: Config, world: (nat, string) -> Replies, n: nat, r: Refs, s: Refs, todo: set<string>,
                         vs: seq<Visit>)
    requires ValidRefs(r) && ValidRefs(s)
  {
    && Tour(world, n, r, s, todo, vs)
    && (Merged(vs) == 0 ==> s.head == r.head && s.branches == r.branches && Quiet(cfg, world, n, s, vs))
  }

  lemma TourBegins(cfg: Config, world: (nat, string) -> Replies, n: nat, r: Refs)
    requires ValidRefs(r)
    ensures Toured(cfg, world, n, r, r, AgentBranches(r.branches), [])
  {
    hide JudgedAs, IsAgentBranch;
    assert Counts(world, r, r, 0);
    assert Names([]) == {} && Leaving(world, n, []) == {};
  }

  lemma TourNext(cfg: Config, world: (nat, string) -> Replies, n: nat, r: Refs, s: Refs, t: Refs, todo: set<string>,
                 vs: seq<Visit>, b: string, o: Outcome)
    requires ValidRefs(r) && ValidRefs(s) && ValidRefs(t) && s.commits <= t.commits
    requires Toured(cfg, world, n, r, s, todo, vs) && b in todo
    requires IsMerged(o) ==> b in s.branches
    requires t.branches == if IsMerged(o) then Without(s.branches, b, world(n, b)) else s.branches
    requires !IsMerged(o) ==> t.head == s.head && JudgedAs(cfg, s, b, world(n, b), o == AlreadyRefused, false, o)
    ensures Toured(cfg, world, n, r, t, todo - {b}, vs + [Visit(b, o)])
  {
    hide JudgedAs, Tour, Quiet;
    StepOfTour(world, n, r, s, t, todo, vs, b, o);
    MergedNext(vs, Visit(b, o));
    if !IsMerged(o) && Merged(vs) == 0 { QuietNext(cfg, world, n, s, t, vs, b, o); }
  }

  lemma StepOfTour(world: (nat, string) -> Replies, n: nat, r: Refs, s: Refs, t: Refs, todo: set<string>, vs: seq<Visit>,
                   b: string, o: Outcome)
    requires Tour(world, n, r, s, todo, vs) && b in todo
    requires IsMerged(o) ==> b in s.branches
    requires t.branches == if IsMerged(o) then Without(s.branches, b, world(n, b)) else s.branches
    ensures Tour(world, n, r, t, todo - {b}, vs + [Visit(b, o)])
  {
    hide IsAgentBranch, AgentBranches, Leaving, Swept, Merged, Counts, Without;
    LeavingNext(world, n, vs, Visit(b, o));
    MergedNext(vs, Visit(b, o));
    InRoster(AgentBranches(r.branches), todo, vs, b);
    AreAgents(r.branches);
    SweptNext(AgentBranches(r.branches), todo, vs, Visit(b, o));
    LeavesOrStays(world, n, s, t, b, IsMerged(o));
    CountsOne(world, n, s, t, b, IsMerged(o));
    CountsAdd(world, r, s, t, Merged(vs), if IsMerged(o) then 1 else 0);
    Leave(AgentBranches(r.branches), Leaving(world, n, vs), if IsMerged(o) && world(n, b).deletes then {b} else {});
  }

  lemma Leave(a: set<string>, b: set<string>, c: set<string>)
    ensures (a - b) - c == a - (b + c)
  {
  }

  lemma InRoster(roster: set<string>, todo: set<string>, vs: seq<Visit>, b: string)
    requires Swept(roster, todo, vs) && b in todo
    ensures b in roster
  {
  }

  lemma SweptNext(roster: set<string>, todo: set<string>, vs: seq<Visit>, v: Visit)
    requires Swept(roster, todo, vs) && v.branch in todo
    ensures Swept(roster, todo - {v.branch}, vs + [v])
  {
    hide Names;
    NamesNext(vs, v);
    assert roster - (todo - {v.branch}) == (roster - todo) + {v.branch};
  }

  lemma LeavesOrStays(world: (nat, string) -> Replies, n: nat, s: Refs, t: Refs, b: string, merged: bool)
    requires merged ==> b in s.branches
    requires t.branches == if merged then Without(s.branches, b, world(n, b)) else s.branches
    ensures AgentBranches(t.branches) == AgentBranches(s.branches) - if merged && world(n, b).deletes then {b} else {}
    ensures forall c :: c in s.branches && c != b ==> c in t.branches
  {
    OneLeaves(s.branches, t.branches, b, merged && world(n, b).deletes);
  }

  lemma AreAgents(m: map<string, nat>)
    ensures forall b :: b in AgentBranches(m) ==> IsAgentBranch(b)
  {
    hide IsAgentBranch;
  }

  lemma OneLeaves(m: map<string, nat>, after: map<string, nat>, b: string, leaves: bool)
    requires if leaves then b in m && after == m - {b} else after == m
    ensures AgentBranches(after) == AgentBranches(m) - if leaves then {b} else {}
    ensures |after| == |m| - (if leaves then 1 else 0)
  {
    hide IsAgentBranch;
    if leaves { assert m.Keys == after.Keys + {b}; }
  }

  lemma QuietNext(cfg: Config, world: (nat, string) -> Replies, n: nat, s: Refs, t: Refs, vs: seq<Visit>, b: string,
                  o: Outcome)
    requires ValidRefs(s) && ValidRefs(t) && s.commits <= t.commits && t.head == s.head && t.branches == s.branches
    requires Quiet(cfg, world, n, s, vs) && !IsMerged(o)
    requires JudgedAs(cfg, s, b, world(n, b), o == AlreadyRefused, false, o)
    ensures Quiet(cfg, world, n, t, vs + [Visit(b, o)])
  {
    hide JudgedAs;
    forall v | v in vs + [Visit(b, o)]
      ensures JudgedAs(cfg, t, v.branch, world(n, v.branch), v.outcome == AlreadyRefused, false, v.outcome)
    {
      JudgedStays(cfg, s, t, v.branch, world(n, v.branch), v.outcome == AlreadyRefused, false, v.outcome);
    }
  }

  /** New commits that no ref leads to make no difference to an attempt. */
  lemma JudgedStays(cfg: Config, r: Refs, s: Refs, b: string, g: Replies, refused: bool, dryRun: bool, o: Outcome)
    requires ValidRefs(r) && ValidRefs(s) && r.commits <= s.commits && r.head == s.head && r.branches == s.branches
    ensures JudgedAs(cfg, s, b, g, refused, dryRun, o) <==> JudgedAs(cfg, r, b, g, refused, dryRun, o)
  {
    hide Reaches, GatesClean, EndsAs;
    if b in r.branches {
      ReachesKept(r.commits, s.commits, r.head, r.branches[b]);
      GatesKept(cfg, r.commits, s.commits, g, r.head, r.branches[b], r.commits[r.head].tree);
      GatesKept(cfg, r.commits, s.commits, g, r.head, r.branches[b], g.resolvedTree);
      if g.clean.Some? { GatesKept(cfg, r.commits, s.commits, g, r.head, r.branches[b], g.clean.value); }
    }
  }

  lemma TourEnds(cfg: Config, world: (nat, string) -> Replies, n: nat, r: Refs, s: Refs, vs: seq<Visit>)
    requires ValidRefs(r) && ValidRefs(s) && Toured(cfg, world, n, r, s, {}, vs)
    ensures Names(vs) == AgentBranches(r.branches) && |vs| == |AgentBranches(r.branches)|
    ensures AgentBranches(s.branches) == AgentBranches(r.branches) - Leaving(world, n, vs)
    ensures OthersStay(r, s)
    ensures Counts(world, r, s, Merged(vs))
    ensures Merged(vs) == 0 ==> Quiet(cfg, world, n, s, vs)
  {
    hide IsAgentBranch, Leaving, Names, Quiet, Counts;
  }

  // ----- what the passes commit -----

  /** The merge was made at a visit of one of the first `n` passes, soundly. */
  ghost predicate MadeSoundly(cfg: Config, world: (nat, string) -> Replies, n: nat, c: Commit) {
    exists p, b :: 1 <= p <= n && IsAgentBranch(b) && Sound(cfg, world(p, b), c)
  }

  /** It was, and every gate passed it as the merge of its parents. */
  ghost predicate MadeClean(cfg: Config, world: (nat, string) -> Replies, n: nat, cs: seq<Commit>, k: nat)
    requires WellFormed(cs) && k < |cs|
  {
    && |cs[k].parents| == 2
    && exists p, b :: 1 <= p <= n && IsAgentBranch(b) && Sound(cfg, world(p, b), cs[k])
                      && GatesClean(cfg, cs, world(p, b), cs[k].parents[0], cs[k].parents[1], cs[k].tree)
  }

  /** Every commit made since `start` is sound, and every one in HEAD passed every gate. */
  ghost predicate Vetted(cfg: Config, world: (nat, string) -> Replies, n: nat, start: Refs, s: Refs)
    requires ValidRefs(s)
  {
    && (forall k: nat :: |start.commits| <= k < |s.commits| ==> MadeSoundly(cfg, world, n, s.commits[k]))
    && (forall k: nat :: |start.commits| <= k < |s.commits| && Reaches(s.commits, s.head, k) ==>
          MadeClean(cfg, world, n, s.commits, k))
  }

  lemma NothingVetted(cfg: Config, world: (nat, string) -> Replies, start: Refs)
    requires ValidRefs(start)
    ensures Vetted(cfg, world, 0, start, start) && Settled(cfg, world, start, [])
  {
  }

  lemma VettedLater(cfg: Config, world: (nat, string) -> Replies, n: nat, start: Refs, s: Refs)
    requires ValidRefs(s) && n >= 1 && Vetted(cfg, world, n - 1, start, s)
    ensures Vetted(cfg, world, n, start, s)
  {
    hide Reaches, Sound, GatesClean, IsAgentBranch;
  }

  lemma VettedNext(cfg: Config, world: (nat, string) -> Replies, n: nat, start: Refs, r: Refs, s: Refs, b: string)
    requires ValidRefs(start) && ValidRefs(r) && ValidRefs(s) && n >= 1 && IsAgentBranch(b)
    requires Progress(start, r) && Progress(r, s) && Vetted(cfg, world, n, start, r)
    requires AddsMerge(cfg, world(n, b), r, b, s.commits) && Moves(cfg, world(n, b), r, b, s)
    ensures Vetted(cfg, world, n, start, s)
  {
    hide Reaches, Sound, GatesClean, IsAgentBranch, MadeSoundly, MadeClean, AddsMerge, Moves;
    forall k: nat | |start.commits| <= k < |s.commits| ensures MadeSoundly(cfg, world, n, s.commits[k]) {
      if k < |r.commits| {
        assert s.commits[k] == r.commits[k];
      } else {
        AddedIsMerge(cfg, world(n, b), r, b, s.commits);
        SoundlyBy(cfg, world, n, s.commits[k], n, b);
      }
    }
    forall k: nat | |start.commits| <= k < |s.commits| && Reaches(s.commits, s.head, k)
      ensures MadeClean(cfg, world, n, s.commits, k)
    {
      CleanNext(cfg, world, n, start, r, s, b, k);
    }
  }

  lemma SoundlyBy(cfg: Config, world: (nat, string) -> Replies, n: nat, c: Commit, p: nat, b: string)
    requires 1 <= p <= n && IsAgentBranch(b) && Sound(cfg, world(p, b), c)
    ensures MadeSoundly(cfg, world, n, c)
  {
  }

  lemma CleanNext(cfg: Config, world: (nat, string) -> Replies, n: nat, start: Refs, r: Refs, s: Refs, b: string, k: nat)
    requires ValidRefs(start) && ValidRefs(r) && ValidRefs(s) && n >= 1 && IsAgentBranch(b)
    requires Progress(start, r) && Progress(r, s) && Vetted(cfg, world, n, start, r)
    requires AddsMerge(cfg, world(n, b), r, b, s.commits) && Moves(cfg, world(n, b), r, b, s)
    requires |start.commits| <= k < |s.commits| && Reaches(s.commits, s.head, k)
    ensures MadeClean(cfg, world, n, s.commits, k)
  {
    hide Reaches, Sound, GatesClean, IsAgentBranch, MadeClean, AddsMerge;
    if s.head == r.head {
      ReachesKept(r.commits, s.commits, r.head, k);
      ReachesIsDown(r.commits, r.head, k);
      CleanKept(cfg, world, n, r.commits, s.commits, k);
    } else if k == s.head {
      AddedIsMerge(cfg, world(n, b), r, b, s.commits);
      CleanBy(cfg, world, n, s.commits, k, n, b);
    } else {
      ReachesByParent(s.commits, s.head, k, r.head, r.branches[b]);
      assert r.branches[b] == start.branches[b] < |start.commits|;
      if Reaches(s.commits, r.branches[b], k) { ReachesIsDown(s.commits, r.branches[b], k); }
      ReachesKept(r.commits, s.commits, r.head, k);
      ReachesIsDown(r.commits, r.head, k);
      CleanKept(cfg, world, n, r.commits, s.commits, k);
    }
  }

  lemma ReachesByParent(cs: seq<Commit>, c: nat, k: nat, p: nat, q: nat)
    requires WellFormed(cs) && c < |cs| && Reaches(cs, c, k) && k != c && cs[c].parents == [p, q]
    ensures p < |cs| && q < |cs| && (Reaches(cs, p, k) || Reaches(cs, q, k))
  {
    var j :| 0 <= j < |cs[c].parents| && Reaches(cs, cs[c].parents[j], k);
    assert cs[c].parents[0] < c && cs[c].parents[1] < c;
  }

  lemma CleanBy(cfg: Config, world: (nat, string) -> Replies, n: nat, cs: seq<Commit>, k: nat, p: nat, b: string)
    requires WellFormed(cs) && k < |cs| && 1 <= p <= n && IsAgentBranch(b) && Sound(cfg, world(p, b), cs[k])
    requires |cs[k].parents| == 2 && GatesClean(cfg, cs, world(p, b), cs[k].parents[0], cs[k].parents[1], cs[k].tree)
    ensures MadeClean(cfg, world, n, cs, k)
  {
  }

  lemma CleanKept(cfg: Config, world: (nat, string) -> Replies, n: nat, cs: seq<Commit>, more: seq<Commit>, k: nat)
    requires WellFormed(cs) && WellFormed(more) && cs <= more && k < |cs| && MadeClean(cfg, world, n, cs, k)
    ensures MadeClean(cfg, world, n, more, k)
  {
    hide Sound, GatesClean, IsAgentBranch;
    var c := cs[k];
    var p, b :| 1 <= p <= n && IsAgentBranch(b) && Sound(cfg, world(p, b), c)
                && GatesClean(cfg, cs, world(p, b), c.parents[0], c.parents[1], c.tree);
    GatesKept(cfg, cs, more, world(p, b), c.parents[0], c.parents[1], c.tree);
    assert more[k] == c;
  }

  // ----- the log of the passes -----

  /** The agents' branches there are at the beginning of a pass. */
  function Roster(world: (nat, string) -> Replies, dryRun: bool, first: set<string>, log: seq<Pass>, p: nat): set<string>
    requires p <= |log|
  {
    if p == 0 then first
    else log[p - 1].roster - if dryRun then {} else Leaving(world, p, log[p - 1].visits)
  }

  /** Every pass visits every agents' branch that is still there, once; at the end `last` are. */
  ghost predicate Logged(world: (nat, string) -> Replies, dryRun: bool, first: set<string>, log: seq<Pass>, last: set<string>) {
    && (forall p: nat :: p < |log| ==> log[p].roster == Roster(world, dryRun, first, log, p))
    && (forall p: nat :: p < |log| ==> Names(log[p].visits) == log[p].roster && |log[p].visits| == |log[p].roster|)
    && last == Roster(world, dryRun, first, log, |log|)
  }

  /** Each pass but the last merged something; the last did not, or is the tenth. */
  ghost predicate Stops(log: seq<Pass>) {
    && 1 <= |log| <= 10
    && (forall p: nat :: p < |log| - 1 ==> Merged(log[p].visits) > 0)
    && (|log| < 10 ==> Merged(log[|log| - 1].visits) == 0)
  }

  /** When the last pass merged nothing, each of its visits would end the same way in the end, and without a merge. */
  ghost predicate Settled(cfg: Config, world: (nat, string) -> Replies, s: Refs, log: seq<Pass>)
    requires ValidRefs(s)
  {
    log != [] && Merged(log[|log| - 1].visits) == 0 ==> Quiet(cfg, world, |log|, s, log[|log| - 1].visits)
  }

  lemma NothingLogged(world: (nat, string) -> Replies, dryRun: bool, first: set<string>)
    ensures Logged(world, dryRun, first, [], first)
  {
  }

  lemma RosterKept(world: (nat, string) -> Replies, dryRun: bool, first: set<string>, log: seq<Pass>, p: Pass, q: nat)
    requires q <= |log|
    ensures Roster(world, dryRun, first, log + [p], q) == Roster(world, dryRun, first, log, q)
  {
    hide Leaving;
    if q > 0 { assert (log + [p])[q - 1] == log[q - 1]; }
  }

  lemma PassLogged(world: (nat, string) -> Replies, dryRun: bool, first: set<string>, log: seq<Pass>, p: Pass, last: set<string>)
    requires Logged(world, dryRun, first, log, p.roster) && Names(p.visits) == p.roster && |p.visits| == |p.roster|
    requires last == p.roster - if dryRun then {} else Leaving(world, |log| + 1, p.visits)
    ensures Logged(world, dryRun, first, log + [p], last)
  {
    hide Leaving, Names, Roster;
    var more := log + [p];
    forall q: nat | q < |more| ensures more[q].roster == Roster(world, dryRun, first, more, q) {
      RosterKept(world, dryRun, first, log, p, q);
      assert q < |log| ==> more[q] == log[q];
    }
    LastRoster(world, dryRun, first, log, p);
  }

  lemma LastRoster(world: (nat, string) -> Replies, dryRun: bool, first: set<string>, log: seq<Pass>, p: Pass)
    ensures Roster(world, dryRun, first, log + [p], |log| + 1)
      == p.roster - if dryRun then {} else Leaving(world, |log| + 1, p.visits)
  {
    hide Leaving;
  }

  /** What the passes of a dry run keep: all branches, and HEAD but for the first parents it lost, none exactly when no
      visit would find its branch contained and clean at the start. */
  ghost predicate DryRan(cfg: Config, world: (nat, string) -> Replies, start: Refs, s: Refs, passes: nat, lost: nat) {
    && ValidRefs(start) && ValidRefs(s) && s.branches == start.branches && start.commits <= s.commits
    && IsBack(s.commits, start.head, lost, s.head) && lost <= passes * |AgentBranches(start.branches)|
    && (s.head == start.head <==> forall p, b :: 1 <= p <= passes && b in AgentBranches(start.branches) ==>
          !Rewinds(cfg, start, b, world(p, b)))
  }

  /** What the passes of a real run keep. */
  ghost predicate Ran(cfg: Config, world: (nat, string) -> Replies, start: Refs, s: Refs, log: seq<Pass>, merged: int) {
    && ValidRefs(start) && ValidRefs(s) && Progress(start, s) && Vetted(cfg, world, |log|, start, s)
    && merged == MergedIn(log) && Counts(world, start, s, merged)
    && Logged(world, false, AgentBranches(start.branches), log, AgentBranches(s.branches))
    && Settled(cfg, world, s, log)
    && OthersStay(start, s)
  }

  lemma NothingRan(cfg: Config, world: (nat, string) -> Replies, start: Refs)
    requires ValidRefs(start)
    ensures Ran(cfg, world, start, start, [], 0)
  {
    NoProgress(start);
    NothingVetted(cfg, world, start);
    NothingLogged(world, false, AgentBranches(start.branches));
    NothingCounts(world, start);
  }

  lemma RanSoFar(cfg: Config, world: (nat, string) -> Replies, start: Refs, s: Refs, log: seq<Pass>, merged: int)
    requires Ran(cfg, world, start, s, log, merged)
    ensures ValidRefs(start) && ValidRefs(s) && Progress(start, s) && Vetted(cfg, world, |log|, start, s)
    ensures merged == MergedIn(log) && Counts(world, start, s, merged) && OthersStay(start, s)
    ensures Logged(world, false, AgentBranches(start.branches), log, AgentBranches(s.branches))
  {
    hide Progress, Vetted, Counts, Logged, Settled, OthersStay, MergedIn, ValidRefs, AgentBranches;
  }

  lemma RanAdds(cfg: Config, world: (nat, string) -> Replies, start: Refs, was: Refs, s: Refs, log: seq<Pass>, merged: int,
                visits: seq<Visit>)
    requires Ran(cfg, world, start, was, log, merged) && ValidRefs(s) && Toured(cfg, world, |log| + 1, was, s, {}, visits)
    ensures Counts(world, start, s, merged + Merged(visits))
  {
    hide *;
    assert Counts(world, start, was, merged) by { RanSoFar(cfg, world, start, was, log, merged); }
    assert Counts(world, was, s, Merged(visits)) by {
      RanSoFar(cfg, world, start, was, log, merged);
      TourEnds(cfg, world, |log| + 1, was, s, visits);
    }
    CountsAdd(world, start, was, s, merged, Merged(visits));
  }

  lemma SettledNext(cfg: Config, world: (nat, string) -> Replies, s: Refs, log: seq<Pass>, pass: Pass)
    requires ValidRefs(s) && (Merged(pass.visits) == 0 ==> Quiet(cfg, world, |log| + 1, s, pass.visits))
    ensures Settled(cfg, world, s, log + [pass])
  {
    hide Quiet, Merged;
  }

  lemma RanNext(cfg: Config, world: (nat, string) -> Replies, start: Refs, was: Refs, s: Refs, log: seq<Pass>, merged: int,
                visits: seq<Visit>)
    requires Ran(cfg, world, start, was, log, merged) && ValidRefs(s) && Progress(start, s)
    requires Vetted(cfg, world, |log| + 1, start, s) && Toured(cfg, world, |log| + 1, was, s, {}, visits)
    ensures Ran(cfg, world, start, s, log + [Pass(AgentBranches(was.branches), visits)], merged + Merged(visits))
  {
    hide *;
    assert Counts(world, start, s, merged + Merged(visits)) by {
      RanAdds(cfg, world, start, was, s, log, merged, visits);
    }
    RanSoFar(cfg, world, start, was, log, merged);
    var pass := Pass(AgentBranches(was.branches), visits);
    TourEnds(cfg, world, |log| + 1, was, s, visits);
    PassLogged(world, false, AgentBranches(start.branches), log, pass, AgentBranches(s.branches));
    MergedInNext(log, pass);
    SettledNext(cfg, world, s, log, pass);
    OthersStayOn(start, was, s);
    IsRan(cfg, world, start, s, log + [pass], merged + Merged(visits));
  }

  lemma OthersStayOn(r: Refs, s: Refs, t: Refs)
    requires OthersStay(r, s) && OthersStay(s, t)
    ensures OthersStay(r, t)
  {
    hide IsAgentBranch;
  }

  lemma IsRan(cfg: Config, world: (nat, string) -> Replies, start: Refs, s: Refs, log: seq<Pass>, merged: int)
    requires ValidRefs(start) && ValidRefs(s) && Progress(start, s) && Vetted(cfg, world, |log|, start, s)
    requires merged == MergedIn(log) && Counts(world, start, s, merged) && Settled(cfg, world, s, log) && OthersStay(start, s)
    requires Logged(world, false, AgentBranches(start.branches), log, AgentBranches(s.branches))
    ensures Ran(cfg, world, start, s, log, merged)
  {
    hide Progress, Vetted, Counts, Logged, Settled, OthersStay, MergedIn, ValidRefs, AgentBranches;
  }

  predicate Visited(branches: map<string, nat>, passes: nat, todo: set<string>, p: int, b: string) {
    (1 <= p < passes || (p == passes >= 1 && b !in todo)) && b in AgentBranches(branches)
  }

  lemma VisitOne(branches: map<string, nat>, passes: nat, todo: set<string>, b: string)
    requires b in todo && todo <= AgentBranches(branches)
    ensures passes >= 1 ==> Visited(branches, passes, todo - {b}, passes, b)
    ensures forall p, c :: Visited(branches, passes, todo - {b}, p, c) ==>
              Visited(branches, passes, todo, p, c) || (p, c) == (passes, b)
    ensures forall p, c :: Visited(branches, passes, todo, p, c) ==> Visited(branches, passes, todo - {b}, p, c)
  {
  }

  function AgentBranches(branches: map<string, nat>): set<string> {
    set b | b in branches && IsAgentBranch(b)
  }

  lemma NextPass(k: nat, n: nat)
    ensures (k + 1) * n == k * n + n
  {
  }

  /** A dry visit finds the branch already contained and clean, so that its undo rewinds HEAD. */
  ghost predicate Rewinds(cfg: Config, r: Refs, b: string, g: Replies)
    requires ValidRefs(r)
  {
    && b in r.branches && Reaches(r.commits, r.head, r.branches[b]) && r.commits[r.head].parents != []
    && !Stale(cfg, r, g)
    && GatesClean(cfg, r.commits, g, r.head, r.branches[b], r.commits[r.head].tree)
  }

  lemma RewindsToParent(cfg: Config, r: Refs, b: string, g: Replies)
    requires ValidRefs(r) && Rewinds(cfg, r, b, g)
    ensures r.commits[r.head].parents != []
  {
  }

  /** New commits that no ref leads to make no difference. */
  lemma RewindsKept(cfg: Config, r: Refs, s: Refs, b: string, g: Replies)
    requires ValidRefs(r) && ValidRefs(s) && r.commits <= s.commits && r.branches == s.branches
    requires IsBack(s.commits, r.head, 0, s.head)
    ensures Rewinds(cfg, r, b, g) <==> Rewinds(cfg, s, b, g)
  {
    hide GatesClean, Reaches;
    if b in r.branches {
      ReachesKept(r.commits, s.commits, r.head, r.branches[b]);
      GatesKept(cfg, r.commits, s.commits, g, r.head, r.branches[b], r.commits[r.head].tree);
    }
  }

  /** `to` is the `n`th first parent of `from`. */
  predicate IsBack(cs: seq<Commit>, from: nat, n: nat, to: nat)
    decreases n
  {
    if n == 0 then from == to
    else from < |cs| && cs[from].parents != [] && IsBack(cs, cs[from].parents[0], n - 1, to)
  }

  lemma BackNone(cs: seq<Commit>, c: nat)
    ensures IsBack(cs, c, 0, c)
  {
  }

  lemma {:induction false} BackNext(cs: seq<Commit>, from: nat, n: nat, to: nat)
    requires IsBack(cs, from, n, to) && to < |cs| && cs[to].parents != []
    ensures IsBack(cs, from, n + 1, cs[to].parents[0])
    decreases n
  {
    if n > 0 {
      BackNext(cs, cs[from].parents[0], n - 1, to);
    } else {
      BackNone(cs, cs[to].parents[0]);
    }
  }

  lemma {:induction false} BackKept(cs: seq<Commit>, more: seq<Commit>, from: nat, n: nat, to: nat)
    requires IsBack(cs, from, n, to) && cs <= more
    ensures IsBack(more, from, n, to)
    decreases n
  {
    if n > 0 { BackKept(cs, more, cs[from].parents[0], n - 1, to); }
  }

  lemma {:induction false} BackIsDown(cs: seq<Commit>, from: nat, n: nat, to: nat)
    requires WellFormed(cs) && IsBack(cs, from, n, to)
    ensures to + n <= from && (n == 0 ==> to == from)
    decreases n
  {
    if n > 0 { BackIsDown(cs, cs[from].parents[0], n - 1, to); }
  }

  lemma NoProgress(r: Refs)
    requires ValidRefs(r)
    ensures Progress(r, r)
  {
    ReachesSelf(r.commits, r.head);
  }

  /** A dry run over a branch that mainline already contains drops mainline's last commit. */
  method DryRunExample(tree: Tree, cfg: Config, g: Replies) returns (repo: Repo)
    requires cfg.maxAge <= 0 && !g.content && g.mergeBase == Some(1) && g.ins == g.rem
    requires cfg.limits.maxNetLines >= 0 && cfg.limits.maxRatio >= 0.0
    ensures fresh(repo) && repo.Valid()
    ensures repo.branches == map["agent/merged" := 1] && repo.head == 0
  {
    repo := new Repo([Commit([], tree, 0), Commit([0], tree, 1)], 1, map["agent/merged" := 1]);
    assert repo.commits[1].parents == [0];
    ReachesSelf(repo.commits, 1);
    AcceptedIff(cfg.limits, tree, Some(tree), tree, tree, g.ins, g.rem);
    var o := repo.ResolveBranch(cfg, "agent/merged", g, 0, true);
    assert o == MergedClean;
  }

  /** The branches after a merge of this one. */
  function Without(m: map<string, nat>, b: string, g: Replies): map<string, nat> {
    if g.deletes then m - {b} else m
  }

  lemma AttemptIsProgress(r: Refs, s: Refs, b: string, g: Replies, merged: bool)
    requires ValidRefs(r) && ValidRefs(s) && r.commits <= s.commits
    requires if merged then b in r.branches && s.branches == Without(r.branches, b, g)
                            && Reaches(s.commits, s.head, r.head) && Reaches(s.commits, s.head, r.branches[b])
             else s.head == r.head && s.branches == r.branches
    ensures Progress(r, s)
  {
    hide Reaches;
    ReachesSelf(s.commits, s.head);
  }

  /** `"agent/" in b`. */
  predicate IsAgentBranch(b: string) {
    Find(b, "agent/", 0).Some?
  }

  lemma IsAgentIff(b: string)
    ensures IsAgentBranch(b) <==> exists i: nat :: OccursAt(b, "agent/", i)
  {
    hide OccursAt;
  }

  /** After a merge, HEAD contains what it contained and the branch. */
  lemma MergeKeepsHistory(was: seq<Commit>, pre: nat, tip: nat, cs: seq<Commit>, head: nat)
    requires WellFormed(was) && WellFormed(cs) && was <= cs && pre < |was| && tip < |was| && head < |cs|
    requires (head == pre && cs == was && Reaches(was, pre, tip))
          || (head == |was| && |cs| > |was| && cs[head].parents == [pre, tip])
    ensures Reaches(cs, head, pre) && Reaches(cs, head, tip)
    ensures head == |was| ==> head != pre && !Reaches(was, pre, head)
  {
    if head == |was| {
      assert cs[head].parents[0] == pre && cs[head].parents[1] == tip;
      assert Reaches(cs, pre, pre) && Reaches(cs, tip, tip);
    }
    if Reaches(was, pre, head) { ReachesIsDown(was, pre, head); }
  }

  lemma {:induction false} ReachesIsDown(cs: seq<Commit>, a: nat, b: nat)
    requires WellFormed(cs) && a < |cs| && Reaches(cs, a, b)
    ensures b <= a
    decreases a
  {
    if a != b {
      var j :| 0 <= j < |cs[a].parents| && Reaches(cs, cs[a].parents[j], b);
      ReachesIsDown(cs, cs[a].parents[j], b);
    }
  }
}
