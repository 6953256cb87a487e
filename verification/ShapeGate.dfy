/**
 The shape gate: is the tree that came out of a merge the right shape to have come out of it?
 Trees map paths to blobs; renames are a deletion and an addition.
 */
module ShapeGate {
  import opened Text

  type Tree = map<string, int>

  /** The floor below which the ratio is not asked, the ratio of the tree that may go, and the net
      number of lines that may go. */
  datatype Limits = Limits(floorFiles: nat, maxRatio: real, maxNetLines: int)

  datatype Verdict =
    | Accepted
    | NoMergeBase
    | NeverSeen(paths: set<string>)
    | Unattributed(paths: set<string>)
    | Shrunk(removed: int)
    | NetNegative(net: int)

  /** `git diff --diff-filter=D a b`. */
  function Deleted(a: Tree, b: Tree): set<string> {
    a.Keys - b.Keys
  }

  /** `git diff --diff-filter=A a b`. */
  function Added(a: Tree, b: Tree): set<string> {
    b.Keys - a.Keys
  }

  function ShapeVerdict(lim: Limits, pre: Tree, base: Option<Tree>, branch: Tree, result: Tree, ins: nat, rem: nat): Verdict {
    if base.None? then NoMergeBase
    else
      var deleted := Deleted(pre, result);
      var neverSeen := deleted * Added(base.value, pre);
      var unattributed := deleted - Deleted(base.value, branch);
      if neverSeen != {} then NeverSeen(neverSeen)
      else if unattributed != {} then Unattributed(unattributed)
      else if TooSmall(lim, |pre|, |result|) then Shrunk(|pre| - |result|)
      else if ins - rem < -lim.maxNetLines then NetNegative(ins - rem)
      else Accepted
  }

  predicate TooSmall(lim: Limits, before: nat, after: nat) {
    before >= lim.floorFiles && after as real < before as real * (1.0 - lim.maxRatio)
  }

  /** A result is accepted exactly when every mainline path it drops was in the merge base and deleted
      by the branch, and it is not too small. */
  lemma AcceptedIff(lim: Limits, pre: Tree, base: Option<Tree>, branch: Tree, result: Tree, ins: nat, rem: nat)
    ensures ShapeVerdict(lim, pre, base, branch, result, ins, rem).Accepted? <==>
      && base.Some?
      && (forall p :: p in pre && p !in result ==> p in base.value && p !in branch)
      && !TooSmall(lim, |pre|, |result|) && ins - rem >= -lim.maxNetLines
  {
    hide TooSmall;
    if base.Some? { DeletionChecks(pre, base.value, branch, result); }
  }

  /** The tree is too small when it is not small before and loses more than the ratio of its files. */
  lemma TooSmallIff(lim: Limits, before: nat, after: nat)
    ensures TooSmall(lim, before, after) <==>
      before >= lim.floorFiles && after as real < before as real * (1.0 - lim.maxRatio)
  {
  }

  /** The paths a result drops that the merge base does not have, and those that the branch did not delete. */
  function Invented(pre: Tree, base: Tree, result: Tree): set<string> {
    set p | p in pre && p !in result && p !in base
  }

  function Undeleted(pre: Tree, base: Tree, branch: Tree, result: Tree): set<string> {
    set p | p in pre && p !in result && !(p in base && p !in branch)
  }

  lemma CheckedPaths(pre: Tree, base: Tree, branch: Tree, result: Tree)
    ensures Deleted(pre, result) * Added(base, pre) == Invented(pre, base, result)
    ensures Deleted(pre, result) - Deleted(base, branch) == Undeleted(pre, base, branch, result)
  {
  }

  /** The verdict is the first of these that applies, with what it names. */
  lemma VerdictIs(lim: Limits, pre: Tree, base: Option<Tree>, branch: Tree, result: Tree, ins: nat, rem: nat)
    ensures var v := ShapeVerdict(lim, pre, base, branch, result, ins, rem);
      if base.None? then v == NoMergeBase
      else
        var invented, undeleted := Invented(pre, base.value, result), Undeleted(pre, base.value, branch, result);
        && (v.NeverSeen? <==> invented != {}) && (v.NeverSeen? ==> v.paths == invented)
        && (v.Unattributed? <==> invented == {} && undeleted != {}) && (v.Unattributed? ==> v.paths == undeleted)
        && (v.Shrunk? || v.NetNegative? || v.Accepted? ==> undeleted == {})
        && (v.Shrunk? ==> v.removed == |pre| - |result|) && (v.NetNegative? ==> v.net == ins - rem < -lim.maxNetLines)
  {
    hide Deleted, Added, TooSmall, Invented, Undeleted;
    if base.Some? { CheckedPaths(pre, base.value, branch, result); }
  }

  /** What the two deletion checks say path by path. */
  lemma DeletionChecks(pre: Tree, base: Tree, branch: Tree, result: Tree)
    ensures Deleted(pre, result) * Added(base, pre) == {} <==>
      forall p :: p in pre && p !in result ==> p in base
    ensures Deleted(pre, result) - Deleted(base, branch) == {} <==>
      forall p :: p in pre && p !in result ==> p in base && p !in branch
  {
    var neverSeen, unattributed := Deleted(pre, result) * Added(base, pre), Deleted(pre, result) - Deleted(base, branch);
    assert forall p :: p in neverSeen <==> p in pre && p !in result && p !in base;
    assert forall p :: p in unattributed <==> p in pre && p !in result && !(p in base && p !in branch);
    assert neverSeen == {} <==> forall p :: p !in neverSeen;
    assert unattributed == {} <==> forall p :: p !in unattributed;
  }

  /** The first check asks nothing the second does not: a path the branch has never seen is also one
      the branch did not delete. */
  lemma NeverSeenIsUnattributed(lim: Limits, pre: Tree, base: Tree, branch: Tree, result: Tree, ins: nat, rem: nat)
    requires ShapeVerdict(lim, pre, Some(base), branch, result, ins, rem).NeverSeen?
    ensures ShapeVerdict(lim, pre, Some(base), branch, result, ins, rem).paths
         <= Deleted(pre, result) - Deleted(base, branch)
  {
  }

  // ----- what an honest merge looks like -----

  function At(t: Tree, p: string): Option<int> {
    if p in t then Some(t[p]) else None
  }

  /** Neither side changed the path, or one did, or both alike. */
  predicate Clean(base: Tree, ours: Tree, theirs: Tree, p: string) {
    At(ours, p) == At(base, p) || At(theirs, p) == At(base, p) || At(ours, p) == At(theirs, p)
  }

  /** What a three-way merge puts at a path that does not conflict. */
  function ThreeWay(base: Tree, ours: Tree, theirs: Tree, p: string): Option<int>
    requires Clean(base, ours, theirs, p)
  {
    if At(ours, p) == At(base, p) then At(theirs, p) else At(ours, p)
  }

  /** A three-way merge in which a conflicting path is written with some content, whatever the
      strategy that chose it. */
  ghost predicate Resolves(base: Tree, ours: Tree, theirs: Tree, result: Tree) {
    forall p {:trigger p in result} ::
      if Clean(base, ours, theirs, p) then At(result, p) == ThreeWay(base, ours, theirs, p)
      else p in result
  }

  /** No such merge trips a deletion check, and what it deletes from mainline is exactly what the
      branch deleted of the files mainline had left alone. */
  lemma HonestMergeIsAttributed(lim: Limits, base: Tree, ours: Tree, theirs: Tree, result: Tree, ins: nat, rem: nat)
    requires Resolves(base, ours, theirs, result)
    ensures var v := ShapeVerdict(lim, ours, Some(base), theirs, result, ins, rem);
      !v.NeverSeen? && !v.Unattributed?
    ensures Deleted(ours, result)
         == set p | p in Deleted(base, theirs) && p in ours && ours[p] == base[p]
  {
    hide Resolves, ShapeVerdict;
    WhatIsDeleted(base, ours, theirs, result);
    forall p | p in ours && p !in result ensures p in base && p !in theirs {
      HonestAt(base, ours, theirs, result, p);
    }
    DeletionChecks(ours, base, theirs, result);
    NoCheckTrips(lim, base, ours, theirs, result, ins, rem);
  }

  lemma NoCheckTrips(lim: Limits, base: Tree, ours: Tree, theirs: Tree, result: Tree, ins: nat, rem: nat)
    requires Deleted(ours, result) * Added(base, ours) == {} == Deleted(ours, result) - Deleted(base, theirs)
    ensures var v := ShapeVerdict(lim, ours, Some(base), theirs, result, ins, rem);
      !v.NeverSeen? && !v.Unattributed?
  {
    hide Deleted, Added, TooSmall;
  }

  lemma WhatIsDeleted(base: Tree, ours: Tree, theirs: Tree, result: Tree)
    requires Resolves(base, ours, theirs, result)
    ensures Deleted(ours, result)
         == set p | p in Deleted(base, theirs) && p in ours && ours[p] == base[p]
  {
    hide Resolves;
    forall p ensures p in Deleted(ours, result) <==> p in Deleted(base, theirs) && p in ours && ours[p] == base[p] {
      HonestAt(base, ours, theirs, result, p);
    }
  }

  lemma HonestAt(base: Tree, ours: Tree, theirs: Tree, result: Tree, p: string)
    requires Resolves(base, ours, theirs, result)
    ensures p in ours && p !in result <==> p in base && p !in theirs && p in ours && ours[p] == base[p]
  {
    assert p in result || p !in result;
  }
}
