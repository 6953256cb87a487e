/**
 Which branches of a family repeat work that another branch holds.  A branch is called a duplicate or
 subsumed on blob evidence only, because such branches may be closed.
 */
module BranchFamilies {
  import opened Text
  import opened Sorting

  /** A path and the blob it has. */
  type Blob = (string, string)

  /** For every branch, the blobs of its diff with the lines it adds. */
  type BranchMap = map<string, map<Blob, nat>>

  datatype Class = Duplicate(leader: string) | Subsumed(container: string) | Distinct

  function BlobsOf(m: BranchMap, b: string): map<Blob, nat> {
    if b in m then m[b] else map[]
  }

  function Size(m: BranchMap, b: string): nat {
    |BlobsOf(m, b)|
  }

  /** The tip commit, "" if it is not known. */
  function TipOf(tips: map<string, string>, b: string): string {
    if b in tips then tips[b] else ""
  }

  /** The sort key `(-len(blobs), name)`. */
  predicate Before(m: BranchMap, a: string, b: string) {
    Size(m, a) > Size(m, b) || (Size(m, a) == Size(m, b) && Less(a, b))
  }

  function Order(m: BranchMap, names: seq<string>): seq<string> {
    Sort((a: string, b: string) => Before(m, a, b), names)
  }

  /** Largest first. */
  predicate BySize(m: BranchMap, s: seq<string>) {
    forall i, j :: 0 <= i < j < |s| ==> Size(m, s[i]) >= Size(m, s[j])
  }

  lemma OrderShape(m: BranchMap, names: seq<string>)
    ensures BySize(m, Order(m, names)) && |Order(m, names)| == |names|
    ensures forall b :: b in Order(m, names) <==> b in names
    ensures NoRepeats(names) ==> NoRepeats(Order(m, names))
  {
    var lt := (a: string, b: string) => Before(m, a, b);
    forall a: string { LessIsStrictTotal(a, a); }
    forall a: string, b: string, c: string | lt(a, b) && lt(b, c) ensures lt(a, c) {
      if Size(m, a) == Size(m, c) { LessTransitive(a, b, c); }
    }
    forall a: string, b: string, c: string | lt(a, c) ensures lt(a, b) || lt(b, c) {
      LessIsStrictTotal(a, b);
      LessIsStrictTotal(b, c);
    }
    SortSorted(lt, names);
    SortPermutes(lt, names);
    if NoRepeats(names) { PermutationKeepsNoRepeats(names, Order(m, names)); }
  }

  lemma PermutationKeepsNoRepeats(s: seq<string>, t: seq<string>)
    requires NoRepeats(s) && multiset(s) == multiset(t)
    ensures NoRepeats(t)
  {
    forall i, j | 0 <= i < j < |t| ensures t[i] != t[j] {
      Occurrences(s, t[i]);
      Twice(t, i, j);
    }
  }

  lemma Twice(t: seq<string>, i: nat, j: nat)
    requires i < j < |t|
    ensures t[i] == t[j] ==> multiset(t)[t[i]] >= 2
  {
    assert t == t[..i] + [t[i]] + t[i + 1..j] + [t[j]] + t[j + 1..];
  }

  lemma {:induction false} Occurrences(s: seq<string>, b: string)
    requires NoRepeats(s)
    ensures multiset(s)[b] <= 1
  {
    if s != [] {
      Occurrences(s[1..], b);
      assert s == [s[0]] + s[1..];
      assert s[0] !in s[1..];
    }
  }

  // ----- what the classification means -----

  /** A branch before it has the same tip. */
  predicate IsDuplicate(order: seq<string>, tips: map<string, string>, i: nat)
    requires i < |order|
  {
    TipOf(tips, order[i]) != "" && exists j :: 0 <= j < i && TipOf(tips, order[j]) == TipOf(tips, order[i])
  }

  /** The tip is known and a branch before it has it too. */
  lemma DuplicateIff(order: seq<string>, tips: map<string, string>, i: nat)
    requires i < |order|
    ensures IsDuplicate(order, tips, i) <==>
      && order[i] in tips && tips[order[i]] != ""
      && exists j :: 0 <= j < i && order[j] in tips && tips[order[j]] == tips[order[i]]
  {
  }

  /** Branch `j` is no duplicate, is larger, and holds all the blobs of branch `i`. */
  predicate Contains(m: BranchMap, order: seq<string>, tips: map<string, string>, j: nat, i: nat)
    requires i < |order| && j < |order|
  {
    && !IsDuplicate(order, tips, j) && Size(m, order[j]) > Size(m, order[i])
    && BlobsOf(m, order[i]) != map[] && BlobsOf(m, order[i]).Keys <= BlobsOf(m, order[j]).Keys
  }

  /** The class says no more than the evidence, and names the first branch that is evidence. */
  predicate IsClass(m: BranchMap, order: seq<string>, tips: map<string, string>, i: nat, c: Class)
    requires i < |order|
  {
    match c
    case Duplicate(leader) =>
      exists j :: 0 <= j < i && order[j] == leader && TipOf(tips, leader) == TipOf(tips, order[i]) != ""
        && !IsDuplicate(order, tips, j)
    case Subsumed(container) =>
      !IsDuplicate(order, tips, i)
      && exists j :: (0 <= j < |order| && order[j] == container && Contains(m, order, tips, j, i)
                      && forall k :: 0 <= k < j ==> !Contains(m, order, tips, k, i))
    case Distinct =>
      !IsDuplicate(order, tips, i) && forall j :: 0 <= j < |order| ==> !Contains(m, order, tips, j, i)
  }

  /** The branches before `i` have their classes. */
  ghost predicate Classified(m: BranchMap, order: seq<string>, tips: map<string, string>, i: nat, result: map<string, Class>)
    requires i <= |order|
  {
    && (forall b :: b in result <==> b in order[..i])
    && (forall j :: 0 <= j < i ==> IsClass(m, order, tips, j, result[order[j]]))
  }

  /** The first larger branch, no duplicate, that holds all blobs of branch `i`. */
  method FindContainer(m: BranchMap, order: seq<string>, tips: map<string, string>, i: nat, result: map<string, Class>)
    returns (container: Option<string>)
    requires i < |order| && NoRepeats(order) && BySize(m, order) && Classified(m, order, tips, i, result)
    requires !IsDuplicate(order, tips, i)
    ensures IsClass(m, order, tips, i, if container.Some? then Subsumed(container.value) else Distinct)
  {
    hide IsClass, Classified, IsDuplicate, Less;
    var b := order[i];
    var mine := BlobsOf(m, b).Keys;
    for k := 0 to |order|
      invariant forall j :: 0 <= j < k ==> !Contains(m, order, tips, j, i)
    {
      var other := order[k];
      if other == b {
        assert k == i;
        continue;
      }
      if other in result && result[other].Duplicate? {
        ClassOfEarlier(m, order, tips, i, result, k);
        continue;
      }
      if Size(m, other) <= |mine| {
        continue;
      }
      assert k < i;
      EarlierIsClassified(m, order, tips, i, result, k);
      ClassOfEarlier(m, order, tips, i, result, k);
      if mine != {} && mine <= BlobsOf(m, other).Keys {
        assert Contains(m, order, tips, k, i);
        FirstContainer(m, order, tips, i, k);
        return Some(other);
      }
    }
    NoContainer(m, order, tips, i);
    return None;
  }

  lemma FirstContainer(m: BranchMap, order: seq<string>, tips: map<string, string>, i: nat, k: nat)
    requires i < |order| && !IsDuplicate(order, tips, i) && k < |order| && Contains(m, order, tips, k, i)
    requires forall j :: 0 <= j < k ==> !Contains(m, order, tips, j, i)
    ensures IsClass(m, order, tips, i, Subsumed(order[k]))
  {
    hide Contains, IsDuplicate;
  }

  lemma NoContainer(m: BranchMap, order: seq<string>, tips: map<string, string>, i: nat)
    requires i < |order| && !IsDuplicate(order, tips, i)
    requires forall j :: 0 <= j < |order| ==> !Contains(m, order, tips, j, i)
    ensures IsClass(m, order, tips, i, Distinct)
  {
    hide Contains, IsDuplicate;
  }

  lemma EarlierIsClassified(
      m: BranchMap, order: seq<string>, tips: map<string, string>, i: nat, result: map<string, Class>, k: nat)
    requires k < i < |order| && Classified(m, order, tips, i, result)
    ensures order[k] in result
  {
    assert order[..i][k] == order[k];
  }

  lemma ClassOfEarlier(m: BranchMap, order: seq<string>, tips: map<string, string>, i: nat, result: map<string, Class>, k: nat)
    requires i < |order| && NoRepeats(order) && Classified(m, order, tips, i, result)
    requires k < |order| && order[k] in result
    ensures k < i && (result[order[k]].Duplicate? <==> IsDuplicate(order, tips, k))
  {
    var j :| 0 <= j < i && order[..i][j] == order[k];
    assert j == k;
  }

  /** For every tip seen, the first branch that has it. */
  ghost predicate Seen(order: seq<string>, tips: map<string, string>, i: nat, seenTips: map<string, string>)
    requires i <= |order|
  {
    && (forall t :: t in seenTips ==> t != "")
    && (forall t :: t in seenTips ==>
          exists j :: 0 <= j < i && order[j] == seenTips[t] && TipOf(tips, order[j]) == t && !IsDuplicate(order, tips, j))
    && (forall j :: 0 <= j < i && TipOf(tips, order[j]) != "" ==> TipOf(tips, order[j]) in seenTips)
  }

  lemma ClassifiedNext(m: BranchMap, order: seq<string>, tips: map<string, string>, i: nat, result: map<string, Class>, c: Class)
    requires i < |order| && NoRepeats(order) && Classified(m, order, tips, i, result) && IsClass(m, order, tips, i, c)
    ensures Classified(m, order, tips, i + 1, result[order[i] := c])
  {
    hide IsClass;
    assert order[..i + 1] == order[..i] + [order[i]];
    assert forall j :: 0 <= j < i ==> order[j] != order[i];
  }

  method Classify(m: BranchMap, names: seq<string>, tips: map<string, string>) returns (result: map<string, Class>)
    requires NoRepeats(names)
    ensures forall b :: b in result <==> b in names
    ensures var order := Order(m, names);
      forall i :: 0 <= i < |order| ==> order[i] in result && IsClass(m, order, tips, i, result[order[i]])
  {
    hide Order, IsClass;
    var branches := Order(m, names);
    OrderShape(m, names);
    result := map[];
    var seenTips: map<string, string> := map[];
    for i := 0 to |branches|
      invariant Classified(m, branches, tips, i, result) && Seen(branches, tips, i, seenTips)
    {
      var b := branches[i];
      var t := TipOf(tips, b);
      TipSeen(m, branches, tips, i, seenTips);
      if t != "" && t in seenTips {
        ClassifiedNext(m, branches, tips, i, result, Duplicate(seenTips[t]));
        result := result[b := Duplicate(seenTips[t])];
        continue;
      }
      if t != "" {
        seenTips := seenTips[t := b];
      }
      var container := FindContainer(m, branches, tips, i, result);
      var c := if container.Some? then Subsumed(container.value) else Distinct;
      ClassifiedNext(m, branches, tips, i, result, c);
      result := result[b := c];
    }
    assert branches[..|branches|] == branches;
  }

  lemma TipSeen(m: BranchMap, order: seq<string>, tips: map<string, string>, i: nat, seenTips: map<string, string>)
    requires i < |order| && Seen(order, tips, i, seenTips)
    ensures var t := TipOf(tips, order[i]);
      if t != "" && t in seenTips then
        IsClass(m, order, tips, i, Duplicate(seenTips[t])) && Seen(order, tips, i + 1, seenTips)
      else
        !IsDuplicate(order, tips, i) && Seen(order, tips, i + 1, if t != "" then seenTips[t := order[i]] else seenTips)
  {
  }

  // ----- closing is safe -----

  /** Every branch but a distinct one points to an earlier one; the pointers of a branch that is no
      duplicate go to larger and larger branches and end in a distinct one that holds all its blobs. */
  lemma {:induction false} SubsumedEndsInDistinct(
      m: BranchMap, order: seq<string>, tips: map<string, string>, result: seq<Class>, i: nat) returns (d: nat)
    requires |result| == |order| && i < |order| && BySize(m, order)
    requires forall j :: 0 <= j < |order| ==> IsClass(m, order, tips, j, result[j])
    requires !result[i].Duplicate?
    ensures d <= i && result[d].Distinct? && BlobsOf(m, order[i]).Keys <= BlobsOf(m, order[d]).Keys
    ensures result[i].Subsumed? ==> Size(m, order[d]) > Size(m, order[i])
    decreases i
  {
    if result[i].Distinct? {
      d := i;
    } else {
      var j :| 0 <= j < |order| && order[j] == result[i].container && Contains(m, order, tips, j, i);
      assert j < i && IsClass(m, order, tips, j, result[j]);
      d := SubsumedEndsInDistinct(m, order, tips, result, j);
    }
  }

  /** Branches with the same tip commit have the same diff. */
  ghost predicate TipsDecide(m: BranchMap, order: seq<string>, tips: map<string, string>) {
    forall i, j :: 0 <= i < |order| && 0 <= j < |order| && TipOf(tips, order[i]) == TipOf(tips, order[j]) != ""
      ==> BlobsOf(m, order[i]) == BlobsOf(m, order[j])
  }

  /** A blob is held by a branch of this list. */
  ghost predicate Holds(m: BranchMap, order: seq<string>, result: seq<Class>, distinctOnly: bool, blob: Blob)
    requires |result| == |order|
  {
    exists i :: 0 <= i < |order| && (distinctOnly ==> result[i].Distinct?) && order[i] in m && blob in m[order[i]]
  }

  /** All duplicates and all subsumed branches can be closed at once: the distinct ones hold every blob. */
  lemma ClosingIsSafe(m: BranchMap, order: seq<string>, tips: map<string, string>, result: seq<Class>, blob: Blob)
    requires |result| == |order| && BySize(m, order) && TipsDecide(m, order, tips)
    requires forall j :: 0 <= j < |order| ==> IsClass(m, order, tips, j, result[j])
    ensures Holds(m, order, result, true, blob) <==> Holds(m, order, result, false, blob)
  {
    if Holds(m, order, result, false, blob) {
      var i :| 0 <= i < |order| && order[i] in m && blob in m[order[i]];
      var j := i;
      if result[i].Duplicate? {
        j :| 0 <= j < i && order[j] == result[i].leader && TipOf(tips, order[j]) == TipOf(tips, order[i]) != ""
             && !IsDuplicate(order, tips, j);
        assert IsClass(m, order, tips, j, result[j]);
      }
      var d := SubsumedEndsInDistinct(m, order, tips, result, j);
      assert blob in BlobsOf(m, order[d]);
    }
  }

  // ----- what a distinct branch carries -----

  /** The other branches that are no duplicates. */
  predicate Sibling(order: seq<string>, tips: map<string, string>, j: int, i: nat)
    requires i < |order|
  {
    0 <= j < |order| && j != i && !IsDuplicate(order, tips, j)
  }

  /** The branch carries a blob that no sibling has. */
  ghost predicate Owns(m: BranchMap, order: seq<string>, tips: map<string, string>, i: nat)
    requires i < |order|
  {
    exists blob :: blob in BlobsOf(m, order[i]) && forall j :: Sibling(order, tips, j, i) ==> blob !in BlobsOf(m, order[j])
  }

  ghost predicate HeldBySibling(m: BranchMap, order: seq<string>, tips: map<string, string>, i: nat, blob: Blob)
    requires i < |order|
  {
    exists j :: Sibling(order, tips, j, i) && blob in BlobsOf(m, order[j])
  }

  /** Between them the siblings hold every blob of the branch. */
  ghost predicate Covered(m: BranchMap, order: seq<string>, tips: map<string, string>, i: nat)
    requires i < |order|
  {
    forall blob :: blob in BlobsOf(m, order[i]) ==> HeldBySibling(m, order, tips, i, blob)
  }

  lemma CoveredIff(m: BranchMap, order: seq<string>, tips: map<string, string>, i: nat)
    requires i < |order|
    ensures Covered(m, order, tips, i) <==> !Owns(m, order, tips, i)
  {
  }

  lemma ContainerIsSibling(m: BranchMap, order: seq<string>, tips: map<string, string>, j: nat, i: nat)
    requires i < |order| && j < |order| && Contains(m, order, tips, j, i)
    ensures Sibling(order, tips, j, i)
  {
  }

  /** A branch with a blob of its own is always found distinct. */
  lemma OwnerIsDistinct(m: BranchMap, order: seq<string>, tips: map<string, string>, i: nat)
    requires i < |order| && !IsDuplicate(order, tips, i) && Owns(m, order, tips, i)
    ensures IsClass(m, order, tips, i, Distinct)
  {
    forall j | 0 <= j < |order| ensures !Contains(m, order, tips, j, i) {
      if Contains(m, order, tips, j, i) { ContainerIsSibling(m, order, tips, j, i); }
    }
  }

  /** A branch has the same blobs as another one. */
  predicate Twins(m: BranchMap, a: string, b: string) {
    BlobsOf(m, a).Keys == BlobsOf(m, b).Keys
  }

  /** What the class does give: every single sibling lacks a blob of a distinct branch, exactly when the
      branch changes anything and none of them is its twin. */
  lemma DistinctDiffersIff(m: BranchMap, order: seq<string>, tips: map<string, string>, i: nat)
    requires i < |order| && IsClass(m, order, tips, i, Distinct)
    ensures (forall j :: Sibling(order, tips, j, i) ==> !(BlobsOf(m, order[i]).Keys <= BlobsOf(m, order[j]).Keys)) <==>
      forall j :: Sibling(order, tips, j, i) ==> BlobsOf(m, order[i]) != map[] && !Twins(m, order[j], order[i])
  {
    hide IsDuplicate;
    if BlobsOf(m, order[i]) != map[] {
      forall j | Sibling(order, tips, j, i)
        ensures BlobsOf(m, order[i]).Keys <= BlobsOf(m, order[j]).Keys ==> Twins(m, order[j], order[i])
      {
        assert !Contains(m, order, tips, j, i);
        if BlobsOf(m, order[i]).Keys <= BlobsOf(m, order[j]).Keys {
          SubsetOfSameSize(BlobsOf(m, order[i]).Keys, BlobsOf(m, order[j]).Keys);
        }
      }
    }
  }

  ghost predicate Shares(m: BranchMap, a: string, b: string) {
    exists blob :: blob in BlobsOf(m, a) && blob in BlobsOf(m, b)
  }

  ghost predicate Lacks(m: BranchMap, a: string, b: string) {
    exists blob :: blob in BlobsOf(m, b) && blob !in BlobsOf(m, a)
  }

  /** The sibling has some but not all blobs of the branch. */
  ghost predicate HoldsPart(m: BranchMap, order: seq<string>, tips: map<string, string>, j: int, i: nat)
    requires i < |order|
  {
    Sibling(order, tips, j, i) && Shares(m, order[j], order[i]) && Lacks(m, order[j], order[i])
  }

  ghost predicate HeldAmong(m: BranchMap, order: seq<string>, js: set<int>, blob: Blob) {
    exists j :: j in js && 0 <= j < |order| && blob in BlobsOf(m, order[j])
  }

  /** At least two siblings, each with a part of the branch, that between them hold all of it. */
  ghost predicate JointCover(m: BranchMap, order: seq<string>, tips: map<string, string>, i: nat, js: set<int>)
    requires i < |order|
  {
    && |js| >= 2 && (forall j :: j in js ==> HoldsPart(m, order, tips, j, i))
    && (forall blob :: blob in BlobsOf(m, order[i]) ==> HeldAmong(m, order, js, blob))
  }

  /** The reason given for the class, a blob that no sibling has, fails for a distinct branch exactly when it
      changes nothing, a sibling is its twin, or several siblings that each hold only a part of it hold all of
      it between them. */
  lemma DistinctOwnsNothingIff(m: BranchMap, order: seq<string>, tips: map<string, string>, i: nat)
    requires i < |order| && IsClass(m, order, tips, i, Distinct)
    ensures !Owns(m, order, tips, i) <==>
      || BlobsOf(m, order[i]) == map[]
      || (exists j :: Sibling(order, tips, j, i) && Twins(m, order[j], order[i]))
      || (exists js: set<int> :: JointCover(m, order, tips, i, js))
  {
    hide IsClass, Owns, JointCover, Twins, Covered, IsDuplicate;
    CoveredIff(m, order, tips, i);
    if BlobsOf(m, order[i]) == map[] {
      NothingIsCovered(m, order, tips, i);
    } else if exists j :: Sibling(order, tips, j, i) && Twins(m, order[j], order[i]) {
      var j :| Sibling(order, tips, j, i) && Twins(m, order[j], order[i]);
      TwinCovers(m, order, tips, i, j);
    } else {
      if Covered(m, order, tips, i) {
        NoneHoldsAll(m, order, tips, i);
        var js := PartsCover(m, order, tips, i);
      }
      forall js: set<int> | JointCover(m, order, tips, i, js) ensures Covered(m, order, tips, i) {
        JointCoverCovers(m, order, tips, i, js);
      }
    }
  }

  lemma NothingIsCovered(m: BranchMap, order: seq<string>, tips: map<string, string>, i: nat)
    requires i < |order| && BlobsOf(m, order[i]) == map[]
    ensures Covered(m, order, tips, i)
  {
  }

  lemma TwinCovers(m: BranchMap, order: seq<string>, tips: map<string, string>, i: nat, j: int)
    requires i < |order| && Sibling(order, tips, j, i) && Twins(m, order[j], order[i])
    ensures Covered(m, order, tips, i)
  {
    forall blob | blob in BlobsOf(m, order[i]) ensures HeldBySibling(m, order, tips, i, blob) {
      assert blob in BlobsOf(m, order[i]).Keys;
    }
  }

  lemma NoneHoldsAll(m: BranchMap, order: seq<string>, tips: map<string, string>, i: nat)
    requires i < |order| && IsClass(m, order, tips, i, Distinct) && BlobsOf(m, order[i]) != map[]
    requires !exists j :: Sibling(order, tips, j, i) && Twins(m, order[j], order[i])
    ensures forall j :: Sibling(order, tips, j, i) ==> Lacks(m, order[j], order[i])
  {
    DistinctDiffersIff(m, order, tips, i);
    hide IsClass, Twins, Lacks, IsDuplicate;
    forall j | Sibling(order, tips, j, i) ensures Lacks(m, order[j], order[i]) {
      assert !(BlobsOf(m, order[i]).Keys <= BlobsOf(m, order[j]).Keys);
      LacksIff(m, order[j], order[i]);
    }
  }

  lemma LacksIff(m: BranchMap, a: string, b: string)
    ensures Lacks(m, a, b) <==> !(BlobsOf(m, b).Keys <= BlobsOf(m, a).Keys)
  {
    hide BlobsOf;
    if !(BlobsOf(m, b).Keys <= BlobsOf(m, a).Keys) {
      var blob :| blob in BlobsOf(m, b).Keys && blob !in BlobsOf(m, a).Keys;
    }
  }

  lemma JointCoverCovers(m: BranchMap, order: seq<string>, tips: map<string, string>, i: nat, js: set<int>)
    requires i < |order| && JointCover(m, order, tips, i, js)
    ensures Covered(m, order, tips, i)
  {
    hide BlobsOf, IsDuplicate, Shares, Lacks, HeldBySibling, HeldAmong;
    forall blob | blob in BlobsOf(m, order[i]) ensures HeldBySibling(m, order, tips, i, blob) {
      var j := HolderAmong(m, order, js, blob);
      assert HoldsPart(m, order, tips, j, i);
      HeldBy(m, order, tips, i, j, blob);
    }
  }

  lemma HolderAmong(m: BranchMap, order: seq<string>, js: set<int>, blob: Blob) returns (j: int)
    requires HeldAmong(m, order, js, blob)
    ensures j in js && 0 <= j < |order| && blob in BlobsOf(m, order[j])
  {
    j :| j in js && 0 <= j < |order| && blob in BlobsOf(m, order[j]);
  }

  lemma HeldBy(m: BranchMap, order: seq<string>, tips: map<string, string>, i: nat, j: int, blob: Blob)
    requires i < |order| && Sibling(order, tips, j, i) && blob in BlobsOf(m, order[j])
    ensures HeldBySibling(m, order, tips, i, blob)
  {
  }

  /** Of a covered branch that no sibling holds alone, the siblings that share a blob with it are a joint cover. */
  lemma PartsCover(m: BranchMap, order: seq<string>, tips: map<string, string>, i: nat) returns (js: set<int>)
    requires i < |order| && Covered(m, order, tips, i) && BlobsOf(m, order[i]) != map[]
    requires forall j :: Sibling(order, tips, j, i) ==> Lacks(m, order[j], order[i])
    ensures JointCover(m, order, tips, i, js)
  {
    hide IsDuplicate, BlobsOf, HeldBySibling, HeldAmong, Shares, Lacks;
    js := set j | 0 <= j < |order| && HoldsPart(m, order, tips, j, i);
    forall blob | blob in BlobsOf(m, order[i]) ensures HeldAmong(m, order, js, blob) {
      var j := PartHolder(m, order, tips, i, blob);
      AmongOne(m, order, js, j, blob);
    }
    var blob :| blob in BlobsOf(m, order[i]);
    var j := HolderAmong(m, order, js, blob);
    var other := Lacked(m, order[j], order[i]);
    var k := HolderAmong(m, order, js, other);
    TwoMembers(js, j, k);
  }

  lemma Lacked(m: BranchMap, a: string, b: string) returns (blob: Blob)
    requires Lacks(m, a, b)
    ensures blob in BlobsOf(m, b) && blob !in BlobsOf(m, a)
  {
    blob :| blob in BlobsOf(m, b) && blob !in BlobsOf(m, a);
  }

  lemma AmongOne(m: BranchMap, order: seq<string>, js: set<int>, j: int, blob: Blob)
    requires j in js && 0 <= j < |order| && blob in BlobsOf(m, order[j])
    ensures HeldAmong(m, order, js, blob)
  {
  }

  lemma PartHolder(m: BranchMap, order: seq<string>, tips: map<string, string>, i: nat, blob: Blob) returns (j: int)
    requires i < |order| && HeldBySibling(m, order, tips, i, blob) && blob in BlobsOf(m, order[i])
    requires forall j :: Sibling(order, tips, j, i) ==> Lacks(m, order[j], order[i])
    ensures 0 <= j < |order| && HoldsPart(m, order, tips, j, i) && blob in BlobsOf(m, order[j])
  {
    hide IsDuplicate, Lacks;
    j :| Sibling(order, tips, j, i) && blob in BlobsOf(m, order[j]);
  }

  lemma TwoMembers<T>(s: set<T>, a: T, b: T)
    requires a in s && b in s && a != b
    ensures |s| >= 2
  {
    assert s == {a, b} + (s - {a, b});
    assert |s| == |{a, b}| + |s - {a, b}|;
  }

  lemma SubsetOfSameSize<T>(a: set<T>, b: set<T>)
    requires a <= b && |b| <= |a|
    ensures a == b
  {
    assert |b| == |a| + |b - a| by { assert b == a + (b - a); }
  }

  /** Twins share their class and neither has a blob of its own. */
  lemma TwinsAreAlike(m: BranchMap, order: seq<string>, tips: map<string, string>, i: nat, j: nat)
    requires i < |order| && Sibling(order, tips, j, i) && !IsDuplicate(order, tips, i) && Twins(m, order[i], order[j])
    ensures IsClass(m, order, tips, i, Distinct) <==> IsClass(m, order, tips, j, Distinct)
    ensures !Owns(m, order, tips, i) && !Owns(m, order, tips, j)
  {
    hide IsDuplicate;
    assert BlobsOf(m, order[i]) == map[] <==> BlobsOf(m, order[j]) == map[] by {
      assert BlobsOf(m, order[i]).Keys == {} <==> BlobsOf(m, order[i]) == map[];
      assert BlobsOf(m, order[j]).Keys == {} <==> BlobsOf(m, order[j]) == map[];
    }
    assert |BlobsOf(m, order[i]).Keys| == |BlobsOf(m, order[j]).Keys|;
    assert forall k :: 0 <= k < |order| ==> (Contains(m, order, tips, k, i) <==> Contains(m, order, tips, k, j));
  }

  /** A branch without changes that is no duplicate is distinct, and has no blob at all. */
  lemma EmptyIsDistinct(m: BranchMap, order: seq<string>, tips: map<string, string>, i: nat)
    requires i < |order| && !IsDuplicate(order, tips, i) && BlobsOf(m, order[i]) == map[]
    ensures IsClass(m, order, tips, i, Distinct) && !Owns(m, order, tips, i)
  {
  }

  /** A branch that no sibling exceeds is distinct also when two siblings hold all its blobs between them,
      neither of them all: pairwise evidence never shows that no sibling has a blob. */
  lemma JointlyCoveredIsDistinct(m: BranchMap, order: seq<string>, tips: map<string, string>, i: nat, j: nat, k: nat)
    requires i < |order| && !IsDuplicate(order, tips, i) && Sibling(order, tips, j, i) && Sibling(order, tips, k, i)
    requires BlobsOf(m, order[i]).Keys <= BlobsOf(m, order[j]).Keys + BlobsOf(m, order[k]).Keys
    requires forall l :: Sibling(order, tips, l, i) ==> Size(m, order[l]) <= Size(m, order[i])
    ensures IsClass(m, order, tips, i, Distinct) && !Owns(m, order, tips, i)
  {
    hide IsDuplicate;
    forall blob | blob in BlobsOf(m, order[i]) ensures blob in BlobsOf(m, order[j]) || blob in BlobsOf(m, order[k]) {
      assert blob in BlobsOf(m, order[i]).Keys;
    }
    CoveredIff(m, order, tips, i);
  }

  /** For one, two branches with the same blobs and different tips. */
  lemma TwinsAreBothDistinct(blob: Blob)
    ensures var m: BranchMap := map["a" := map[blob := 1], "b" := map[blob := 1]];
      var tips := map["a" := "1", "b" := "2"];
      IsClass(m, ["a", "b"], tips, 0, Distinct) && IsClass(m, ["a", "b"], tips, 1, Distinct)
  {
    var m: BranchMap := map["a" := map[blob := 1], "b" := map[blob := 1]];
    assert Size(m, "a") == Size(m, "b");
  }

  // ----- the totals -----

  ghost function Sum(u: map<Blob, nat>): nat {
    if u == map[] then 0
    else
      var k :| k in u;
      u[k] + Sum(u - {k})
  }

  lemma {:induction false} SumPull(u: map<Blob, nat>, k: Blob)
    requires k in u
    ensures Sum(u) == u[k] + Sum(u - {k})
    decreases |u|
  {
    var c :| c in u && Sum(u) == u[c] + Sum(u - {c});
    if c != k {
      SumPull(u - {c}, k);
      SumPull(u - {k}, c);
      assert (u - {c}) - {k} == (u - {k}) - {c};
    }
  }

  /** Updating counts what both maps hold once. */
  lemma {:induction false} SumUpdate(u: map<Blob, nat>, v: map<Blob, nat>)
    ensures Sum(u + v) <= Sum(u) + Sum(v)
    ensures u.Keys !! v.Keys ==> Sum(u + v) == Sum(u) + Sum(v)
    decreases |v|
  {
    hide Sum;
    if v == map[] {
      assert u + v == u;
      SumEmpty();
    } else {
      var k :| k in v;
      var rest := v - {k};
      SumUpdate(u, rest);
      SumPull(v, k);
      UpdateLast(u, v, k);
      SumAdd(u + rest, k, v[k]);
    }
  }

  lemma UpdateLast(u: map<Blob, nat>, v: map<Blob, nat>, k: Blob)
    requires k in v
    ensures u + v == (u + (v - {k}))[k := v[k]]
  {
  }

  lemma SumSet(u: map<Blob, nat>, k: Blob, x: nat)
    ensures Sum(u[k := x]) == Sum(u - {k}) + x
  {
    SumPull(u[k := x], k);
    assert u[k := x] - {k} == u - {k};
  }

  lemma SumAdd(u: map<Blob, nat>, k: Blob, x: nat)
    ensures Sum(u[k := x]) <= Sum(u) + x && (k !in u ==> Sum(u[k := x]) == Sum(u) + x)
  {
    SumSet(u, k, x);
    SumDrop(u, k);
  }

  lemma SumEmpty()
    ensures Sum(map[]) == 0
  {
  }

  lemma SumDrop(u: map<Blob, nat>, k: Blob)
    ensures Sum(u - {k}) <= Sum(u) && (k !in u ==> u - {k} == u)
  {
    if k in u { SumPull(u, k); } else { assert u - {k} == u; }
  }

  ghost function Naive(m: BranchMap, names: seq<string>): nat {
    if names == [] then 0 else Naive(m, names[..|names| - 1]) + Sum(BlobsOf(m, names[|names| - 1]))
  }

  ghost function Unique(m: BranchMap, names: seq<string>): map<Blob, nat> {
    if names == [] then map[] else Unique(m, names[..|names| - 1]) + BlobsOf(m, names[|names| - 1])
  }

  ghost function Generated(u: map<Blob, nat>, isGenerated: string -> bool): map<Blob, nat> {
    map k | k in u && isGenerated(k.0) :: u[k]
  }

  lemma {:induction false} UniqueKeys(m: BranchMap, names: seq<string>, blob: Blob)
    ensures blob in Unique(m, names) <==> exists i :: 0 <= i < |names| && blob in BlobsOf(m, names[i])
    decreases |names|
  {
    if names != [] { UniqueKeys(m, names[..|names| - 1], blob); }
  }

  /** The recounted and the authored total are not negative, and nothing is recounted when no two
      branches share a blob. */
  lemma {:induction false} TotalsAreSound(m: BranchMap, names: seq<string>, isGenerated: string -> bool)
    ensures Sum(Unique(m, names)) <= Naive(m, names)
    ensures Sum(Generated(Unique(m, names), isGenerated)) <= Sum(Unique(m, names))
    ensures (forall i, j :: 0 <= i < j < |names| ==> BlobsOf(m, names[i]).Keys !! BlobsOf(m, names[j]).Keys)
      ==> Sum(Unique(m, names)) == Naive(m, names)
    decreases |names|
  {
    var u := Unique(m, names);
    var g := Generated(u, isGenerated);
    var rest := u - g.Keys;
    assert g + rest == u && g.Keys !! rest.Keys;
    SumUpdate(g, rest);
    if names != [] {
      var front, last := names[..|names| - 1], BlobsOf(m, names[|names| - 1]);
      TotalsAreSound(m, front, isGenerated);
      SumUpdate(Unique(m, front), last);
      if forall i, j :: 0 <= i < j < |names| ==> BlobsOf(m, names[i]).Keys !! BlobsOf(m, names[j]).Keys {
        forall blob | blob in last ensures blob !in Unique(m, front) {
          UniqueKeys(m, front, blob);
        }
      }
    }
  }
}
