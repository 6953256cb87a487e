/**
 Python's stable `sorted` as a function: insertion sort by a strict weak order, which is what
 comparing sort keys is.  Elements with equal keys keep their order.
 */
module Sorting {

  /** `lt(a, b)`: the key of `a` is smaller than the key of `b`. */
  ghost predicate StrictWeakOrder<T(!new)>(lt: (T, T) -> bool) {
    && (forall a :: !lt(a, a))
    && (forall a, b, c :: lt(a, b) && lt(b, c) ==> lt(a, c))
    && (forall a, b, c :: lt(a, c) ==> lt(a, b) || lt(b, c))
  }

  ghost predicate Sorted<T>(lt: (T, T) -> bool, s: seq<T>) {
    forall i, j :: 0 <= i < j < |s| ==> !lt(s[j], s[i])
  }

  /** Puts `x` in front of the first element that is not smaller. */
  function Insert<T>(lt: (T, T) -> bool, x: T, s: seq<T>): seq<T> {
    if s == [] || !lt(s[0], x) then [x] + s else [s[0]] + Insert(lt, x, s[1..])
  }

  function Sort<T>(lt: (T, T) -> bool, s: seq<T>): seq<T> {
    if s == [] then [] else Insert(lt, s[0], Sort(lt, s[1..]))
  }

  lemma {:induction false} InsertPermutes<T>(lt: (T, T) -> bool, x: T, s: seq<T>)
    ensures multiset(Insert(lt, x, s)) == multiset{x} + multiset(s)
    ensures |Insert(lt, x, s)| == |s| + 1
  {
    if s != [] && lt(s[0], x) {
      InsertPermutes(lt, x, s[1..]);
      assert s == [s[0]] + s[1..];
    }
  }

  lemma {:induction false} SortPermutes<T>(lt: (T, T) -> bool, s: seq<T>)
    ensures multiset(Sort(lt, s)) == multiset(s) && |Sort(lt, s)| == |s|
    ensures forall x :: x in Sort(lt, s) <==> x in s
  {
    if s != [] {
      SortPermutes(lt, s[1..]);
      InsertPermutes(lt, s[0], Sort(lt, s[1..]));
      assert s == [s[0]] + s[1..];
    }
    assert forall x :: x in s <==> x in multiset(s);
    assert forall x :: x in Sort(lt, s) <==> x in multiset(Sort(lt, s));
  }

  /** Where an inserted element lands. */
  lemma {:induction false} InsertAt<T(!new)>(lt: (T, T) -> bool, x: T, s: seq<T>) returns (p: nat)
    ensures p <= |s| && Insert(lt, x, s) == s[..p] + [x] + s[p..]
    ensures forall i :: 0 <= i < p ==> lt(s[i], x)
    ensures p < |s| ==> !lt(s[p], x)
  {
    if s == [] || !lt(s[0], x) {
      p := 0;
      assert s[..0] + [x] + s[0..] == [x] + s;
    } else {
      var t := s[1..];
      var q := InsertAt(lt, x, t);
      p := q + 1;
      InsertedBehind(x, s, q);
      assert forall i :: 0 < i < p ==> s[i] == t[i - 1];
    }
  }

  lemma InsertedBehind<T>(x: T, s: seq<T>, q: nat)
    requires q < |s|
    ensures [s[0]] + (s[1..][..q] + [x] + s[1..][q..]) == s[..q + 1] + [x] + s[q + 1..]
  {
  }

  lemma InsertSorted<T(!new)>(lt: (T, T) -> bool, x: T, s: seq<T>)
    requires StrictWeakOrder(lt) && Sorted(lt, s)
    ensures Sorted(lt, Insert(lt, x, s))
  {
    var p := InsertAt(lt, x, s);
    var r := Insert(lt, x, s);
    forall i, j | 0 <= i < j < |r| ensures !lt(r[j], r[i]) {
      var a, b := if i < p then i else i - 1, if j < p then j else j - 1;
      if i == p {
        assert r[j] == s[b];
        if b > p { assert !lt(s[b], s[p]); }
      } else if j == p {
        assert r[i] == s[i];
      } else {
        assert r[i] == s[a] && r[j] == s[b];
      }
    }
  }

  lemma {:induction false} SortSorted<T(!new)>(lt: (T, T) -> bool, s: seq<T>)
    requires StrictWeakOrder(lt)
    ensures Sorted(lt, Sort(lt, s))
  {
    if s != [] {
      SortSorted(lt, s[1..]);
      InsertSorted(lt, s[0], Sort(lt, s[1..]));
    }
  }

  /** Two elements with different keys can be inserted in either order. */
  lemma {:induction false} InsertCommutes<T(!new)>(lt: (T, T) -> bool, x: T, y: T, s: seq<T>)
    requires StrictWeakOrder(lt) && (lt(x, y) || lt(y, x))
    ensures Insert(lt, x, Insert(lt, y, s)) == Insert(lt, y, Insert(lt, x, s))
  {
    if s == [] || (!lt(s[0], x) && !lt(s[0], y)) {
      InsertFront(lt, x, y, s);
      InsertFront(lt, y, x, s);
    } else if lt(s[0], x) && lt(s[0], y) {
      InsertCommutes(lt, x, y, s[1..]);
      InsertBehind(lt, x, s[0], Insert(lt, y, s[1..]));
      InsertBehind(lt, y, s[0], Insert(lt, x, s[1..]));
    } else if lt(s[0], x) {
      assert lt(y, x);
      InsertBehind(lt, x, y, s);
    } else {
      assert lt(x, y);
      InsertBehind(lt, y, x, s);
    }
  }

  lemma InsertBehind<T>(lt: (T, T) -> bool, x: T, h: T, s: seq<T>)
    requires lt(h, x)
    ensures Insert(lt, x, [h] + s) == [h] + Insert(lt, x, s)
  {
    assert ([h] + s)[1..] == s;
  }

  lemma InsertFront<T(!new)>(lt: (T, T) -> bool, x: T, y: T, s: seq<T>)
    requires StrictWeakOrder(lt) && (lt(x, y) || lt(y, x))
    requires s == [] || (!lt(s[0], x) && !lt(s[0], y))
    ensures Insert(lt, x, Insert(lt, y, s)) == (if lt(y, x) then [y, x] else [x, y]) + s
  {
    assert Insert(lt, y, s) == [y] + s;
    if lt(y, x) {
      InsertBehind(lt, x, y, s);
      assert [y] + ([x] + s) == [y, x] + s;
    } else {
      assert [x] + ([y] + s) == [x, y] + s;
    }
  }

  /** Sorting is sorting the others and inserting one element whose key is unique. */
  lemma {:induction false} SortPull<T(!new)>(lt: (T, T) -> bool, s: seq<T>, i: nat)
    requires StrictWeakOrder(lt) && i < |s|
    requires forall j :: 0 <= j < |s| && j != i ==> lt(s[i], s[j]) || lt(s[j], s[i])
    ensures Sort(lt, s) == Insert(lt, s[i], Sort(lt, s[..i] + s[i + 1..]))
  {
    var rest := s[..i] + s[i + 1..];
    if i == 0 {
      assert rest == s[1..];
    } else {
      SortPull(lt, s[1..], i - 1);
      assert s[1..][..i - 1] + s[1..][i..] == rest[1..];
      InsertCommutes(lt, s[0], s[i], Sort(lt, rest[1..]));
    }
  }
}
