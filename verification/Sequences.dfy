/** Option and result values, counting, reordering and stable sorting of sequences. */
module Sequences {

  datatype Option<+T> = None | Some(value: T)

  datatype Result<+T, +E> = Ok(value: T) | Err(error: E)

  /** Sequences with the same entries: the head of one can be taken out of the other. */
  lemma PairHead<T>(a: seq<T>, b: seq<T>) returns (j: nat)
    requires a != [] && multiset(a) == multiset(b)
    ensures j < |b| && b[j] == a[0]
    ensures multiset(a[1..]) == multiset(b[..j] + b[j + 1..])
  {
    assert a[0] in multiset(a);
    assert a[0] in b;
    j :| 0 <= j < |b| && b[j] == a[0];
    TakeHead(a);
    TakeOut(b, j);
  }

  lemma TakeHead<T>(s: seq<T>)
    requires s != []
    ensures multiset(s[1..]) == multiset(s) - multiset{s[0]}
  {
    assert s == [s[0]] + s[1..];
  }

  lemma TakeOut<T>(s: seq<T>, j: nat)
    requires j < |s|
    ensures multiset(s[..j] + s[j + 1..]) == multiset(s) - multiset{s[j]}
  {
    assert s == s[..j] + ([s[j]] + s[j + 1..]);
  }

  lemma SameMembers<T>(a: seq<T>, b: seq<T>)
    requires multiset(a) == multiset(b)
    ensures |a| == |b| && forall x :: x in a <==> x in b
  {
    assert |multiset(a)| == |multiset(b)|;
    forall x ensures x in a <==> x in b {
      assert x in multiset(a) <==> x in multiset(b);
    }
  }

  // ---------- counting

  /** The number of entries of `s` that satisfy `p`. */
  function Count<T>(s: seq<T>, p: T -> bool): (c: nat)
    ensures c <= |s|
  {
    if s == [] then 0 else (if p(s[0]) then 1 else 0) + Count(s[1..], p)
  }

  lemma {:induction false} CountAppend<T>(a: seq<T>, b: seq<T>, p: T -> bool)
    ensures Count(a + b, p) == Count(a, p) + Count(b, p)
  {
    if a == [] {
      assert a + b == b;
    } else {
      assert (a + b)[1..] == a[1..] + b;
      CountAppend(a[1..], b, p);
    }
  }

  lemma CountNext<T>(s: seq<T>, k: nat, p: T -> bool)
    requires 0 < k <= |s|
    ensures Count(s[..k], p) == Count(s[..k - 1], p) + (if p(s[k - 1]) then 1 else 0)
  {
    assert s[..k] == s[..k - 1] + [s[k - 1]];
    CountAppend(s[..k - 1], [s[k - 1]], p);
  }

  lemma CountMiddle<T>(s: seq<T>, a: nat, b: nat, p: T -> bool)
    requires a <= b <= |s|
    ensures Count(s, p) == Count(s[..a], p) + Count(s[a..b], p) + Count(s[b..], p)
  {
    CountSplit(s, b, p);
    CountSplit(s[..b], a, p);
    assert s[..b][..a] == s[..a] && s[..b][a..] == s[a..b];
  }

  lemma CountSplit<T>(s: seq<T>, k: nat, p: T -> bool)
    requires k <= |s|
    ensures Count(s, p) == Count(s[..k], p) + Count(s[k..], p)
  {
    CountAppend(s[..k], s[k..], p);
    TakeAndDrop(s, k);
  }

  lemma TakeAndDrop<T>(s: seq<T>, k: nat)
    requires k <= |s|
    ensures s[..k] + s[k..] == s
  {
  }

  /** Entrywise, `p` on `a` implies `q` on `b`. */
  lemma {:induction false} CountMono<S, T>(a: seq<S>, p: S -> bool, b: seq<T>, q: T -> bool)
    requires |a| == |b| && forall i :: 0 <= i < |a| && p(a[i]) ==> q(b[i])
    ensures Count(a, p) <= Count(b, q)
  {
    if a != [] {
      assert forall i :: 0 <= i < |a[1..]| ==> a[1..][i] == a[i + 1] && b[1..][i] == b[i + 1];
      CountMono(a[1..], p, b[1..], q);
    }
  }

  lemma {:induction false} CountNone<T>(s: seq<T>, p: T -> bool)
    requires forall i :: 0 <= i < |s| ==> !p(s[i])
    ensures Count(s, p) == 0
  {
    if s != [] {
      assert forall i :: 0 <= i < |s[1..]| ==> s[1..][i] == s[i + 1];
      CountNone(s[1..], p);
    }
  }

  lemma {:induction false} CountAll<T>(s: seq<T>, p: T -> bool)
    requires forall i :: 0 <= i < |s| ==> p(s[i])
    ensures Count(s, p) == |s|
  {
    if s != [] {
      assert forall i :: 0 <= i < |s[1..]| ==> s[1..][i] == s[i + 1];
      CountAll(s[1..], p);
    }
  }

  /** Entrywise, `r` on `a` implies `p` or `q` on `b`. */
  lemma {:induction false} CountOr<S, T>(a: seq<S>, r: S -> bool, b: seq<T>, p: T -> bool, q: T -> bool)
    requires |a| == |b| && forall i :: 0 <= i < |a| && r(a[i]) ==> p(b[i]) || q(b[i])
    ensures Count(a, r) <= Count(b, p) + Count(b, q)
  {
    if a != [] {
      assert forall i :: 0 <= i < |a[1..]| ==> a[1..][i] == a[i + 1] && b[1..][i] == b[i + 1];
      CountOr(a[1..], r, b[1..], p, q);
    }
  }

  /** Counts do not depend on the order of the entries. */
  lemma {:induction false} CountReorder<T>(a: seq<T>, b: seq<T>, p: T -> bool)
    requires multiset(a) == multiset(b)
    ensures Count(a, p) == Count(b, p)
  {
    if a == [] {
      assert b == [];
    } else {
      var x := a[0];
      var j := PairHead(a, b);
      var l, r := b[..j], b[j + 1..];
      assert b == l + ([x] + r);
      CountReorder(a[1..], l + r, p);
      CountAppend(l, [x] + r, p);
      CountAppend(l, r, p);
      assert ([x] + r)[1..] == r;
    }
  }

  // ---------- mapping and reordering

  function Map<S, T>(f: S -> T, s: seq<S>): (t: seq<T>)
    ensures |t| == |s| && forall i :: 0 <= i < |s| ==> t[i] == f(s[i])
  {
    seq(|s|, i requires 0 <= i < |s| => f(s[i]))
  }

  lemma MapNext<S, T>(f: S -> T, s: seq<S>, k: nat)
    requires k < |s|
    ensures Map(f, s[..k + 1]) == Map(f, s[..k]) + [f(s[k])]
  {
  }

  function Indices(n: nat): (s: seq<nat>)
    ensures |s| == n && forall i :: 0 <= i < n ==> s[i] == i
  {
    seq(n, i => i)
  }

  /** `p` lists each of 0, ..., n - 1 exactly once. */
  ghost predicate IsPermutation(p: seq<nat>, n: nat) {
    multiset(p) == multiset(Indices(n))
  }

  /** The entries of `s` in the order given by `p`. */
  function Reorder<T>(s: seq<T>, p: seq<nat>): (t: seq<T>)
    requires forall i :: 0 <= i < |p| ==> p[i] < |s|
    ensures |t| == |p| && forall i :: 0 <= i < |p| ==> t[i] == s[p[i]]
  {
    seq(|p|, i requires 0 <= i < |p| => s[p[i]])
  }

  lemma {:induction false} MapReorder<S, T>(f: S -> T, a: seq<S>, b: seq<S>)
    requires multiset(a) == multiset(b)
    ensures multiset(Map(f, a)) == multiset(Map(f, b))
  {
    if a == [] {
      assert b == [];
    } else {
      var x := a[0];
      var j := PairHead(a, b);
      var l, r := b[..j], b[j + 1..];
      assert b == l + ([x] + r);
      MapReorder(f, a[1..], l + r);
      MapAround(f, l, x, r);
      MapAround(f, [], x, a[1..]);
      assert a == [] + ([x] + a[1..]) && [] + a[1..] == a[1..];
    }
  }

  lemma MapAround<S, T>(f: S -> T, l: seq<S>, x: S, r: seq<S>)
    ensures multiset(Map(f, l + ([x] + r))) == multiset(Map(f, l + r)) + multiset{f(x)}
  {
    var y := [f(x)];
    assert Map(f, l + r) == Map(f, l) + Map(f, r);
    assert Map(f, l + ([x] + r)) == Map(f, l) + (y + Map(f, r));
  }

  lemma PermutationInRange(p: seq<nat>, n: nat)
    requires IsPermutation(p, n)
    ensures |p| == n && forall i :: 0 <= i < |p| ==> p[i] < n
  {
    assert |multiset(p)| == |multiset(Indices(n))|;
    forall i | 0 <= i < |p| ensures p[i] < n {
      assert p[i] in multiset(p);
      assert p[i] in multiset(Indices(n));
    }
  }

  /** Listing the entries in another order keeps the multiset of entries. */
  lemma ReorderKeepsEntries<T>(s: seq<T>, p: seq<nat>)
    requires IsPermutation(p, |s|)
    ensures forall i :: 0 <= i < |p| ==> p[i] < |s|
    ensures multiset(Reorder(s, p)) == multiset(s)
  {
    PermutationInRange(p, |s|);
    if s == [] {
      assert Reorder(s, p) == s;
    } else {
      var f := (i: nat) => if i < |s| then s[i] else s[0];
      MapReorder(f, p, Indices(|s|));
      assert Map(f, p) == Reorder(s, p);
      assert Map(f, Indices(|s|)) == s;
    }
  }

  function Reverse<T>(s: seq<T>): (t: seq<T>)
    ensures |t| == |s| && forall i :: 0 <= i < |s| ==> t[i] == s[|s| - 1 - i]
  {
    seq(|s|, i requires 0 <= i < |s| => s[|s| - 1 - i])
  }

  lemma {:induction false} ReverseKeepsEntries<T>(s: seq<T>)
    ensures multiset(Reverse(s)) == multiset(s)
  {
    if s != [] {
      ReverseKeepsEntries(s[1..]);
      assert Reverse(s) == Reverse(s[1..]) + [s[0]];
      assert s == [s[0]] + s[1..];
    } else {
      assert Reverse(s) == s;
    }
  }

  // ---------- stable sorting by a real key

  function InsertBy<T>(key: T -> real, x: T, s: seq<T>): seq<T> {
    if s == [] || key(x) <= key(s[0]) then [x] + s else [s[0]] + InsertBy(key, x, s[1..])
  }

  /** Ascending by `key`; entries with equal keys keep their order. */
  function SortBy<T>(key: T -> real, s: seq<T>): seq<T> {
    if s == [] then [] else InsertBy(key, s[0], SortBy(key, s[1..]))
  }

  ghost predicate Ascending<T>(key: T -> real, s: seq<T>) {
    forall i, j :: 0 <= i < j < |s| ==> key(s[i]) <= key(s[j])
  }

  lemma {:induction false} InsertByKeeps<T>(key: T -> real, x: T, s: seq<T>)
    ensures multiset(InsertBy(key, x, s)) == multiset(s) + multiset{x}
    ensures |InsertBy(key, x, s)| == |s| + 1
  {
    if s != [] && key(s[0]) < key(x) {
      InsertByKeeps(key, x, s[1..]);
      assert s == [s[0]] + s[1..];
    }
  }

  lemma InsertByMember<T>(key: T -> real, x: T, s: seq<T>, y: T)
    requires y in InsertBy(key, x, s)
    ensures y == x || exists k :: 0 <= k < |s| && s[k] == y
  {
    InsertByKeeps(key, x, s);
    assert y in multiset(InsertBy(key, x, s));
    if y != x {
      assert y in multiset(s);
      assert y in s;
    }
  }

  lemma {:induction false} InsertByAscending<T>(key: T -> real, x: T, s: seq<T>)
    requires Ascending(key, s)
    ensures Ascending(key, InsertBy(key, x, s))
  {
    var t := InsertBy(key, x, s);
    if s != [] && key(s[0]) < key(x) {
      var r := s[1..];
      assert Ascending(key, r) by { assert forall i :: 0 <= i < |r| ==> r[i] == s[i + 1]; }
      InsertByAscending(key, x, r);
      InsertByKeeps(key, x, r);
      forall j | 0 < j < |t| ensures key(s[0]) <= key(t[j]) {
        InsertByMember(key, x, r, InsertBy(key, x, r)[j - 1]);
      }
    } else if s != [] {
      assert forall j :: 0 < j < |t| ==> t[j] == s[j - 1];
    }
  }

  lemma {:induction false} SortByCorrect<T>(key: T -> real, s: seq<T>)
    ensures |SortBy(key, s)| == |s|
    ensures multiset(SortBy(key, s)) == multiset(s)
    ensures Ascending(key, SortBy(key, s))
  {
    if s != [] {
      SortByCorrect(key, s[1..]);
      InsertByKeeps(key, s[0], SortBy(key, s[1..]));
      InsertByAscending(key, s[0], SortBy(key, s[1..]));
      assert s == [s[0]] + s[1..];
    }
  }

  // ---------- sorting reals

  function Identity(x: real): real {
    x
  }

  function Sort(s: seq<real>): seq<real> {
    SortBy(Identity, s)
  }

  ghost predicate IsSorted(s: seq<real>) {
    forall i, j :: 0 <= i < j < |s| ==> s[i] <= s[j]
  }

  lemma SortCorrect(s: seq<real>)
    ensures |Sort(s)| == |s| && multiset(Sort(s)) == multiset(s) && IsSorted(Sort(s))
  {
    SortByCorrect(Identity, s);
    var t := Sort(s);
    forall i, j | 0 <= i < j < |t| ensures t[i] <= t[j] {
      assert Identity(t[i]) <= Identity(t[j]);
    }
  }

  lemma {:induction false} SortedUnique(a: seq<real>, b: seq<real>)
    requires IsSorted(a) && IsSorted(b) && multiset(a) == multiset(b)
    ensures a == b
  {
    if a == [] || b == [] {
      assert a == b;
    } else {
      HeadNotAbove(a, b);
      HeadNotAbove(b, a);
      TailsAgree(a, b);
      TailSorted(a);
      TailSorted(b);
      SortedUnique(a[1..], b[1..]);
      assert a == [a[0]] + a[1..] && b == [b[0]] + b[1..];
    }
  }

  lemma HeadNotAbove(a: seq<real>, b: seq<real>)
    requires a != [] && multiset(a) == multiset(b) && IsSorted(b)
    ensures b != [] && b[0] <= a[0]
  {
    var j := PairHead(a, b);
  }

  lemma TailsAgree<T>(a: seq<T>, b: seq<T>)
    requires a != [] && b != [] && multiset(a) == multiset(b) && a[0] == b[0]
    ensures multiset(a[1..]) == multiset(b[1..])
  {
    TakeHead(a);
    TakeHead(b);
  }

  lemma TailSorted(s: seq<real>)
    requires IsSorted(s) && s != []
    ensures IsSorted(s[1..])
  {
  }
}
