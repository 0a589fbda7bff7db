/** SwiftUI's `move(fromOffsets:toOffset:)` on an array, as used by the
    store's `moveHabits`: the elements at the given offsets are taken out,
    keeping their order, and put back as one block in front of the element
    that was at the destination offset. */
module Reorder {

  /** The elements of `s[i..]` whose indices are in `P`, in order. */
  function Pick<T>(s: seq<T>, i: nat, P: set<nat>): (r: seq<T>)
    requires i <= |s|
    ensures |r| <= |s| - i
    decreases |s| - i
  {
    if i == |s| then []
    else (if i in P then [s[i]] else []) + Pick(s, i + 1, P)
  }

  /** Indices before `dest` that are not moved. */
  function Before(offsets: set<nat>, dest: nat): set<nat> {
    set j: nat | j < dest && j !in offsets
  }

  /** Indices at or after `dest`, below `n`, that are not moved. */
  function After(offsets: set<nat>, dest: nat, n: nat): set<nat> {
    set j: nat | dest <= j < n && j !in offsets
  }

  /** Indices below `n` that are not moved. */
  function Unmoved(offsets: set<nat>, n: nat): set<nat> {
    set j: nat | j < n && j !in offsets
  }

  /** True when `j` lies in exactly one of the three sets. */
  predicate InExactlyOne(j: nat, A: set<nat>, B: set<nat>, C: set<nat>) {
    || (j in A && j !in B && j !in C)
    || (j !in A && j in B && j !in C)
    || (j !in A && j !in B && j in C)
  }

  /** Picking by three index sets that split `[i, |s|)` between them keeps
      every element exactly once. */
  lemma {:induction false} PickPartition<T>(s: seq<T>, i: nat, A: set<nat>, B: set<nat>, C: set<nat>)
    requires i <= |s|
    requires forall j :: i <= j < |s| ==> InExactlyOne(j, A, B, C)
    ensures multiset(Pick(s, i, A)) + multiset(Pick(s, i, B)) + multiset(Pick(s, i, C))
            == multiset(s[i..])
    decreases |s| - i
  {
    if i < |s| {
      PickPartition(s, i + 1, A, B, C);
      assert s[i..] == [s[i]] + s[i + 1..];
      assert multiset(s[i..]) == multiset{s[i]} + multiset(s[i + 1..]);
      assert InExactlyOne(i, A, B, C);
      PickStep(s, i, A);
      PickStep(s, i, B);
      PickStep(s, i, C);
    }
  }

  /** One step of `Pick`, on multisets. */
  lemma PickStep<T>(s: seq<T>, i: nat, P: set<nat>)
    requires i < |s|
    ensures multiset(Pick(s, i, P))
            == (if i in P then multiset{s[i]} else multiset{}) + multiset(Pick(s, i + 1, P))
  {
  }

  /** Every index below `n` is unmoved-before, moved, or unmoved-after. */
  lemma MoveSplitsIndices(offsets: set<nat>, dest: nat, n: nat)
    ensures forall j :: 0 <= j < n ==> InExactlyOne(j, Before(offsets, dest), offsets, After(offsets, dest, n))
  {
  }

  /** The elements at `offsets` moved, in order, to sit before position
      `dest` of the original array. SwiftUI traps on an
      offset or a destination outside the array, hence the preconditions. */
  function Move<T>(s: seq<T>, offsets: set<nat>, dest: nat): (r: seq<T>)
    requires forall o :: o in offsets ==> o < |s|
    requires dest <= |s|
    ensures multiset(r) == multiset(s)
    ensures |r| == |s|
    // The moved elements form one block, in their original order, right
    // after the unmoved elements that preceded the destination.
    ensures |Pick(s, 0, Before(offsets, dest))| + |Pick(s, 0, offsets)| <= |r|
    ensures r[|Pick(s, 0, Before(offsets, dest))|..][..|Pick(s, 0, offsets)|] == Pick(s, 0, offsets)
    // Around the block, the unmoved elements keep their original order.
    ensures r[..|Pick(s, 0, Before(offsets, dest))|] + r[|Pick(s, 0, Before(offsets, dest))| + |Pick(s, 0, offsets)|..]
            == Pick(s, 0, Unmoved(offsets, |s|))
  {
    var front, block, back := Pick(s, 0, Before(offsets, dest)), Pick(s, 0, offsets),
                              Pick(s, 0, After(offsets, dest, |s|));
    MoveSplitsIndices(offsets, dest, |s|);
    PickPartition(s, 0, Before(offsets, dest), offsets, After(offsets, dest, |s|));
    assert s[0..] == s;
    Concat3(front, block, back, s);
    PickMerge(s, 0, offsets, dest);
    front + block + back
  }

  /** The unmoved elements before `dest`, followed by those from `dest` on,
      are all the unmoved elements of `s[i..]` in order. */
  lemma {:induction false} PickMerge<T>(s: seq<T>, i: nat, offsets: set<nat>, dest: nat)
    requires i <= |s| && dest <= |s|
    ensures Pick(s, i, Before(offsets, dest)) + Pick(s, i, After(offsets, dest, |s|))
            == Pick(s, i, Unmoved(offsets, |s|))
    decreases |s| - i
  {
    if i < dest {
      PickMerge(s, i + 1, offsets, dest);
      assert i !in After(offsets, dest, |s|);
      assert i in Before(offsets, dest) <==> i in Unmoved(offsets, |s|);
    } else {
      PickNone(s, i, Before(offsets, dest));
      PickAgree(s, i, After(offsets, dest, |s|), Unmoved(offsets, |s|));
    }
  }

  /** Sets that agree on the indices of `s[i..]` pick the same elements. */
  lemma {:induction false} PickAgree<T>(s: seq<T>, i: nat, P: set<nat>, Q: set<nat>)
    requires i <= |s|
    requires forall j :: i <= j < |s| ==> (j in P <==> j in Q)
    ensures Pick(s, i, P) == Pick(s, i, Q)
    decreases |s| - i
  {
    if i < |s| {
      PickAgree(s, i + 1, P, Q);
    }
  }

  /** Three pieces whose multisets add up to `s` concatenate to a permutation
      of `s` in which the middle piece sits after the first. */
  lemma Concat3<T>(front: seq<T>, block: seq<T>, back: seq<T>, s: seq<T>)
    requires multiset(front) + multiset(block) + multiset(back) == multiset(s)
    ensures multiset(front + block + back) == multiset(s)
    ensures |front + block + back| == |s|
    ensures (front + block + back)[|front|..][..|block|] == block
    ensures (front + block + back)[..|front|] + (front + block + back)[|front| + |block|..] == front + back
  {
    var r := front + block + back;
    assert multiset(r) == multiset(front) + multiset(block) + multiset(back);
    assert |r| == |multiset(r)| == |multiset(s)| == |s|;
    assert r[|front|..] == block + back;
    assert r[..|front|] == front;
    assert r[|front| + |block|..] == back;
  }

  /** Moving nothing leaves the array as it was. */
  lemma MoveNothing<T>(s: seq<T>, offsets: set<nat>, dest: nat)
    requires forall o :: o in offsets ==> o < |s|
    requires dest <= |s|
    ensures offsets == {} ==> Move(s, offsets, dest) == s
  {
    if offsets == {} {
      PickEmpty(s, 0);
      PickSplitAt(s, 0, dest);
    }
  }

  lemma {:induction false} PickEmpty<T>(s: seq<T>, i: nat)
    requires i <= |s|
    ensures Pick(s, i, {}) == []
    decreases |s| - i
  {
    if i < |s| {
      PickEmpty(s, i + 1);
    }
  }

  /** With no offsets, the indices below and from `dest` pick the prefix and
      the suffix of `s[i..]`. */
  lemma {:induction false} PickSplitAt<T>(s: seq<T>, i: nat, dest: nat)
    requires i <= |s| && dest <= |s|
    ensures Pick(s, i, Before({}, dest)) + Pick(s, i, After({}, dest, |s|)) == s[i..]
    decreases |s| - i
  {
    if i < dest {
      PickSplitAt(s, i + 1, dest);
      assert s[i..] == [s[i]] + s[i + 1..];
      assert i in Before({}, dest) && i !in After({}, dest, |s|);
    } else {
      PickNone(s, i, Before({}, dest));
      PickAll(s, i, After({}, dest, |s|));
    }
  }

  /** Picking by a set that holds no index of `s[i..]` picks nothing. */
  lemma {:induction false} PickNone<T>(s: seq<T>, i: nat, P: set<nat>)
    requires i <= |s|
    requires forall j :: i <= j < |s| ==> j !in P
    ensures Pick(s, i, P) == []
    decreases |s| - i
  {
    if i < |s| {
      PickNone(s, i + 1, P);
    }
  }

  /** Picking by a set that holds every index of `s[i..]` picks all of it. */
  lemma {:induction false} PickAll<T>(s: seq<T>, i: nat, P: set<nat>)
    requires i <= |s|
    requires forall j :: i <= j < |s| ==> j in P
    ensures Pick(s, i, P) == s[i..]
    decreases |s| - i
  {
    if i < |s| {
      PickAll(s, i + 1, P);
      assert s[i..] == [s[i]] + s[i + 1..];
    }
  }

  /** A permutation has the same members. */
  lemma PermutationSameMembers<T>(a: seq<T>, b: seq<T>)
    requires multiset(a) == multiset(b)
    ensures forall x :: x in a <==> x in b
  {
    forall x ensures x in a <==> x in b {
      assert x in a <==> x in multiset(a);
      assert x in b <==> x in multiset(b);
    }
  }

  /** No two positions of `s` share a key. */
  ghost predicate KeysUnique<T, K>(s: seq<T>, key: T -> K) {
    forall i, j :: 0 <= i < |s| && 0 <= j < |s| && i != j ==> key(s[i]) != key(s[j])
  }

  /** An element that occurs twice sits at two distinct positions. */
  lemma TwiceAtTwoPositions<T>(s: seq<T>, x: T)
    requires multiset(s)[x] >= 2
    ensures exists i, j :: 0 <= i < |s| && 0 <= j < |s| && i != j && s[i] == x && s[j] == x
  {
    assert x in multiset(s);
    var i :| 0 <= i < |s| && s[i] == x;
    assert s == s[..i] + [s[i]] + s[i + 1..];
    assert multiset(s) == multiset(s[..i]) + multiset{x} + multiset(s[i + 1..]);
    var rest := s[..i] + s[i + 1..];
    assert multiset(rest)[x] >= 1;
    assert x in rest;
    var k :| 0 <= k < |rest| && rest[k] == x;
    if k < i {
      assert s[k] == x;
    } else {
      assert s[k + 1] == x;
    }
  }

  /** An element at two distinct positions occurs twice. */
  lemma TwoPositionsTwice<T>(s: seq<T>, i: nat, j: nat)
    requires i < j < |s| && s[i] == s[j]
    ensures multiset(s)[s[i]] >= 2
  {
    assert s == s[..i] + [s[i]] + s[i + 1..j] + [s[j]] + s[j + 1..];
  }

  /** Uniqueness of keys survives a permutation. */
  lemma PermutationKeepsKeysUnique<T, K>(a: seq<T>, b: seq<T>, key: T -> K)
    requires multiset(a) == multiset(b)
    requires KeysUnique(a, key)
    ensures KeysUnique(b, key)
  {
    forall i, j | 0 <= i < j < |b|
      ensures key(b[i]) != key(b[j])
    {
      NoSharedKey(a, b, key, i, j);
    }
  }

  lemma NoSharedKey<T, K>(a: seq<T>, b: seq<T>, key: T -> K, i: nat, j: nat)
    requires multiset(a) == multiset(b)
    requires KeysUnique(a, key)
    requires i < j < |b|
    ensures key(b[i]) != key(b[j])
  {
    assert b[i] in multiset(a) && b[j] in multiset(a);
    var p :| 0 <= p < |a| && a[p] == b[i];
    var q :| 0 <= q < |a| && a[q] == b[j];
    if p == q {
      TwoPositionsTwice(b, i, j);
      TwiceAtTwoPositions(a, b[i]);
      assert false;
    }
  }
}
