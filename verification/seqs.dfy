/** Generic operations on sequences that the monitor's passes are built
    from: mapping, filtering and flattening, each defined by a left fold
    so that `push` order is kept. */
module Seqs {

  /** `f` applied to every element, in order. */
  function Map<T, U>(s: seq<T>, f: T -> U): (r: seq<U>)
    ensures |r| == |s|
  {
    if |s| == 0 then [] else Map(s[..|s| - 1], f) + [f(s[|s| - 1])]
  }

  lemma {:induction false} MapAt<T, U>(s: seq<T>, f: T -> U, i: nat)
    requires i < |s|
    ensures Map(s, f)[i] == f(s[i])
  {
    if i < |s| - 1 {
      MapAt(s[..|s| - 1], f, i);
    }
  }

  /** The values `Map` gives are exactly the images of the elements. */
  lemma {:induction false} MapMembers<T, U>(s: seq<T>, f: T -> U, y: U)
    ensures y in Map(s, f) <==> exists x :: x in s && y == f(x)
  {
    if |s| > 0 {
      var front := s[..|s| - 1];
      MapMembers(front, f, y);
      assert forall x :: x in front ==> x in s;
      assert s == front + [s[|s| - 1]];
    }
  }

  lemma {:induction false} MapAppend<T, U>(a: seq<T>, b: seq<T>, f: T -> U)
    ensures Map(a + b, f) == Map(a, f) + Map(b, f)
    decreases |b|
  {
    if |b| == 0 {
      assert a + b == a;
    } else {
      var b' := b[..|b| - 1];
      assert (a + b)[..|a + b| - 1] == a + b';
      assert (a + b)[|a + b| - 1] == b[|b| - 1];
      MapAppend(a, b', f);
    }
  }

  /** The elements that satisfy `p`, in order. */
  function Filter<T>(s: seq<T>, p: T -> bool): (r: seq<T>)
    ensures |r| <= |s|
  {
    if |s| == 0 then []
    else Filter(s[..|s| - 1], p) + (if p(s[|s| - 1]) then [s[|s| - 1]] else [])
  }

  /** Filtering two sequences one after the other is filtering their
      concatenation. */
  lemma {:induction false} FilterAppend<T>(a: seq<T>, b: seq<T>, p: T -> bool)
    ensures Filter(a + b, p) == Filter(a, p) + Filter(b, p)
    decreases |b|
  {
    if |b| == 0 {
      assert a + b == a;
    } else {
      var b' := b[..|b| - 1];
      assert (a + b)[..|a + b| - 1] == a + b';
      assert (a + b)[|a + b| - 1] == b[|b| - 1];
      FilterAppend(a, b', p);
    }
  }

  lemma FilterOne<T>(x: T, p: T -> bool)
    ensures Filter([x], p) == if p(x) then [x] else []
  {
    assert [x][..0] == [];
  }

  /** Where the kept elements stand in the original: the positions of the
      elements that satisfy `p`, in increasing order. */
  function Picks<T>(s: seq<T>, p: T -> bool): (idx: seq<nat>)
    ensures forall j :: 0 <= j < |idx| ==> idx[j] < |s|
  {
    if |s| == 0 then []
    else Picks(s[..|s| - 1], p) + (if p(s[|s| - 1]) then [|s| - 1] else [])
  }

  /** The j-th kept element is the element at the j-th picked position. */
  lemma {:induction false} FilterAtPicks<T>(s: seq<T>, p: T -> bool)
    ensures var idx := Picks(s, p);
            && |idx| == |Filter(s, p)|
            && forall j :: 0 <= j < |idx| ==> Filter(s, p)[j] == s[idx[j]]
  {
    if |s| > 0 {
      var front := s[..|s| - 1];
      FilterAtPicks(front, p);
      assert forall j :: 0 <= j < |Picks(front, p)| ==> s[Picks(front, p)[j]] == front[Picks(front, p)[j]];
    }
  }

  /** The picked positions increase, and a position is picked exactly when
      its element satisfies `p`. */
  lemma {:induction false} PicksExact<T>(s: seq<T>, p: T -> bool)
    ensures var idx := Picks(s, p);
            && (forall j, k :: 0 <= j < k < |idx| ==> idx[j] < idx[k])
            && (forall i :: 0 <= i < |s| ==> (p(s[i]) <==> i in idx))
  {
    if |s| > 0 {
      var n := |s| - 1;
      var front := s[..n];
      PicksExact(front, p);
      var idx := Picks(s, p);
      forall i | 0 <= i < |s| ensures p(s[i]) <==> i in idx {
        if i < n {
          assert front[i] == s[i];
          assert (i in Picks(front, p)) <==> i in idx;
        }
      }
    }
  }

  /** `Filter` keeps a subsequence: the j-th kept element is the element at
      the j-th picked position, the picked positions increase, and a
      position is picked exactly when its element satisfies `p`. */
  lemma FilterPicks<T>(s: seq<T>, p: T -> bool)
    ensures var idx := Picks(s, p);
            && |idx| == |Filter(s, p)|
            && (forall j :: 0 <= j < |idx| ==> Filter(s, p)[j] == s[idx[j]])
            && (forall j, k :: 0 <= j < k < |idx| ==> idx[j] < idx[k])
            && (forall i :: 0 <= i < |s| ==> (p(s[i]) <==> i in idx))
  {
    FilterAtPicks(s, p);
    PicksExact(s, p);
  }

  /** An element is kept exactly when it occurs and satisfies `p`. */
  lemma {:induction false} FilterMembers<T>(s: seq<T>, p: T -> bool, x: T)
    ensures x in Filter(s, p) <==> x in s && p(x)
  {
    if |s| > 0 {
      FilterMembers(s[..|s| - 1], p, x);
      assert s == s[..|s| - 1] + [s[|s| - 1]];
    }
  }

  /** The sequences `f` gives for the elements, one after the other. */
  function Flatten<T, U>(s: seq<T>, f: T -> seq<U>): seq<U> {
    if |s| == 0 then [] else Flatten(s[..|s| - 1], f) + f(s[|s| - 1])
  }

  lemma {:induction false} FlattenAppend<T, U>(a: seq<T>, b: seq<T>, f: T -> seq<U>)
    ensures Flatten(a + b, f) == Flatten(a, f) + Flatten(b, f)
    decreases |b|
  {
    if |b| == 0 {
      assert a + b == a;
    } else {
      var b' := b[..|b| - 1];
      assert (a + b)[..|a + b| - 1] == a + b';
      assert (a + b)[|a + b| - 1] == b[|b| - 1];
      FlattenAppend(a, b', f);
    }
  }

  /** A sequence is what stands before, at and after any of its positions. */
  lemma Around<T>(s: seq<T>, i: nat)
    requires i < |s|
    ensures s == s[..i] + [s[i]] + s[i + 1..]
  {
  }
}
