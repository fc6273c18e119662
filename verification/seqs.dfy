/** Sequence helpers standing in for Java stream filters and maps, with the
    order facts the store and the query engine rely on. */
module Seqs {

  /** `a` is an order-preserving subsequence of `b`. */
  ghost predicate IsSubseq<T>(a: seq<T>, b: seq<T>)
    decreases |b|
  {
    |a| == 0 || (|b| > 0 && ((a[0] == b[0] && IsSubseq(a[1..], b[1..])) || IsSubseq(a, b[1..])))
  }

  /** `stream().filter(p)`: the elements satisfying `p`, in their original order. */
  function Keep<T>(xs: seq<T>, p: T -> bool): (r: seq<T>)
    ensures |r| <= |xs|
    ensures forall x :: x in r ==> x in xs && p(x)
    ensures forall x :: x in xs && p(x) ==> x in r
    ensures IsSubseq(r, xs)
  {
    if |xs| == 0 then []
    else if p(xs[0]) then [xs[0]] + Keep(xs[1..], p)
    else Keep(xs[1..], p)
  }

  /** `stream().map(f)`. */
  function Map<A, B>(xs: seq<A>, f: A -> B): (r: seq<B>)
    ensures |r| == |xs|
    ensures forall i :: 0 <= i < |xs| ==> r[i] == f(xs[i])
  {
    if |xs| == 0 then [] else [f(xs[0])] + Map(xs[1..], f)
  }

  lemma SubseqRefl<T>(a: seq<T>)
    ensures IsSubseq(a, a)
    decreases |a|
  {
    if |a| > 0 {
      SubseqRefl(a[1..]);
    }
  }

  lemma SubseqTrans<T>(a: seq<T>, b: seq<T>, c: seq<T>)
    requires IsSubseq(a, b) && IsSubseq(b, c)
    ensures IsSubseq(a, c)
    decreases |c|
  {
    if |a| > 0 {
      if b[0] == c[0] && IsSubseq(b[1..], c[1..]) {
        if a[0] == b[0] && IsSubseq(a[1..], b[1..]) {
          SubseqTrans(a[1..], b[1..], c[1..]);
        } else {
          SubseqTrans(a, b[1..], c[1..]);
        }
      } else {
        SubseqTrans(a, b, c[1..]);
      }
    }
  }

  lemma SubseqMembers<T>(a: seq<T>, b: seq<T>)
    requires IsSubseq(a, b)
    ensures forall x :: x in a ==> x in b
    decreases |b|
  {
    if |a| > 0 {
      assert forall x :: x in a ==> x == a[0] || x in a[1..];
      if a[0] == b[0] && IsSubseq(a[1..], b[1..]) {
        SubseqMembers(a[1..], b[1..]);
      } else {
        SubseqMembers(a, b[1..]);
      }
    }
  }

  lemma KeepAppend<T>(a: seq<T>, b: seq<T>, p: T -> bool)
    ensures Keep(a + b, p) == Keep(a, p) + Keep(b, p)
    decreases |a|
  {
    if |a| > 0 {
      assert (a + b)[1..] == a[1..] + b;
      KeepAppend(a[1..], b, p);
    } else {
      assert a + b == b;
    }
  }

  lemma KeepNone<T>(xs: seq<T>, p: T -> bool)
    requires forall x :: x in xs ==> !p(x)
    ensures Keep(xs, p) == []
  {
  }

  lemma KeepAll<T>(xs: seq<T>, p: T -> bool)
    requires forall x :: x in xs ==> p(x)
    ensures Keep(xs, p) == xs
    decreases |xs|
  {
    if |xs| > 0 {
      KeepAll(xs[1..], p);
    }
  }

  /** A list in which every element satisfying `p` comes before every other
      one is the `p` elements followed by the rest. */
  lemma {:induction false} KeepSplitsPrefix<T>(xs: seq<T>, p: T -> bool, q: T -> bool)
    requires forall x :: x in xs ==> q(x) == !p(x)
    requires forall i, j :: 0 <= i < j < |xs| && !p(xs[i]) ==> !p(xs[j])
    ensures Keep(xs, p) + Keep(xs, q) == xs
    decreases |xs|
  {
    if |xs| > 0 {
      var rest := xs[1..];
      if p(xs[0]) {
        forall i, j | 0 <= i < j < |rest| && !p(rest[i]) ensures !p(rest[j]) {
          assert rest[i] == xs[i + 1] && rest[j] == xs[j + 1];
        }
        KeepSplitsPrefix(rest, p, q);
        assert xs == [xs[0]] + rest;
      } else {
        forall x | x in xs ensures !p(x) && q(x) {
          var k :| 0 <= k < |xs| && xs[k] == x;
          if k > 0 {
            assert !p(xs[k]);
          }
        }
        KeepNone(xs, p);
        KeepAll(xs, q);
      }
    }
  }

  /** Filtering by a weaker predicate first does not change a later, stronger filter. */
  lemma KeepKeep<T>(xs: seq<T>, p: T -> bool, q: T -> bool)
    requires forall x :: x in xs && q(x) ==> p(x)
    ensures Keep(Keep(xs, p), q) == Keep(xs, q)
    decreases |xs|
  {
    if |xs| > 0 {
      KeepKeep(xs[1..], p, q);
    }
  }

  /** Appending elements that all fail `p` does not change the filter. */
  lemma KeepAppendNone<T>(a: seq<T>, b: seq<T>, p: T -> bool)
    requires forall x :: x in b ==> !p(x)
    ensures Keep(a + b, p) == Keep(a, p)
  {
    KeepAppend(a, b, p);
    KeepNone(b, p);
  }

  /** Appending elements that all pass `p` to ones that all fail it filters to the appended part. */
  lemma KeepAppendOnly<T>(a: seq<T>, b: seq<T>, p: T -> bool)
    requires forall x :: x in a ==> !p(x)
    requires forall x :: x in b ==> p(x)
    ensures Keep(a + b, p) == b
  {
    KeepAppend(a, b, p);
    KeepNone(a, p);
    KeepAll(b, p);
  }

  lemma MapMember<A, B>(xs: seq<A>, f: A -> B, x: A)
    requires x in xs
    ensures f(x) in Map(xs, f)
  {
    var k :| 0 <= k < |xs| && xs[k] == x;
    assert Map(xs, f)[k] == f(x);
  }

  lemma MapMemberInverse<A, B>(xs: seq<A>, f: A -> B, y: B)
    requires y in Map(xs, f)
    ensures exists x :: x in xs && f(x) == y
  {
    var k :| 0 <= k < |Map(xs, f)| && Map(xs, f)[k] == y;
    assert xs[k] in xs;
  }

  /** Mapping keeps the subsequence relation. */
  lemma {:induction false} MapSubseq<A, B>(a: seq<A>, b: seq<A>, f: A -> B)
    requires IsSubseq(a, b)
    ensures IsSubseq(Map(a, f), Map(b, f))
    decreases |b|
  {
    if |a| > 0 {
      assert Map(b, f)[1..] == Map(b[1..], f);
      assert Map(a, f)[1..] == Map(a[1..], f);
      if a[0] == b[0] && IsSubseq(a[1..], b[1..]) {
        MapSubseq(a[1..], b[1..], f);
      } else {
        MapSubseq(a, b[1..], f);
      }
    }
  }

  lemma MapAppend<A, B>(a: seq<A>, b: seq<A>, f: A -> B)
    ensures Map(a + b, f) == Map(a, f) + Map(b, f)
  {
  }
}
