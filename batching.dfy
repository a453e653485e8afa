/**
 * Batches of rendered embeds.  Discord takes at most ten embeds per message,
 * and the checker cuts its output into consecutive runs of at most a fixed
 * number of embeds; `Chunks` and `FullThenRest` are those cuts, independent
 * of the loops that make them.
 */
module Batching {

  /** The batches joined back together, in order. */
  function Flatten<T>(bs: seq<seq<T>>): seq<T>
  {
    if bs == [] then [] else bs[0] + Flatten(bs[1..])
  }

  lemma {:induction false} FlattenAppend<T>(a: seq<seq<T>>, b: seq<seq<T>>)
    ensures Flatten(a + b) == Flatten(a) + Flatten(b)
    decreases |a|
  {
    if a == [] {
      assert a + b == b;
    } else {
      assert (a + b)[1..] == a[1..] + b;
      FlattenAppend(a[1..], b);
    }
  }

  lemma FlattenOne<T>(b: seq<T>)
    ensures Flatten([b]) == b
  {
    assert [b][1..] == [];
  }

  /** Every batch holds at least one and at most `cap` items. */
  predicate BatchesWithin<T>(bs: seq<seq<T>>, cap: nat)
  {
    forall i :: 0 <= i < |bs| ==> 1 <= |bs[i]| <= cap
  }

  /** Every batch holds exactly `cap` items. */
  predicate AllFull<T>(bs: seq<seq<T>>, cap: nat)
  {
    forall i :: 0 <= i < |bs| ==> |bs[i]| == cap
  }

  /**
   * `xs` cut into consecutive batches of `cap` items, the last one shorter
   * when `cap` does not divide `|xs|`; no batch is empty, and joining the
   * batches gives back `xs`.
   */
  function Chunks<T>(xs: seq<T>, cap: nat): seq<seq<T>>
    requires cap > 0
    decreases |xs|
  {
    if xs == [] then []
    else if |xs| <= cap then [xs]
    else [xs[..cap]] + Chunks(xs[cap..], cap)
  }

  lemma {:induction false} ChunksShape<T>(xs: seq<T>, cap: nat)
    requires cap > 0
    ensures var bs := Chunks(xs, cap);
      && Flatten(bs) == xs
      && BatchesWithin(bs, cap)
      && (forall i :: 0 <= i < |bs| - 1 ==> |bs[i]| == cap)
      && (bs == [] <==> xs == [])
    decreases |xs|
  {
    if xs == [] {
    } else if |xs| <= cap {
      FlattenOne(xs);
    } else {
      var head, rest := xs[..cap], Chunks(xs[cap..], cap);
      ChunksShape(xs[cap..], cap);
      var bs := [head] + rest;
      assert bs[1..] == rest;
      assert Flatten(bs) == head + Flatten(rest);
      assert xs == head + xs[cap..];
    }
  }

  /**
   * Full batches followed by a short remainder are exactly how `Chunks` cuts
   * their concatenation.
   */
  lemma {:induction false} ChunksOfFull<T>(bs: seq<seq<T>>, rest: seq<T>, cap: nat)
    requires cap > 0 && AllFull(bs, cap) && |rest| <= cap
    ensures Chunks(Flatten(bs) + rest, cap) == bs + (if rest == [] then [] else [rest])
    decreases |bs|
  {
    if bs == [] {
      assert Flatten(bs) + rest == rest;
    } else {
      var xs := Flatten(bs) + rest;
      assert xs == bs[0] + (Flatten(bs[1..]) + rest);
      ChunksOfFull(bs[1..], rest, cap);
      if |bs| > 1 {
        FlattenLength(bs[1..], cap);
      }
      if |xs| == cap {
        assert bs[1..] == [] && rest == [];
      } else {
        assert xs[..cap] == bs[0];
        assert xs[cap..] == Flatten(bs[1..]) + rest;
      }
    }
  }

  lemma {:induction false} FlattenLength<T>(bs: seq<seq<T>>, cap: nat)
    requires bs != [] && cap > 0 && AllFull(bs, cap)
    ensures |Flatten(bs)| >= cap
  {
  }

  /**
   * The send attempts of an emitter that seals a batch whenever it reaches
   * `cap` items and then sends once more, unconditionally, at the end: the
   * full batches, then whatever is left, which may be nothing.
   */
  function FullThenRest<T>(xs: seq<T>, cap: nat): seq<seq<T>>
    requires cap > 0
    decreases |xs|
  {
    if |xs| < cap then [xs] else [xs[..cap]] + FullThenRest(xs[cap..], cap)
  }

  /** Joining the attempts gives back `xs`; all are full but the last, which
      is short and possibly empty. */
  lemma {:induction false} FullThenRestShape<T>(xs: seq<T>, cap: nat)
    requires cap > 0
    ensures var bs := FullThenRest(xs, cap);
      && |bs| > 0 && Flatten(bs) == xs
      && AllFull(bs[..|bs| - 1], cap)
      && |bs[|bs| - 1]| < cap
    decreases |xs|
  {
    if |xs| < cap {
      FlattenOne(xs);
    } else {
      var head, rest := xs[..cap], FullThenRest(xs[cap..], cap);
      FullThenRestShape(xs[cap..], cap);
      var bs := [head] + rest;
      assert bs[1..] == rest;
      assert Flatten(bs) == head + Flatten(rest);
      assert xs == head + xs[cap..];
      assert bs[..|bs| - 1] == [head] + rest[..|rest| - 1];
    }
  }

  /** Full batches followed by a short remainder are how `FullThenRest` cuts
      their concatenation. */
  lemma {:induction false} FullThenRestOfFull<T>(bs: seq<seq<T>>, rest: seq<T>, cap: nat)
    requires cap > 0 && AllFull(bs, cap) && |rest| < cap
    ensures FullThenRest(Flatten(bs) + rest, cap) == bs + [rest]
    decreases |bs|
  {
    if bs == [] {
      assert Flatten(bs) + rest == rest;
    } else {
      var head, tail := bs[0], Flatten(bs[1..]) + rest;
      var xs := Flatten(bs) + rest;
      assert FullThenRest(tail, cap) == bs[1..] + [rest] by {
        assert AllFull(bs[1..], cap);
        FullThenRestOfFull(bs[1..], rest, cap);
      }
      assert |head| == cap && xs[..cap] == head && xs[cap..] == tail by {
        assert xs == head + tail;
        SplitAt(head, tail);
      }
      UnfoldFullThenRest(xs, cap);
      assert FullThenRest(xs, cap) == [head] + (bs[1..] + [rest]);
      ConsSnoc(bs, rest);
    }
  }

  /** Full batches at the front of the input are the first attempts. */
  lemma {:induction false} FullThenRestAfterFull<T>(bs: seq<seq<T>>, rest: seq<T>, cap: nat)
    requires cap > 0 && AllFull(bs, cap)
    ensures FullThenRest(Flatten(bs) + rest, cap) == bs + FullThenRest(rest, cap)
    decreases |bs|
  {
    if bs == [] {
      assert Flatten(bs) + rest == rest;
    } else {
      var head, tail := bs[0], Flatten(bs[1..]) + rest;
      var xs := Flatten(bs) + rest;
      assert FullThenRest(tail, cap) == bs[1..] + FullThenRest(rest, cap) by {
        assert AllFull(bs[1..], cap);
        FullThenRestAfterFull(bs[1..], rest, cap);
      }
      assert |head| == cap && xs[..cap] == head && xs[cap..] == tail by {
        assert xs == head + tail;
        SplitAt(head, tail);
      }
      UnfoldFullThenRest(xs, cap);
      assert bs == [head] + bs[1..];
    }
  }

  lemma ConsSnoc<T>(bs: seq<seq<T>>, rest: seq<T>)
    requires bs != []
    ensures [bs[0]] + (bs[1..] + [rest]) == bs + [rest]
  {
  }

  lemma SplitAt<T>(a: seq<T>, b: seq<T>)
    ensures (a + b)[..|a|] == a && (a + b)[|a|..] == b
  {
  }

  lemma UnfoldFullThenRest<T>(xs: seq<T>, cap: nat)
    requires 0 < cap <= |xs|
    ensures FullThenRest(xs, cap) == [xs[..cap]] + FullThenRest(xs[cap..], cap)
  {
  }
}
