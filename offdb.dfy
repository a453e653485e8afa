/**
 * The "Off-DB Mods" list: the labels of all installed mods, minus those the
 * catalog answered for, minus one entry for each of the three reserved mods.
 */
module OffDb {
  import opened Wrappers
  import opened ModDb
  import opened Text

  /** Index of the first occurrence of `x`. */
  function IndexOf(s: seq<string>, x: string): (k: nat)
    requires x in s
    ensures k < |s| && s[k] == x
    ensures forall j :: 0 <= j < k ==> s[j] != x
  {
    if s[0] == x then 0 else 1 + IndexOf(s[1..], x)
  }

  /**
   * `List.Remove(x)`: drops the first occurrence of `x`, and does nothing
   * when there is none.
   */
  function RemoveFirst(s: seq<string>, x: string): seq<string>
  {
    if s == [] then []
    else if s[0] == x then s[1..]
    else [s[0]] + RemoveFirst(s[1..], x)
  }

  /** Without an occurrence nothing changes; otherwise exactly the first one goes. */
  lemma {:induction false} RemoveFirstSlices(s: seq<string>, x: string)
    ensures x !in s ==> RemoveFirst(s, x) == s
    ensures x in s ==> RemoveFirst(s, x) == s[..IndexOf(s, x)] + s[IndexOf(s, x) + 1..]
  {
    if s != [] && s[0] != x {
      var t := s[1..];
      RemoveFirstSlices(t, x);
      assert s == [s[0]] + t;
      if x in s {
        var k := IndexOf(t, x);
        assert IndexOf(s, x) == k + 1;
        assert s[..k + 1] == [s[0]] + t[..k];
        assert s[k + 2..] == t[k + 1..];
      }
    }
  }

  lemma RemoveFirstMultiset(s: seq<string>, x: string)
    ensures multiset(RemoveFirst(s, x)) == multiset(s) - multiset{x}
  {
    RemoveFirstSlices(s, x);
    if x in s {
      var k := IndexOf(s, x);
      MultisetAround(s, k);
    } else {
      assert x !in multiset(s);
    }
  }

  lemma MultisetAround<T>(s: seq<T>, k: nat)
    requires k < |s|
    ensures multiset(s[..k] + s[k + 1..]) == multiset(s) - multiset{s[k]}
  {
    assert s == s[..k] + [s[k]] + s[k + 1..];
    assert multiset(s) == multiset(s[..k] + s[k + 1..]) + multiset{s[k]};
  }

  /** One `Remove` per label of `xs`, in order. */
  function RemoveEach(s: seq<string>, xs: seq<string>): seq<string>
    decreases |xs|
  {
    if xs == [] then s else RemoveFirst(RemoveEach(s, xs[..|xs| - 1]), xs[|xs| - 1])
  }

  /**
   * Removing the labels one by one leaves exactly the multiset difference:
   * a label listed k times and removed j times is left max(0, k - j) times.
   */
  lemma {:induction false} RemoveEachMultiset(s: seq<string>, xs: seq<string>)
    ensures multiset(RemoveEach(s, xs)) == multiset(s) - multiset(xs)
    decreases |xs|
  {
    if xs != [] {
      var init, x := xs[..|xs| - 1], xs[|xs| - 1];
      assert xs == init + [x];
      RemoveEachMultiset(s, init);
      RemoveFirstMultiset(RemoveEach(s, init), x);
      MultisetDifferenceTwice(multiset(s), multiset(init), multiset{x});
    }
  }

  lemma MultisetDifferenceTwice<T>(a: multiset<T>, b: multiset<T>, c: multiset<T>)
    ensures (a - b) - c == a - (b + c)
  {
    forall e ensures ((a - b) - c)[e] == (a - (b + c))[e] {
    }
  }

  /** Index of the first entry starting with `prefix`. */
  function FirstWithPrefix(s: seq<string>, prefix: string): (k: Option<nat>)
    ensures k.Some? ==> k.value < |s| && StartsWith(s[k.value], prefix)
    ensures k.Some? ==> forall j :: 0 <= j < k.value ==> !StartsWith(s[j], prefix)
    ensures k.None? ==> forall j :: 0 <= j < |s| ==> !StartsWith(s[j], prefix)
  {
    if s == [] then None
    else if StartsWith(s[0], prefix) then Some(0)
    else
      match FirstWithPrefix(s[1..], prefix)
      case None => None
      case Some(k) => Some(k + 1)
  }

  /**
   * `s.Remove(s.First(f => f.StartsWith(prefix)))`: drops the first entry
   * starting with `prefix`; `First` throws when there is none (None here).
   */
  function RemoveFirstWithPrefix(s: seq<string>, prefix: string): (r: Option<seq<string>>)
    ensures r.None? <==> forall j :: 0 <= j < |s| ==> !StartsWith(s[j], prefix)
    ensures r.Some? ==>
              exists k :: 0 <= k < |s| && StartsWith(s[k], prefix)
                && (forall j :: 0 <= j < k ==> !StartsWith(s[j], prefix))
                && r.value == s[..k] + s[k + 1..]
  {
    match FirstWithPrefix(s, prefix)
    case None => None
    case Some(k) =>
      // The entry found is the first equal to itself, so Remove drops it.
      assert IndexOf(s, s[k]) == k;
      RemoveFirstSlices(s, s[k]);
      Some(RemoveFirst(s, s[k]))
  }

  /** The removals for "game", "survival" and "creative", in that order. */
  function RemoveReservedPrefixes(s: seq<string>): (r: Option<seq<string>>)
    ensures r.Some? ==> |r.value| == |s| - 3
  {
    match RemoveFirstWithPrefix(s, "game")
    case None => None
    case Some(s1) =>
      match RemoveFirstWithPrefix(s1, "survival")
      case None => None
      case Some(s2) => RemoveFirstWithPrefix(s2, "creative")
  }

  /** Some entry starts with `prefix`. */
  predicate HasPrefixed(s: seq<string>, prefix: string)
  {
    exists j :: 0 <= j < |s| && StartsWith(s[j], prefix)
  }

  /**
   * The three removals go through exactly when the list has an entry for
   * each of the three prefixes, and then they take out one entry per
   * prefix: as the prefixes start with different letters, no removal can
   * take the entry another one needs.
   */
  lemma ReservedRemovalShape(s: seq<string>)
    ensures RemoveReservedPrefixes(s).Some? <==>
              HasPrefixed(s, "game") && HasPrefixed(s, "survival") && HasPrefixed(s, "creative")
    ensures RemoveReservedPrefixes(s).Some? ==>
              exists g, v, c :: StartsWith(g, "game") && StartsWith(v, "survival") && StartsWith(c, "creative")
                && multiset(s) == multiset(RemoveReservedPrefixes(s).value) + multiset{g, v, c}
  {
    if HasPrefixed(s, "game") && HasPrefixed(s, "survival") && HasPrefixed(s, "creative") {
      var r, g, v, c := ReservedRemovalSome(s);
      assert multiset(s) == multiset(RemoveReservedPrefixes(s).value) + multiset{g, v, c};
    } else {
      ReservedRemovalNone(s);
    }
  }

  lemma ReservedRemovalSome(s: seq<string>) returns (r: seq<string>, g: string, v: string, c: string)
    requires HasPrefixed(s, "game") && HasPrefixed(s, "survival") && HasPrefixed(s, "creative")
    ensures RemoveReservedPrefixes(s) == Some(r)
    ensures StartsWith(g, "game") && StartsWith(v, "survival") && StartsWith(c, "creative")
    ensures multiset(s) == multiset(r) + multiset{g, v, c}
  {
    var s1, s2: seq<string>;
    s1, g := RemovePrefixed(s, "game", "survival", "creative");
    s2, v := RemovePrefixed(s1, "survival", "creative", "game");
    r, c := RemovePrefixed(s2, "creative", "game", "survival");
  }

  lemma ReservedRemovalNone(s: seq<string>)
    requires !(HasPrefixed(s, "game") && HasPrefixed(s, "survival") && HasPrefixed(s, "creative"))
    ensures RemoveReservedPrefixes(s).None?
  {
    NoneWithout(s, "game");
    if !HasPrefixed(s, "game") {
      return;
    }
    var s1, g := RemovePrefixed(s, "game", "survival", "creative");
    NoneWithout(s1, "survival");
    if !HasPrefixed(s1, "survival") {
      return;
    }
    var s2, v := RemovePrefixed(s1, "survival", "creative", "game");
    NoneWithout(s2, "creative");
  }

  lemma NoneWithout(s: seq<string>, p: string)
    ensures RemoveFirstWithPrefix(s, p).None? <==> !HasPrefixed(s, p)
  {
  }

  /**
   * With an entry starting with `p`, removing the first such entry leaves
   * `r`: one entry fewer, and the entry taken out, `x`, starts with `p`.
   * Entries starting with `q1` or `q2`, which differ from `p` in their first
   * letter, are there afterwards exactly when they were there before.
   */
  lemma RemovePrefixed(s: seq<string>, p: string, q1: string, q2: string) returns (r: seq<string>, x: string)
    requires HasPrefixed(s, p)
    requires |p| > 0 && |q1| > 0 && |q2| > 0 && p[0] != q1[0] && p[0] != q2[0]
    ensures RemoveFirstWithPrefix(s, p) == Some(r)
    ensures StartsWith(x, p) && multiset(s) == multiset(r) + multiset{x}
    ensures HasPrefixed(r, q1) <==> HasPrefixed(s, q1)
    ensures HasPrefixed(r, q2) <==> HasPrefixed(s, q2)
  {
    var k := FirstWithPrefix(s, p).value;
    x := s[k];
    assert IndexOf(s, x) == k;
    RemoveFirstSlices(s, x);
    r := s[..k] + s[k + 1..];
    MultisetAround(s, k);
    DifferentFirst(x, p, q1);
    DifferentFirst(x, p, q2);
    KeepsOther(s, k, q1);
    KeepsOther(s, k, q2);
  }

  lemma DifferentFirst(x: string, p: string, q: string)
    requires |p| > 0 && |q| > 0 && p[0] != q[0] && StartsWith(x, p)
    ensures !StartsWith(x, q)
  {
    assert x[0] == p[0];
  }

  /** Taking out an entry that does not start with `q` keeps the entries that do. */
  lemma KeepsOther(s: seq<string>, k: nat, q: string)
    requires k < |s| && !StartsWith(s[k], q)
    ensures HasPrefixed(s[..k] + s[k + 1..], q) <==> HasPrefixed(s, q)
  {
    var r := s[..k] + s[k + 1..];
    if HasPrefixed(s, q) {
      var j :| 0 <= j < |s| && StartsWith(s[j], q);
      if j < k {
        assert r[j] == s[j];
      } else {
        assert r[j - 1] == s[j];
      }
    }
    if HasPrefixed(r, q) {
      var j :| 0 <= j < |r| && StartsWith(r[j], q);
      if j < k {
        assert r[j] == s[j];
      } else {
        assert r[j] == s[j + 1];
      }
    }
  }

  /**
   * The prefix test can pick another mod: with a mod whose id starts with
   * "game" (say "gameplaytweaks@1.0") listed before the base game
   * ("game@1.19"), that mod is removed in the base game's place, and the base
   * game's label stays on the off-DB list.
   */
  lemma PrefixRemovalCanMissReserved(other: string, game: string, survival: string, creative: string)
    requires StartsWith(other, "game") && StartsWith(game, "game")
    requires StartsWith(survival, "survival") && StartsWith(creative, "creative")
    requires !StartsWith(other, "survival") && !StartsWith(other, "creative")
    requires !StartsWith(game, "survival") && !StartsWith(game, "creative")
    requires !StartsWith(survival, "creative")
    ensures RemoveReservedPrefixes([other, game, survival, creative]) == Some([game])
  {
    var s0 := [other, game, survival, creative];
    var s1 := [game, survival, creative];
    var s2 := [game, creative];
    RemoveAtHead(s0, "game");
    assert s0[1..] == s1;
    RemoveSecond(s1, "survival");
    assert [s1[0]] + s1[2..] == s2;
    RemoveSecond(s2, "creative");
    assert [s2[0]] + s2[2..] == [game];
  }

  lemma RemoveAtHead(s: seq<string>, prefix: string)
    requires |s| > 0 && StartsWith(s[0], prefix)
    ensures RemoveFirstWithPrefix(s, prefix) == Some(s[1..])
  {
  }

  lemma RemoveSecond(s: seq<string>, prefix: string)
    requires |s| >= 2 && !StartsWith(s[0], prefix) && StartsWith(s[1], prefix)
    ensures RemoveFirstWithPrefix(s, prefix) == Some([s[0]] + s[2..])
  {
    assert FirstWithPrefix(s, prefix) == Some(1) by {
      assert s[1..][0] == s[1];
    }
    assert IndexOf(s, s[1]) == 1;
    assert s[..1] == [s[0]];
  }
}
