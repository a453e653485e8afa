/**
 * The loop of `CheckModsForUpdates` over the fetched pairs: each pair's
 * label leaves the off-DB list, and the mod goes to the up-to-date list or,
 * with its entry, to the needs-update list.
 */
module Reconcile {
  import opened Wrappers
  import opened ModDb
  import opened Releases
  import opened OffDb

  predicate AllHaveReleases(ps: seq<Fetched>)
  {
    forall i :: 0 <= i < |ps| ==> HasReleases(ps[i].1)
  }

  predicate PairUpToDate(p: Fetched)
  {
    HasReleases(p.1) && IsUpToDate(p.0, p.1)
  }

  /**
   * Classifying one pair against an independent description of the latest
   * release: up to date exactly when the first release, in response order,
   * among the most recently created has the installed version.
   */
  lemma UpToDateIffFirstNewestMatches(m: Mod, e: Entry)
    requires HasReleases(e)
    ensures var rs := e.releases.value;
      IsUpToDate(m, e) <==> rs[FirstNewestIndex(rs)].modVersion == Some(m.version)
  {
    LatestIsFirstNewest(e.releases.value);
  }

  /** The labels of all installed mods, less one per found mod. */
  function NotInDb(allMods: seq<Mod>, fetched: seq<Fetched>): seq<string>
  {
    RemoveEach(Labels(allMods), Labels(ModsOf(fetched)))
  }

  /** The up-to-date pairs, in order. */
  function UpToDatePairs(ps: seq<Fetched>): (r: seq<Fetched>)
    ensures forall p :: p in r ==> p in ps && PairUpToDate(p)
  {
    if ps == [] then []
    else
      var last := ps[|ps| - 1];
      UpToDatePairs(ps[..|ps| - 1]) + (if PairUpToDate(last) then [last] else [])
  }

  /** The pairs that are not up to date, in order. */
  function NeedsUpdates(ps: seq<Fetched>): (r: seq<Fetched>)
    ensures forall p :: p in r ==> p in ps && !PairUpToDate(p)
  {
    if ps == [] then []
    else
      var last := ps[|ps| - 1];
      NeedsUpdates(ps[..|ps| - 1]) + (if PairUpToDate(last) then [] else [last])
  }

  /**
   * Every fetched pair lands in exactly one of the two lists, as often as it
   * was fetched.
   */
  lemma {:induction false} Partition(ps: seq<Fetched>)
    ensures multiset(UpToDatePairs(ps)) + multiset(NeedsUpdates(ps)) == multiset(ps)
    ensures |UpToDatePairs(ps)| + |NeedsUpdates(ps)| == |ps|
    decreases |ps|
  {
    if ps != [] {
      var init, last := ps[..|ps| - 1], ps[|ps| - 1];
      Partition(init);
      assert ps == init + [last];
      if PairUpToDate(last) {
        assert UpToDatePairs(ps) == UpToDatePairs(init) + [last];
        assert NeedsUpdates(ps) == NeedsUpdates(init);
      } else {
        assert UpToDatePairs(ps) == UpToDatePairs(init);
        assert NeedsUpdates(ps) == NeedsUpdates(init) + [last];
      }
    }
  }

  /** Membership in each list, both directions. */
  lemma PartitionMembers(ps: seq<Fetched>, p: Fetched)
    ensures p in UpToDatePairs(ps) <==> p in ps && PairUpToDate(p)
    ensures p in NeedsUpdates(ps) <==> p in ps && !PairUpToDate(p)
  {
    Partition(ps);
    if p in ps {
      assert p in multiset(ps);
    }
  }

  /** What one more turn of the loop adds to each list and removes from
      the off-DB list. */
  lemma OneMore(allMods: seq<Mod>, ps: seq<Fetched>, i: nat)
    requires i < |ps|
    ensures var p, pre, post := ps[i], ps[..i], ps[..i + 1];
      && ModsOf(UpToDatePairs(post))
         == ModsOf(UpToDatePairs(pre)) + (if PairUpToDate(p) then [p.0] else [])
      && NeedsUpdates(post) == NeedsUpdates(pre) + (if PairUpToDate(p) then [] else [p])
      && NotInDb(allMods, post) == RemoveFirst(NotInDb(allMods, pre), Label(p.0))
      && (AllHaveReleases(pre) && HasReleases(p.1) ==> AllHaveReleases(post))
  {
    var pre, p := ps[..i], ps[i];
    assert ps[..i + 1] == pre + [p];
    OneMoreLists(pre, p);
    OneMoreLabels(pre, p);
    OneMoreHaveReleases(pre, p);
  }

  lemma OneMoreHaveReleases(pre: seq<Fetched>, p: Fetched)
    ensures AllHaveReleases(pre) && HasReleases(p.1) ==> AllHaveReleases(pre + [p])
  {
  }

  lemma OneMoreLists(pre: seq<Fetched>, p: Fetched)
    ensures ModsOf(UpToDatePairs(pre + [p]))
         == ModsOf(UpToDatePairs(pre)) + (if PairUpToDate(p) then [p.0] else [])
    ensures NeedsUpdates(pre + [p]) == NeedsUpdates(pre) + (if PairUpToDate(p) then [] else [p])
  {
    assert (pre + [p])[..|pre|] == pre;
    var u := UpToDatePairs(pre);
    if PairUpToDate(p) {
      assert ModsOf(u + [p]) == ModsOf(u) + [p.0];
    }
  }

  lemma OneMoreLabels(pre: seq<Fetched>, p: Fetched)
    ensures Labels(ModsOf(pre + [p])) == Labels(ModsOf(pre)) + [Label(p.0)]
  {
  }

  /** The outcome of the loop when no entry made it throw. */
  datatype Classified = Classified(
    updatedMods: seq<Mod>,
    needsUpdates: seq<Fetched>,
    notInDb: seq<string>)

  /**
   * The loop.  `Releases!` and `.First()` throw on a missing or empty
   * history, which ends the whole run: None.
   */
  method ClassifyFetched(allMods: seq<Mod>, fetched: seq<Fetched>) returns (c: Option<Classified>)
    ensures c.Some? <==> AllHaveReleases(fetched)
    ensures c.Some? ==> c.value.updatedMods == ModsOf(UpToDatePairs(fetched))
    ensures c.Some? ==> c.value.needsUpdates == NeedsUpdates(fetched)
    ensures c.Some? ==> c.value.notInDb == NotInDb(allMods, fetched)
  {
    var needsUpdates: seq<Fetched> := [];
    var updatedMods: seq<Mod> := [];
    var notInDb := Labels(allMods);
    var i := 0;
    while i < |fetched|
      invariant 0 <= i <= |fetched|
      invariant AllHaveReleases(fetched[..i])
      invariant updatedMods == ModsOf(UpToDatePairs(fetched[..i]))
      invariant needsUpdates == NeedsUpdates(fetched[..i])
      invariant notInDb == NotInDb(allMods, fetched[..i])
    {
      var (m, dbEntry) := fetched[i];
      OneMore(allMods, fetched, i);
      notInDb := RemoveFirst(notInDb, Label(m));
      if !HasReleases(dbEntry) {
        return None;
      }
      if IsUpToDate(m, dbEntry) {
        updatedMods := updatedMods + [m];
      } else {
        needsUpdates := needsUpdates + [(m, dbEntry)];
      }
      i := i + 1;
    }
    assert fetched[..i] == fetched;
    c := Some(Classified(updatedMods, needsUpdates, notInDb));
  }
}
