/**
 * `CheckModsForUpdates`: classify the found mods, build the summary embed's
 * counts and fields, and send the detail embeds in messages of nine.  The
 * summary message goes out before the detail messages.
 */
module Report {
  import opened Wrappers
  import opened ModDb
  import opened Releases
  import opened Batching
  import opened OffDb
  import opened Rendering
  import opened Summary
  import opened Reconcile
  import opened Emitters
  import opened Fetch

  /** What the summary embed and the detail messages of one run carry. */
  datatype UpdateReport = UpdateReport(
    checkedCount: int,
    upToDateCount: int,
    upToDateField: string,
    offDb: seq<string>,
    needsCount: nat,
    details: seq<seq<DetailEmbed>>)

  lemma NeedsHaveReleases(fetched: seq<Fetched>)
    requires AllHaveReleases(fetched)
    ensures AllHaveReleases(NeedsUpdates(fetched))
  {
    var needs := NeedsUpdates(fetched);
    forall i | 0 <= i < |needs| ensures HasReleases(needs[i].1) {
      assert needs[i] in needs;
      var j :| 0 <= j < |fetched| && fetched[j] == needs[i];
    }
  }

  /**
   * A run ends before anything is sent when a found mod has a missing or
   * empty history, or when the off-DB list has no label starting with one of
   * the reserved prefixes "game", "survival" and "creative"; otherwise the report counts installed mods less
   * three, lists the up-to-date mods and the off-DB labels, and carries one
   * detail embed per mod that needs an update, nine to a message.
   */
  method CheckModsForUpdates(allMods: seq<Mod>, fetched: seq<Fetched>) returns (report: Option<UpdateReport>)
    ensures report.Some? <==>
              && AllHaveReleases(fetched)
              && HasPrefixed(NotInDb(allMods, fetched), "game")
              && HasPrefixed(NotInDb(allMods, fetched), "survival")
              && HasPrefixed(NotInDb(allMods, fetched), "creative")
    ensures report.Some? ==> RemoveReservedPrefixes(NotInDb(allMods, fetched)).Some?
    ensures report.Some? ==> AllHaveReleases(NeedsUpdates(fetched))
    ensures report.Some? ==>
              var r := report.value;
              && r.checkedCount == |allMods| - 3
              && r.offDb == RemoveReservedPrefixes(NotInDb(allMods, fetched)).value
              && r.upToDateField == UpToDateField(ModsOf(UpToDatePairs(fetched)))
              && r.needsCount == |NeedsUpdates(fetched)|
              && r.upToDateCount == |allMods| - |r.offDb| - r.needsCount - 3
              && r.details == Chunks(RenderDetails(NeedsUpdates(fetched)), DetailsPerMessage)
  {
    var classified := ClassifyFetched(allMods, fetched);
    if classified.None? {
      return None;
    }
    var Classified(updatedMods, needsUpdates, notInDb) := classified.value;
    var checkedCount := |allMods| - 3;
    var updatedModsStr := BuildUpToDateField(updatedMods);
    var offDb := RemoveReservedPrefixes(notInDb);
    ReservedRemovalShape(notInDb);
    if offDb.None? {
      return None;
    }
    var upToDateCount := |allMods| - |offDb.value| - |needsUpdates| - 3;
    NeedsHaveReleases(fetched);
    var details := SendDetails(needsUpdates);
    report := Some(UpdateReport(checkedCount, upToDateCount, updatedModsStr, offDb.value, |needsUpdates|, details));
  }

  lemma MultisetDifferenceSize<T>(a: multiset<T>, b: multiset<T>)
    requires b <= a
    ensures |a - b| == |a| - |b|
  {
    assert (a - b) + b == a;
  }

  /**
   * When every found mod is one of the installed mods, the count in the
   * up-to-date field's name is the number of up-to-date mods: installed mods
   * less the three reserved, the off-DB ones and the ones needing an update.
   */
  lemma UpToDateCountMatches(allMods: seq<Mod>, fetched: seq<Fetched>)
    requires multiset(Labels(ModsOf(fetched))) <= multiset(Labels(allMods))
    requires RemoveReservedPrefixes(NotInDb(allMods, fetched)).Some?
    ensures |allMods| - |RemoveReservedPrefixes(NotInDb(allMods, fetched)).value|
              - |NeedsUpdates(fetched)| - 3
            == |UpToDatePairs(fetched)|
  {
    var all, found := Labels(allMods), Labels(ModsOf(fetched));
    RemoveEachMultiset(all, found);
    MultisetDifferenceSize(multiset(all), multiset(found));
    assert |NotInDb(allMods, fetched)| == |allMods| - |fetched|;
    Partition(fetched);
  }

  lemma LabelsAppend(a: seq<Mod>, b: seq<Mod>)
    ensures Labels(a + b) == Labels(a) + Labels(b)
  {
    assert forall i :: 0 <= i < |a + b| ==> Labels(a + b)[i] == (Labels(a) + Labels(b))[i];
  }

  lemma ModsOfAppend(a: seq<Fetched>, b: seq<Fetched>)
    ensures ModsOf(a + b) == ModsOf(a) + ModsOf(b)
  {
    assert forall i :: 0 <= i < |a + b| ==> ModsOf(a + b)[i] == (ModsOf(a) + ModsOf(b))[i];
  }

  lemma SplitLast<T>(xs: seq<T>)
    requires xs != []
    ensures xs == xs[..|xs| - 1] + [xs[|xs| - 1]]
  {
  }

  /** Each lookup adds at most the pair of its own mod. */
  lemma {:induction false} ResultsLabelsWithin(xs: seq<Mod>, respond: string -> Response)
    ensures multiset(Labels(ModsOf(Results(xs, respond)))) <= multiset(Labels(xs))
    decreases |xs|
  {
    if xs != [] {
      var init, last := xs[..|xs| - 1], xs[|xs| - 1];
      ResultsLabelsWithin(init, respond);
      var one := ResultOf(last, respond(last.id));
      ModsOfAppend(Results(init, respond), one);
      LabelsAppend(ModsOf(Results(init, respond)), ModsOf(one));
      SplitLast(xs);
      LabelsAppend(init, [last]);
    }
  }

  /** The started lookups are some of the installed mods, in order. */
  lemma {:induction false} StartedLabelsWithin(mods: seq<Mod>)
    ensures multiset(Labels(Started(mods))) <= multiset(Labels(mods))
    decreases |mods|
  {
    if mods != [] {
      var init, last := mods[..|mods| - 1], mods[|mods| - 1];
      var kept: seq<Mod> := if IsReserved(last.id) then [] else [last];
      StartedLabelsWithin(init);
      SplitLast(mods);
      LabelsAppend(init, [last]);
      LabelsAppend(Started(init), kept);
      assert Started(mods) == Started(init) + kept;
      assert multiset(Labels(kept)) <= multiset(Labels([last]));
    }
  }

  /**
   * The pairs a first lookup run caches belong to installed mods, each
   * installed mod at most once: so the count in the up-to-date field's name
   * is right whenever the run gets that far.
   */
  lemma FirstRunCountMatches(allMods: seq<Mod>, respond: string -> Response)
    requires var fetched := Results(Flatten(Grouping(allMods).0), respond);
      RemoveReservedPrefixes(NotInDb(allMods, fetched)).Some?
    ensures var fetched := Results(Flatten(Grouping(allMods).0), respond);
      |allMods| - |RemoveReservedPrefixes(NotInDb(allMods, fetched)).value|
        - |NeedsUpdates(fetched)| - 3
      == |UpToDatePairs(fetched)|
  {
    var (awaited, pending) := Grouping(allMods);
    GroupingShape(allMods);
    var fetched := Results(Flatten(awaited), respond);
    ResultsLabelsWithin(Flatten(awaited), respond);
    LabelsAppend(Flatten(awaited), pending);
    StartedLabelsWithin(allMods);
    UpToDateCountMatches(allMods, fetched);
  }
}
