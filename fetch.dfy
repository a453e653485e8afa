/**
 * `GetAllModsFromDb`: look up every installed mod but the three reserved
 * ones, four lookups at a time, and keep the pairs whose lookup succeeded in
 * a list that later calls return without looking anything up again.
 *
 * The lookups of a group run concurrently in the source and are awaited
 * together; this model runs them one after the other, in the order they were
 * started, when their group is awaited.  A lookup that throws faults its
 * task: the other lookups of its group still finish, and then awaiting the
 * group rethrows, which ends the whole call with the pairs found so far left
 * in the cache.
 */
module Fetch {
  import opened Wrappers
  import opened ModDb
  import opened Batching

  const MaxTasksAtOnce: nat := 4

  /** The mods whose lookup is started, in order: all but the reserved ones. */
  function Started(mods: seq<Mod>): (r: seq<Mod>)
    ensures forall m :: m in r ==> m in mods && !IsReserved(m.id)
  {
    if mods == [] then []
    else
      var last := mods[|mods| - 1];
      Started(mods[..|mods| - 1]) + (if IsReserved(last.id) then [] else [last])
  }

  /**
   * Every installed mod that is not reserved is looked up, as often as it
   * is installed, and no reserved one is.
   */
  lemma {:induction false} StartedCounts(mods: seq<Mod>)
    ensures forall m :: m in Started(mods) <==> m in mods && !IsReserved(m.id)
    ensures forall m :: multiset(Started(mods))[m] == if IsReserved(m.id) then 0 else multiset(mods)[m]
    decreases |mods|
  {
    if mods != [] {
      var init, last := mods[..|mods| - 1], mods[|mods| - 1];
      StartedCounts(init);
      assert mods == init + [last];
    }
  }

  /** The pair one lookup adds: only a success status with a parsed mod adds one. */
  function ResultOf(m: Mod, response: Response): seq<Fetched>
  {
    if response.Response? && response.isSuccessStatusCode && response.parsedMod.Some? then
      [(m, response.parsedMod.value)]
    else []
  }

  /** The pairs the lookups of `ms` add, in order. */
  function Results(ms: seq<Mod>, respond: string -> Response): seq<Fetched>
  {
    if ms == [] then []
    else Results(ms[..|ms| - 1], respond) + ResultOf(ms[|ms| - 1], respond(ms[|ms| - 1].id))
  }

  lemma {:induction false} ResultsAppend(xs: seq<Mod>, ys: seq<Mod>, respond: string -> Response)
    ensures Results(xs + ys, respond) == Results(xs, respond) + Results(ys, respond)
    decreases |ys|
  {
    if ys == [] {
      assert xs + ys == xs;
    } else {
      var init := ys[..|ys| - 1];
      assert (xs + ys)[..|xs + ys| - 1] == xs + init;
      ResultsAppend(xs, init, respond);
    }
  }

  /** Every cached pair comes from a successful lookup of its own mod. */
  lemma ResultsSound(ms: seq<Mod>, respond: string -> Response, p: Fetched)
    requires p in Results(ms, respond)
    ensures p.0 in ms
    ensures respond(p.0.id).Response?
    ensures respond(p.0.id).isSuccessStatusCode && respond(p.0.id).parsedMod == Some(p.1)
  {
    if ms != [] {
      var init := ms[..|ms| - 1];
      if p in Results(init, respond) {
        ResultsSound(init, respond, p);
      }
    }
  }

  /** Some lookup of the group throws. */
  predicate Faults(tasks: seq<Mod>, respond: string -> Response)
  {
    exists i :: 0 <= i < |tasks| && respond(tasks[i].id).Faulted?
  }

  predicate NoneFaults(groups: seq<seq<Mod>>, respond: string -> Response)
  {
    forall k :: 0 <= k < |groups| ==> !Faults(groups[k], respond)
  }

  /**
   * The groups awaited by a call that ended in a throw: the started lookups
   * cut into fours up to the first group with a throwing lookup, which is
   * the last one awaited.  Only a group ending at the last installed mod,
   * which is then not a reserved one, can be shorter than four.
   */
  predicate FailedAt(mods: seq<Mod>, awaited: seq<seq<Mod>>, respond: string -> Response)
  {
    && |awaited| > 0
    && Faults(awaited[|awaited| - 1], respond)
    && NoneFaults(awaited[..|awaited| - 1], respond)
    && BatchesWithin(awaited, MaxTasksAtOnce)
    && AllFull(awaited[..|awaited| - 1], MaxTasksAtOnce)
    && Flatten(awaited) <= Started(mods)
    && (|awaited[|awaited| - 1]| < MaxTasksAtOnce ==> Flatten(awaited) == Started(mods) && !LastIsReserved(mods))
  }

  /** The lookups started for a prefix of the mods start the lookups for all of them. */
  lemma {:induction false} StartedPrefix(mods: seq<Mod>, i: nat)
    requires i <= |mods|
    ensures Started(mods[..i]) <= Started(mods)
    decreases |mods|
  {
    if i < |mods| {
      var init := mods[..|mods| - 1];
      StartedPrefix(init, i);
      assert init[..i] == mods[..i];
    } else {
      assert mods[..i] == mods;
    }
  }

  predicate LastIsReserved(mods: seq<Mod>)
  {
    |mods| > 0 && IsReserved(mods[|mods| - 1].id)
  }

  /**
   * The groups the loop awaits, and the group it leaves un-awaited: a group
   * is awaited when it reaches four lookups or at the last mod, so when the
   * last mod is reserved the final short group is never awaited.
   */
  function Grouping(mods: seq<Mod>): (seq<seq<Mod>>, seq<Mod>)
  {
    var ft := FullThenRest(Started(mods), MaxTasksAtOnce);
    FullThenRestShape(Started(mods), MaxTasksAtOnce);
    var full, rest := ft[..|ft| - 1], ft[|ft| - 1];
    if LastIsReserved(mods) then (full, rest)
    else (full + (if rest == [] then [] else [rest]), [])
  }

  /**
   * Groups hold one to four lookups, none of a reserved mod; awaited and
   * un-awaited lookups together are the started ones, each once and in
   * order; a group is left un-awaited only when the last mod is reserved;
   * otherwise the groups are the started lookups cut into fours.
   */
  lemma GroupingShape(mods: seq<Mod>)
    ensures var (awaited, pending) := Grouping(mods);
      && BatchesWithin(awaited, MaxTasksAtOnce)
      && |pending| < MaxTasksAtOnce
      && Flatten(awaited) + pending == Started(mods)
      && (pending != [] ==> LastIsReserved(mods))
      && (!LastIsReserved(mods) ==> awaited == Chunks(Started(mods), MaxTasksAtOnce))
      && (forall m :: m in Flatten(awaited) || m in pending ==> !IsReserved(m.id))
  {
    var started := Started(mods);
    var ft := FullThenRest(started, MaxTasksAtOnce);
    FullThenRestShape(started, MaxTasksAtOnce);
    ChunksShape(started, MaxTasksAtOnce);
    var full, rest := ft[..|ft| - 1], ft[|ft| - 1];
    assert ft == full + [rest];
    FlattenAppend(full, [rest]);
    FlattenOne(rest);
    assert Flatten(full) + rest == started;
    ChunksOfFull(full, rest, MaxTasksAtOnce);
    var (awaited, pending) := Grouping(mods);
    if !LastIsReserved(mods) {
      assert awaited == Chunks(started, MaxTasksAtOnce);
    }
    forall m | m in Flatten(awaited) || m in pending ensures !IsReserved(m.id) {
      assert m in started;
    }
  }

  /**
   * The groups a failed call awaited are the first groups the loop awaits
   * when nothing throws, so the call fails exactly when one of those throws.
   */
  lemma FailedAtAwaitedGroup(mods: seq<Mod>, awaited: seq<seq<Mod>>, respond: string -> Response)
    requires FailedAt(mods, awaited, respond)
    ensures awaited <= Grouping(mods).0
    ensures !NoneFaults(Grouping(mods).0, respond)
  {
    var n := |awaited|;
    var init, last := awaited[..n - 1], awaited[n - 1];
    assert awaited == init + [last];
    var started := Started(mods);
    GroupingShape(mods);
    if |last| == MaxTasksAtOnce {
      assert AllFull(awaited, MaxTasksAtOnce);
      var flat := Flatten(awaited);
      var t := started[|flat|..];
      assert started == flat + t;
      FullThenRestAfterFull(awaited, t, MaxTasksAtOnce);
      FullThenRestShape(t, MaxTasksAtOnce);
      var ft := FullThenRest(started, MaxTasksAtOnce);
      assert ft[..|ft| - 1] == awaited + FullThenRest(t, MaxTasksAtOnce)[..|FullThenRest(t, MaxTasksAtOnce)| - 1];
    } else {
      var i :| 0 <= i < |last| && respond(last[i].id).Faulted?;
      FlattenAppend(init, [last]);
      FlattenOne(last);
      ChunksOfFull(init, last, MaxTasksAtOnce);
    }
    var grouped := Grouping(mods).0;
    assert grouped[n - 1] == last;
  }

  class ModDbClient {
    /** `cachedModDbReturns`: the pairs found so far, kept across calls. */
    var cachedModDbReturns: seq<Fetched>

    constructor ()
      ensures cachedModDbReturns == []
    {
      cachedModDbReturns := [];
    }

    /**
     * `getModFromAPI`: one lookup, whose pair is added only on success;
     * `threw` when its task faults.
     */
    method GetModFromApi(m: Mod, respond: string -> Response) returns (threw: bool)
      modifies this
      ensures cachedModDbReturns == old(cachedModDbReturns) + ResultOf(m, respond(m.id))
      ensures threw <==> respond(m.id).Faulted?
    {
      var response := respond(m.id);
      if response.Faulted? {
        return true;
      }
      threw := false;
      if !response.isSuccessStatusCode {
        return;
      }
      var modEntry := response.parsedMod;
      if modEntry.None? {
        return;
      }
      cachedModDbReturns := cachedModDbReturns + [(m, modEntry.value)];
    }

    /**
     * `Task.WhenAll` over a group: every lookup finishes, and the await
     * rethrows (`faulted`) when one of them threw.
     */
    method AwaitGroup(tasks: seq<Mod>, respond: string -> Response) returns (faulted: bool)
      modifies this
      ensures cachedModDbReturns == old(cachedModDbReturns) + Results(tasks, respond)
      ensures faulted <==> Faults(tasks, respond)
    {
      faulted := false;
      var j := 0;
      while j < |tasks|
        invariant 0 <= j <= |tasks|
        invariant cachedModDbReturns == old(cachedModDbReturns) + Results(tasks[..j], respond)
        invariant faulted <==> Faults(tasks[..j], respond)
      {
        assert tasks[..j + 1][..j] == tasks[..j];
        FaultsSnoc(tasks, j, respond);
        var threw := GetModFromApi(tasks[j], respond);
        faulted := faulted || threw;
        j := j + 1;
      }
      assert tasks[..j] == tasks;
    }

    /**
     * A non-empty cache is returned as it is, with no lookup; otherwise the
     * lookups are started in groups (returned for inspection: the awaited
     * groups and the one left un-awaited), and the cache holds the pairs of
     * the awaited lookups that succeeded, in order.  When a lookup of an
     * awaited group throws, the call ends there (`failed`, no result) and
     * the cache keeps the pairs of the groups awaited so far, so that a later
     * call returns them as they are whenever there is at least one.
     */
    method GetAllModsFromDb(mods: seq<Mod>, respond: string -> Response)
      returns (result: Option<seq<Fetched>>, awaited: seq<seq<Mod>>, pending: seq<Mod>, failed: bool)
      modifies this
      ensures old(cachedModDbReturns) != [] ==>
                cachedModDbReturns == old(cachedModDbReturns) && awaited == [] && pending == [] && !failed
      ensures old(cachedModDbReturns) == [] ==> cachedModDbReturns == Results(Flatten(awaited), respond)
      ensures old(cachedModDbReturns) == [] && !failed ==>
                (awaited, pending) == Grouping(mods) && NoneFaults(awaited, respond)
      ensures old(cachedModDbReturns) == [] && failed ==> FailedAt(mods, awaited, respond) && pending == []
      ensures old(cachedModDbReturns) == [] ==> (failed <==> !NoneFaults(Grouping(mods).0, respond))
      ensures failed <==> result.None?
      ensures result.Some? ==> result.value == cachedModDbReturns
    {
      awaited, pending, failed := [], [], false;
      if |cachedModDbReturns| != 0 {
        return Some(cachedModDbReturns), awaited, pending, failed;
      }
      var tasks: seq<Mod> := [];
      var index := 0;
      while index < |mods|
        invariant 0 <= index <= |mods|
        invariant |tasks| < MaxTasksAtOnce
        invariant Flatten(awaited) + tasks == Started(mods[..index])
        invariant index < |mods| || LastIsReserved(mods) || |mods| == 0 ==> AllFull(awaited, MaxTasksAtOnce)
        invariant index == |mods| && |mods| > 0 && !LastIsReserved(mods) ==>
                    tasks == [] && awaited == Chunks(Started(mods), MaxTasksAtOnce)
        invariant cachedModDbReturns == Results(Flatten(awaited), respond)
        invariant NoneFaults(awaited, respond)
      {
        var modLoaderMod := mods[index];
        if IsReserved(modLoaderMod.id) {
          SkipTask(mods, index, Flatten(awaited) + tasks);
          index := index + 1;
          continue;
        }
        AddTask(mods, index, Flatten(awaited), tasks);
        tasks := tasks + [modLoaderMod];
        if |tasks| >= MaxTasksAtOnce || index == |mods| - 1 {
          var faulted := AwaitGroup(tasks, respond);
          Flush(awaited, tasks, respond);
          if faulted {
            FaultExit(mods, index, awaited, tasks, respond);
            FailedAtAwaitedGroup(mods, awaited + [tasks], respond);
            awaited := awaited + [tasks];
            return None, awaited, [], true;
          }
          if index == |mods| - 1 {
            LastFlush(mods, awaited, tasks);
          }
          awaited := awaited + [tasks];
          tasks := [];
        }
        index := index + 1;
      }
      assert mods[..index] == mods;
      if LastIsReserved(mods) || |mods| == 0 {
        FullThenRestOfFull(awaited, tasks, MaxTasksAtOnce);
      } else {
        GroupingShape(mods);
      }
      pending := tasks;
      result := Some(cachedModDbReturns);
    }
  }

  lemma FaultsSnoc(tasks: seq<Mod>, j: nat, respond: string -> Response)
    requires j < |tasks|
    ensures Faults(tasks[..j + 1], respond) <==> Faults(tasks[..j], respond) || respond(tasks[j].id).Faulted?
  {
    var pre, next := tasks[..j], tasks[..j + 1];
    if Faults(next, respond) && !respond(tasks[j].id).Faulted? {
      var i :| 0 <= i < |next| && respond(next[i].id).Faulted?;
      assert i < j && next[i] == pre[i];
    }
    if Faults(pre, respond) {
      var i :| 0 <= i < |pre| && respond(pre[i].id).Faulted?;
      assert next[i] == pre[i];
    }
    if respond(tasks[j].id).Faulted? {
      assert next[j] == tasks[j];
    }
  }

  /** The groups awaited when the group just awaited threw. */
  lemma FaultExit(mods: seq<Mod>, index: nat, awaited: seq<seq<Mod>>, tasks: seq<Mod>, respond: string -> Response)
    requires index < |mods| && !IsReserved(mods[index].id)
    requires AllFull(awaited, MaxTasksAtOnce) && NoneFaults(awaited, respond)
    requires 0 < |tasks| <= MaxTasksAtOnce && (|tasks| >= MaxTasksAtOnce || index == |mods| - 1)
    requires Flatten(awaited + [tasks]) + [] == Started(mods[..index + 1])
    requires Faults(tasks, respond)
    ensures FailedAt(mods, awaited + [tasks], respond)
  {
    var all := awaited + [tasks];
    assert all[..|awaited|] == awaited;
    assert all[|all| - 1] == tasks;
    StartedPrefix(mods, index + 1);
    if |tasks| < MaxTasksAtOnce {
      assert mods[..index + 1] == mods;
    }
  }

  lemma SkipTask(mods: seq<Mod>, index: nat, started: seq<Mod>)
    requires index < |mods| && IsReserved(mods[index].id)
    requires started == Started(mods[..index])
    ensures started == Started(mods[..index + 1])
  {
    assert mods[..index + 1][..index] == mods[..index];
  }

  lemma AddTask(mods: seq<Mod>, index: nat, flat: seq<Mod>, tasks: seq<Mod>)
    requires index < |mods| && !IsReserved(mods[index].id)
    requires flat + tasks == Started(mods[..index])
    ensures flat + (tasks + [mods[index]]) == Started(mods[..index + 1])
  {
    assert mods[..index + 1][..index] == mods[..index];
  }

  lemma LastFlush(mods: seq<Mod>, awaited: seq<seq<Mod>>, tasks: seq<Mod>)
    requires |mods| > 0 && AllFull(awaited, MaxTasksAtOnce)
    requires 0 < |tasks| <= MaxTasksAtOnce
    requires Flatten(awaited) + tasks == Started(mods[..|mods|])
    ensures awaited + [tasks] == Chunks(Started(mods), MaxTasksAtOnce)
  {
    assert mods[..|mods|] == mods;
    ChunksOfFull(awaited, tasks, MaxTasksAtOnce);
  }

  /** Awaiting a group.  As in `Emitters.SendBatch`, the `+ []` keeps the
      join equation from merging the two sides in the caller's loop. */
  lemma Flush(awaited: seq<seq<Mod>>, tasks: seq<Mod>, respond: string -> Response)
    ensures NoneFaults(awaited, respond) && !Faults(tasks, respond) ==> NoneFaults(awaited + [tasks], respond)
    ensures AllFull(awaited, MaxTasksAtOnce) && |tasks| == MaxTasksAtOnce ==>
              AllFull(awaited + [tasks], MaxTasksAtOnce)
    ensures Flatten(awaited + [tasks]) + [] == Flatten(awaited) + tasks
    ensures Results(Flatten(awaited + [tasks]), respond)
         == Results(Flatten(awaited), respond) + Results(tasks, respond)
  {
    FlattenAppend(awaited, [tasks]);
    FlattenOne(tasks);
    ResultsAppend(Flatten(awaited), tasks, respond);
  }
}
