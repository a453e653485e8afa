/**
 * How embeds are grouped into webhook messages: detail embeds of the update
 * report in messages of at most nine, and the mod list in messages of ten,
 * with whatever is left sent at the end.
 */
module Emitters {
  import opened Wrappers
  import opened ModDb
  import opened Releases
  import opened Batching
  import opened Rendering
  import opened Reconcile

  const DetailsPerMessage: nat := 9
  const ListPerMessage: nat := 10

  /** The detail embeds of the mods that need an update, in order. */
  function RenderDetails(needs: seq<Fetched>): (ds: seq<DetailEmbed>)
    requires AllHaveReleases(needs)
    ensures |ds| == |needs|
    ensures forall i :: 0 <= i < |needs| ==> ds[i] == RenderDetail(needs[i].0, needs[i].1)
  {
    seq(|needs|, i requires 0 <= i < |needs| => RenderDetail(needs[i].0, needs[i].1))
  }

  /**
   * The loop that sends the detail embeds: an embed is added per mod, and
   * the collected embeds go out as one message once there are nine or the
   * last mod has been added.  The messages are the rendered embeds cut into
   * nines; no message goes out when no mod needs an update.
   */
  method SendDetails(needs: seq<Fetched>) returns (sent: seq<seq<DetailEmbed>>)
    requires AllHaveReleases(needs)
    ensures sent == Chunks(RenderDetails(needs), DetailsPerMessage)
    ensures BatchesWithin(sent, DetailsPerMessage)
    ensures Flatten(sent) == RenderDetails(needs)
    ensures sent == [] <==> needs == []
  {
    ghost var rendered := RenderDetails(needs);
    var discordEmbeds: seq<DetailEmbed> := [];
    sent := [];
    var index := 0;
    while index < |needs|
      invariant 0 <= index <= |needs|
      invariant |discordEmbeds| < DetailsPerMessage
      invariant Flatten(sent) + discordEmbeds == rendered[..index]
      invariant index < |needs| ==> AllFull(sent, DetailsPerMessage)
      invariant index == |needs| ==> discordEmbeds == [] && sent == Chunks(rendered, DetailsPerMessage)
    {
      var (modLoaderMod, modDbEntryResponse) := needs[index];
      var embed := RenderDetail(modLoaderMod, modDbEntryResponse);
      assert embed == rendered[index];
      DetailStep(rendered, index, sent, discordEmbeds, DetailsPerMessage);
      discordEmbeds := discordEmbeds + [embed];
      if |discordEmbeds| >= DetailsPerMessage || index == |needs| - 1 {
        sent := sent + [discordEmbeds];
        discordEmbeds := [];
      }
      index := index + 1;
    }
    ChunksShape(rendered, DetailsPerMessage);
  }

  /** One turn of a loop that collects items and sends them in messages of
      at most `cap`, flushing when full or at the last item. */
  lemma DetailStep<T>(rendered: seq<T>, index: nat, sent: seq<seq<T>>, buffer: seq<T>, cap: nat)
    requires 0 < cap && index < |rendered| && |buffer| < cap
    requires Flatten(sent) + buffer == rendered[..index] && AllFull(sent, cap)
    ensures var next := buffer + [rendered[index]];
      if |next| >= cap || index == |rendered| - 1 then
        && Flatten(sent + [next]) + [] == rendered[..index + 1]
        && (index + 1 < |rendered| ==> AllFull(sent + [next], cap))
        && (index + 1 == |rendered| ==> sent + [next] == Chunks(rendered, cap))
      else
        Flatten(sent) + next == rendered[..index + 1]
  {
    var next := buffer + [rendered[index]];
    AddEmbed(rendered, index, Flatten(sent), buffer);
    if |next| >= cap || index == |rendered| - 1 {
      SendBatch(sent, next, cap);
      if index + 1 == |rendered| {
        assert rendered[..index + 1] == rendered;
        ChunksOfFull(sent, next, cap);
      }
    }
  }

  lemma AddEmbed<T>(rendered: seq<T>, index: nat, flat: seq<T>, buffer: seq<T>)
    requires index < |rendered| && flat + buffer == rendered[..index]
    ensures flat + (buffer + [rendered[index]]) == rendered[..index + 1]
  {
    assert rendered[..index + 1] == rendered[..index] + [rendered[index]];
  }

  /** Sealing a batch.  The `+ []` in the join clauses here and in
      `DetailStep` keeps the two sides from being merged into one term in the
      caller's loop, where that merge sets off many quantifier instances. */
  lemma SendBatch<T>(sent: seq<seq<T>>, buffer: seq<T>, cap: nat)
    ensures AllFull(sent, cap) && |buffer| == cap ==> AllFull(sent + [buffer], cap)
    ensures Flatten(sent + [buffer]) + [] == Flatten(sent) + buffer
  {
    FlattenAppend(sent, [buffer]);
    FlattenOne(buffer);
  }

  /** The embed listing one found mod. */
  function RenderList(fetched: seq<Fetched>): (ls: seq<ListEmbed>)
    ensures |ls| == |fetched|
    ensures forall i :: 0 <= i < |fetched| ==> ls[i] == RenderListEmbed(fetched[i].0, fetched[i].1)
  {
    seq(|fetched|, i requires 0 <= i < |fetched| => RenderListEmbed(fetched[i].0, fetched[i].1))
  }

  /** One message the list command tried to send, and whether sending it threw. */
  datatype SendAttempt = SendAttempt(embeds: seq<ListEmbed>, failed: bool)

  function BatchesOf(attempts: seq<SendAttempt>): (bs: seq<seq<ListEmbed>>)
    ensures |bs| == |attempts|
    ensures forall k :: 0 <= k < |attempts| ==> bs[k] == attempts[k].embeds
  {
    if attempts == [] then [] else [attempts[0].embeds] + BatchesOf(attempts[1..])
  }

  /** The embeds collected by the list command and the messages it tried to send. */
  class ListSender {
    var embeds: seq<ListEmbed>
    var attempts: seq<SendAttempt>

    constructor ()
      ensures embeds == [] && attempts == []
    {
      embeds := [];
      attempts := [];
    }

    method Add(e: ListEmbed)
      modifies this
      ensures embeds == old(embeds) + [e] && attempts == old(attempts)
    {
      embeds := embeds + [e];
    }

    /**
     * `TrySend`: with the count checked, fewer than ten embeds stay
     * collected; otherwise they go out as one message and are cleared,
     * whether the send succeeds or throws.
     */
    method TrySend(checkCount: bool, sendFails: bool)
      modifies this
      ensures checkCount && |old(embeds)| < ListPerMessage ==>
                embeds == old(embeds) && attempts == old(attempts)
      ensures !(checkCount && |old(embeds)| < ListPerMessage) ==>
                embeds == [] && attempts == old(attempts) + [SendAttempt(old(embeds), sendFails)]
    {
      if checkCount && |embeds| < ListPerMessage {
        return;
      }
      attempts := attempts + [SendAttempt(embeds, sendFails)];
      embeds := [];
    }
  }

  /**
   * `LogModsTo`: one embed per found mod, a message each time ten are
   * collected, and a final message with the rest, sent even when nothing is
   * left.  `fails(k)` says whether the k-th send throws; a failed message is
   * dropped and the list goes on.
   */
  method LogModsTo(fetched: seq<Fetched>, fails: nat -> bool) returns (attempts: seq<SendAttempt>)
    ensures BatchesOf(attempts) == FullThenRest(RenderList(fetched), ListPerMessage)
    ensures forall k :: 0 <= k < |attempts| ==> attempts[k].failed == fails(k)
  {
    ghost var rendered := RenderList(fetched);
    var sender := new ListSender();
    var i := 0;
    while i < |fetched|
      invariant 0 <= i <= |fetched|
      invariant ListProgress(rendered[..i], sender.attempts, sender.embeds, fails)
    {
      var (modLoaderMod, modEntry) := fetched[i];
      ghost var attempts0, embeds0 := sender.attempts, sender.embeds;
      var embed := RenderListEmbed(modLoaderMod, modEntry);
      assert embed == rendered[i];
      sender.Add(embed);
      sender.TrySend(true, fails(|sender.attempts|));
      ListStep(rendered, i, attempts0, embeds0, sender.attempts, sender.embeds, fails);
      i := i + 1;
    }
    ghost var attempts0, embeds0 := sender.attempts, sender.embeds;
    sender.TrySend(false, fails(|sender.attempts|));
    assert rendered[..i] == rendered;
    ListFinal(rendered, attempts0, embeds0, fails);
    attempts := sender.attempts;
  }

  /** The state of the list command after the embeds `done`: full messages
      sent, fewer than ten embeds collected, each attempt's outcome as given. */
  predicate ListProgress(done: seq<ListEmbed>, attempts: seq<SendAttempt>, embeds: seq<ListEmbed>, fails: nat -> bool)
  {
    && |embeds| < ListPerMessage
    && AllFull(BatchesOf(attempts), ListPerMessage)
    && Flatten(BatchesOf(attempts)) + embeds == done
    && (forall k :: 0 <= k < |attempts| ==> attempts[k].failed == fails(k))
  }

  lemma ListStep(rendered: seq<ListEmbed>, i: nat, attempts: seq<SendAttempt>, embeds: seq<ListEmbed>,
                 attempts': seq<SendAttempt>, embeds': seq<ListEmbed>, fails: nat -> bool)
    requires i < |rendered| && ListProgress(rendered[..i], attempts, embeds, fails)
    requires var added := embeds + [rendered[i]];
      if |added| < ListPerMessage then embeds' == added && attempts' == attempts
      else embeds' == [] && attempts' == attempts + [SendAttempt(added, fails(|attempts|))]
    ensures ListProgress(rendered[..i + 1], attempts', embeds', fails)
  {
    var added := embeds + [rendered[i]];
    AddEmbed(rendered, i, Flatten(BatchesOf(attempts)), embeds);
    if |added| >= ListPerMessage {
      BatchesOfSnoc(attempts, attempts'[|attempts|]);
      SendBatch(BatchesOf(attempts), added, ListPerMessage);
      FailedSnoc(attempts, attempts'[|attempts|], fails);
    }
  }

  lemma ListFinal(rendered: seq<ListEmbed>, attempts: seq<SendAttempt>, embeds: seq<ListEmbed>, fails: nat -> bool)
    requires ListProgress(rendered, attempts, embeds, fails)
    ensures var attempts' := attempts + [SendAttempt(embeds, fails(|attempts|))];
      && BatchesOf(attempts') == FullThenRest(rendered, ListPerMessage)
      && (forall k :: 0 <= k < |attempts'| ==> attempts'[k].failed == fails(k))
  {
    var a := SendAttempt(embeds, fails(|attempts|));
    BatchesOfSnoc(attempts, a);
    FailedSnoc(attempts, a, fails);
    FullThenRestOfFull(BatchesOf(attempts), embeds, ListPerMessage);
  }

  lemma FailedSnoc(attempts: seq<SendAttempt>, a: SendAttempt, fails: nat -> bool)
    requires forall k :: 0 <= k < |attempts| ==> attempts[k].failed == fails(k)
    requires a.failed == fails(|attempts|)
    ensures forall k :: 0 <= k < |attempts + [a]| ==> (attempts + [a])[k].failed == fails(k)
  {
  }

  lemma BatchesOfSnoc(attempts: seq<SendAttempt>, a: SendAttempt)
    ensures BatchesOf(attempts + [a]) == BatchesOf(attempts) + [a.embeds]
  {
  }
}
