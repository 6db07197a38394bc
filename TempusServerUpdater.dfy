/**
 * Lambda's `TempusServerUpdater`: keeps a Tempus overview channel (the
 * server-status overview and the stalk-top list) and a Tempus server channel
 * (one embed per server) in line with fresh data, by the rule of
 * `MessageReconciliation`.
 *
 * What the Tempus API and the embed-building services return for a channel
 * is given as input: the overview embeds, the per-server embeds (absent for
 * a server the service gives no embed for), and the channel's messages.
 */
module TempusServerUpdater {
  import opened Wrappers
  import opened MessageReconciliation

  /** `UpdateChannelOverviewAsync` on a text channel: the status overview, then the stalk-top embed. */
  function OverviewPlan(statusOverview: Embed, stalkTop: Embed, existing: seq<Message>): seq<Action>
  {
    Reconciliation([statusOverview, stalkTop], existing, false)
  }

  method UpdateChannelOverview(statusOverview: Embed, stalkTop: Embed, existing: seq<Message>) returns (actions: seq<Action>)
    ensures actions == OverviewPlan(statusOverview, stalkTop, existing)
  {
    var embeds := [statusOverview, stalkTop];
    actions := Reconcile(embeds, existing, false);
  }

  /** The overview answers the status overview first and the stalk-top embed second, and waits for nothing. */
  lemma OverviewOrder(statusOverview: Embed, stalkTop: Embed, existing: seq<Message>)
    ensures AnsweredEmbeds(OverviewPlan(statusOverview, stalkTop, existing)) == [statusOverview, stalkTop]
    ensures DelayCount(OverviewPlan(statusOverview, stalkTop, existing)) == 0
  {
    ReconciliationAccountsForAll([statusOverview, stalkTop], existing, false);
    ThrottleDelays([statusOverview, stalkTop], existing, false);
  }

  /** `Where(x => x != null)`: the embeds the service produced, in server order. */
  function PresentEmbeds(serverEmbeds: seq<Option<Embed>>): (embeds: seq<Embed>)
    ensures |embeds| <= |serverEmbeds|
    ensures forall e :: e in embeds <==> Some(e) in serverEmbeds
  {
    if serverEmbeds == [] then []
    else
      var front := PresentEmbeds(serverEmbeds[..|serverEmbeds| - 1]);
      var last := serverEmbeds[|serverEmbeds| - 1];
      assert serverEmbeds == serverEmbeds[..|serverEmbeds| - 1] + [last];
      if last.None? then front else front + [last.value]
  }

  /** The filter works piece by piece, so the kept embeds keep server order and multiplicity. */
  lemma {:induction false} PresentEmbedsAppend(a: seq<Option<Embed>>, b: seq<Option<Embed>>)
    ensures PresentEmbeds(a + b) == PresentEmbeds(a) + PresentEmbeds(b)
    decreases |b|
  {
    if b == [] {
      assert a + b == a;
    } else {
      var front := b[..|b| - 1];
      assert (a + b)[..|a + b| - 1] == a + front;
      assert (a + b)[|a + b| - 1] == b[|b| - 1];
      PresentEmbedsAppend(a, front);
    }
  }

  /** A server without an embed contributes nothing; a server with one contributes exactly that embed. */
  lemma PresentEmbedsSingle(e: Embed)
    ensures PresentEmbeds([None]) == []
    ensures PresentEmbeds([Some(e)]) == [e]
  {
    var none: seq<Option<Embed>> := [None];
    var some: seq<Option<Embed>> := [Some(e)];
    assert none[..0] == [] && some[..0] == [];
  }

  /**
   * `UpdateChannelAsync` on a text channel: a null server list makes `Select`
   * throw, and the `catch` posts the error; otherwise the server embeds are
   * reconciled with a delay before every fifth one.
   */
  function ServerPlan(serverEmbeds: Option<seq<Option<Embed>>>, existing: seq<Message>): seq<Action>
  {
    if serverEmbeds.None? then [SendError]
    else Reconciliation(PresentEmbeds(serverEmbeds.value), existing, true)
  }

  method UpdateChannel(serverEmbeds: Option<seq<Option<Embed>>>, existing: seq<Message>) returns (actions: seq<Action>)
    ensures actions == ServerPlan(serverEmbeds, existing)
  {
    if serverEmbeds.None? {
      return [SendError];
    }
    var embeds := PresentEmbeds(serverEmbeds.value);
    actions := Reconcile(embeds, existing, true);
  }

  /**
   * A server update answers each produced embed once, in server order, waits
   * `(n + 4) / 5` times (where, `DelayBeforeEveryFifth` says), and edits or
   * deletes each old message once.
   */
  lemma ServerUpdateShape(serverEmbeds: seq<Option<Embed>>, existing: seq<Message>)
    ensures var acts := ServerPlan(Some(serverEmbeds), existing);
      && AnsweredEmbeds(acts) == PresentEmbeds(serverEmbeds)
      && DelayCount(acts) == (|PresentEmbeds(serverEmbeds)| + 4) / 5
      && multiset(ModifiedIds(acts)) + multiset(DeletedIds(acts)) == multiset(Ids(existing))
  {
    ReconciliationAccountsForAll(PresentEmbeds(serverEmbeds), existing, true);
    ThrottleDelays(PresentEmbeds(serverEmbeds), existing, true);
  }

  /**
   * `UpdateOverviewsAsync` over the `tempusOverviewChannel` configuration;
   * `statusOf(i)`, `stalkTopOf(i)` and `existingOf(i)` are what the visit for
   * the configuration entry at position `i` fetches.
   */
  method UpdateOverviews(config: Option<seq<string>>, lookup: string -> ChannelLookup,
                         statusOf: nat -> Embed, stalkTopOf: nat -> Embed, existingOf: nat -> seq<Message>) returns (p: Pass)
    ensures p == UpdateAllSpec(config, lookup, (entry: nat, c: nat) => OverviewPlan(statusOf(entry), stalkTopOf(entry), existingOf(entry)))
  {
    p := UpdateAll(config, lookup, (entry: nat, c: nat) => OverviewPlan(statusOf(entry), stalkTopOf(entry), existingOf(entry)));
  }

  /**
   * `UpdateServersAsync` over the `tempusUpdateChannel` configuration;
   * `serverEmbedsOf(i)` and `existingOf(i)` are what the visit for the
   * configuration entry at position `i` fetches.
   */
  method UpdateServers(config: Option<seq<string>>, lookup: string -> ChannelLookup,
                       serverEmbedsOf: nat -> Option<seq<Option<Embed>>>, existingOf: nat -> seq<Message>) returns (p: Pass)
    ensures p == UpdateAllSpec(config, lookup, (entry: nat, c: nat) => ServerPlan(serverEmbedsOf(entry), existingOf(entry)))
  {
    p := UpdateAll(config, lookup, (entry: nat, c: nat) => ServerPlan(serverEmbedsOf(entry), existingOf(entry)));
  }
}
