/**
 * Lambda's `TempusActivityUpdater`: keeps a Tempus activity channel in line
 * with the four activity embeds, by the rule of `MessageReconciliation`.
 *
 * The embeds the activity service builds from the recent-activity response
 * are given as input, absent when the response was null.
 */
module TempusActivityUpdater {
  import opened Wrappers
  import opened MessageReconciliation

  /** The four embeds built from a recent-activity response. */
  datatype ActivityEmbeds = ActivityEmbeds(mapRecords: Embed, mapTopTimes: Embed, courseRecords: Embed, bonusRecords: Embed)

  /** The embeds in the order the update reconciles them. */
  function InOrder(a: ActivityEmbeds): (embeds: seq<Embed>)
    ensures |embeds| == 4
  {
    [a.mapRecords, a.mapTopTimes, a.courseRecords, a.bonusRecords]
  }

  /**
   * `UpdateChannelAsync` on a text channel: a null activity makes reading its
   * lists throw, and the `catch` posts the error; otherwise the four embeds
   * are reconciled in order, without delays.
   */
  function ActivityPlan(activity: Option<ActivityEmbeds>, existing: seq<Message>): seq<Action>
  {
    if activity.None? then [SendError] else Reconciliation(InOrder(activity.value), existing, false)
  }

  method UpdateChannel(activity: Option<ActivityEmbeds>, existing: seq<Message>) returns (actions: seq<Action>)
    ensures actions == ActivityPlan(activity, existing)
  {
    if activity.None? {
      return [SendError];
    }
    var embeds := InOrder(activity.value);
    actions := Reconcile(embeds, existing, false);
  }

  /**
   * An activity update answers exactly the four embeds, map records first and
   * bonus records last, waits for nothing, and edits or deletes each old
   * message once.
   */
  lemma ActivityUpdateShape(activity: ActivityEmbeds, existing: seq<Message>)
    ensures var acts := ActivityPlan(Some(activity), existing);
      && AnsweredEmbeds(acts) == [activity.mapRecords, activity.mapTopTimes, activity.courseRecords, activity.bonusRecords]
      && DelayCount(acts) == 0
      && multiset(ModifiedIds(acts)) + multiset(DeletedIds(acts)) == multiset(Ids(existing))
  {
    ReconciliationAccountsForAll(InOrder(activity), existing, false);
    ThrottleDelays(InOrder(activity), existing, false);
  }

  /**
   * `UpdateActivityAsync` over the `tempusActivityChannel` configuration;
   * `activityOf(i)` and `existingOf(i)` are what the visit for the
   * configuration entry at position `i` fetches.
   */
  method UpdateActivity(config: Option<seq<string>>, lookup: string -> ChannelLookup,
                        activityOf: nat -> Option<ActivityEmbeds>, existingOf: nat -> seq<Message>) returns (p: Pass)
    ensures p == UpdateAllSpec(config, lookup, (entry: nat, c: nat) => ActivityPlan(activityOf(entry), existingOf(entry)))
  {
    p := UpdateAll(config, lookup, (entry: nat, c: nat) => ActivityPlan(activityOf(entry), existingOf(entry)));
  }
}
