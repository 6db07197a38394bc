/**
 * The rule Lambda's Discord updaters use to bring a channel in line with a
 * fresh list of embeds: each embed edits the first message in the channel
 * that carries exactly one embed with the same title, if that message is a
 * user message, and is posted as a new message otherwise; an edited message
 * is struck off the list, and every message left on it is deleted.
 *
 * The Discord calls are the actions the rule produces, in the order the
 * updater makes them.
 */
module MessageReconciliation {
  import opened Wrappers

  /** An `Embed`, reduced to its possibly null title and its content. */
  datatype Embed = Embed(title: Option<string>, content: string)

  /** A message already in the channel: its id, its embeds, and whether it is an `IUserMessage`. */
  datatype Message = Message(id: nat, embeds: seq<Embed>, isUserMessage: bool)

  /** The Discord calls of one channel update. */
  datatype Action =
    | Modify(msgId: nat, embed: Embed)   // `userMessage.ModifyAsync`
    | Send(embed: Embed)                 // `channel.SendMessageAsync(embed)`
    | Delete(msgId: nat)                 // `oldMessage.DeleteAsync`
    | Delay                              // `Task.Delay(4200)`
    | SendError                          // the logged exception posted by the `catch` block

  /** The `FirstOrDefault` condition: exactly one embed, with the embed's title. */
  predicate Matches(m: Message, e: Embed)
  {
    |m.embeds| == 1 && m.embeds[0].title == e.title
  }

  /** The position of the first pending message matching `e`, or `|pending|` when there is none. */
  function FirstMatch(pending: seq<Message>, e: Embed): (i: nat)
    ensures i <= |pending|
    ensures i < |pending| ==> Matches(pending[i], e)
    ensures forall j :: 0 <= j < i ==> !Matches(pending[j], e)
  {
    if pending == [] then 0
    else if Matches(pending[0], e) then 0
    else 1 + FirstMatch(pending[1..], e)
  }

  /** The delay before the embed at position `k`: one at positions 0, 5, 10, … when throttled. */
  function DelayBefore(k: nat, throttled: bool): seq<Action>
  {
    if throttled && k % 5 == 0 then [Delay] else []
  }

  /** Where the `foreach` over the embeds stands: the actions so far and the messages still pending. */
  datatype PassState = PassState(acts: seq<Action>, pending: seq<Message>)

  /** The answer to embed `e`: edit the first matching pending message if it is a user message, else post. */
  function Answer(pending: seq<Message>, e: Embed): Action
  {
    var i := FirstMatch(pending, e);
    if i < |pending| && pending[i].isUserMessage then Modify(pending[i].id, e) else Send(e)
  }

  /** The pending messages after answering `e`: the edited one is struck off. */
  function Remaining(pending: seq<Message>, e: Embed): seq<Message>
  {
    var i := FirstMatch(pending, e);
    if i < |pending| && pending[i].isUserMessage then pending[..i] + pending[i + 1..] else pending
  }

  /** One iteration, for the embed `e` at position `k`. */
  function Step(s: PassState, e: Embed, k: nat, throttled: bool): PassState
  {
    PassState(s.acts + DelayBefore(k, throttled) + [Answer(s.pending, e)], Remaining(s.pending, e))
  }

  /** The `foreach` over the embeds `embeds`, starting from the messages `existing`. */
  function EmbedPass(embeds: seq<Embed>, existing: seq<Message>, throttled: bool): PassState
  {
    if embeds == [] then PassState([], existing)
    else Step(EmbedPass(embeds[..|embeds| - 1], existing, throttled), embeds[|embeds| - 1], |embeds| - 1, throttled)
  }

  /** One `Delete` per message, in list order. */
  function Deletions(ms: seq<Message>): (acts: seq<Action>)
    ensures |acts| == |ms|
    ensures forall k :: 0 <= k < |ms| ==> acts[k] == Delete(ms[k].id)
  {
    if ms == [] then [] else Deletions(ms[..|ms| - 1]) + [Delete(ms[|ms| - 1].id)]
  }

  /** The whole channel update: the embed pass, then the deletion of what is left. */
  function Reconciliation(embeds: seq<Embed>, existing: seq<Message>, throttled: bool): seq<Action>
  {
    var s := EmbedPass(embeds, existing, throttled);
    s.acts + Deletions(s.pending)
  }

  /** The `foreach` over the embeds: edit the first matching user message and strike it off, or post. */
  method AnswerEmbeds(embeds: seq<Embed>, existing: seq<Message>, throttled: bool) returns (actions: seq<Action>, existingMessages: seq<Message>)
    ensures PassState(actions, existingMessages) == EmbedPass(embeds, existing, throttled)
  {
    existingMessages := existing;
    actions := [];
    var count := 0;
    while count < |embeds|
      invariant 0 <= count <= |embeds|
      invariant PassState(actions, existingMessages) == EmbedPass(embeds[..count], existing, throttled)
    {
      var embed := embeds[count];
      assert embeds[..count + 1][..count] == embeds[..count];
      ghost var before := PassState(actions, existingMessages);
      if throttled && count % 5 == 0 {
        actions := actions + [Delay];
      }
      assert actions == before.acts + DelayBefore(count, throttled);
      var i := FirstMatch(existingMessages, embed);
      if i < |existingMessages| && existingMessages[i].isUserMessage {
        assert Answer(before.pending, embed) == Modify(existingMessages[i].id, embed);
        assert Remaining(before.pending, embed) == existingMessages[..i] + existingMessages[i + 1..];
        actions := actions + [Modify(existingMessages[i].id, embed)];
        existingMessages := existingMessages[..i] + existingMessages[i + 1..];
      } else {
        assert Answer(before.pending, embed) == Send(embed);
        assert Remaining(before.pending, embed) == existingMessages;
        actions := actions + [Send(embed)];
      }
      assert PassState(actions, existingMessages) == Step(before, embed, count, throttled);
      count := count + 1;
    }
    assert embeds[..count] == embeds;
  }

  /** The update of one channel, as the updaters write it: the `foreach` over the embeds, then a deletion loop. */
  method Reconcile(embeds: seq<Embed>, existing: seq<Message>, throttled: bool) returns (actions: seq<Action>)
    ensures actions == Reconciliation(embeds, existing, throttled)
  {
    var existingMessages;
    actions, existingMessages := AnswerEmbeds(embeds, existing, throttled);
    var j := 0;
    ghost var answered := actions;
    while j < |existingMessages|
      invariant 0 <= j <= |existingMessages|
      invariant actions == answered + Deletions(existingMessages[..j])
    {
      assert existingMessages[..j + 1][..j] == existingMessages[..j];
      actions := actions + [Delete(existingMessages[j].id)];
      j := j + 1;
    }
    assert existingMessages[..j] == existingMessages;
  }

  // ---------------------------------------------------------------------------
  // What the rule guarantees

  /** The embed an answering action (`Modify` or `Send`) carries. */
  function AnsweredEmbeds(acts: seq<Action>): seq<Embed>
  {
    if acts == [] then []
    else
      var last := acts[|acts| - 1];
      AnsweredEmbeds(acts[..|acts| - 1]) + (if last.Modify? || last.Send? then [last.embed] else [])
  }

  function ModifiedIds(acts: seq<Action>): seq<nat>
  {
    if acts == [] then []
    else
      var last := acts[|acts| - 1];
      ModifiedIds(acts[..|acts| - 1]) + (if last.Modify? then [last.msgId] else [])
  }

  function DeletedIds(acts: seq<Action>): seq<nat>
  {
    if acts == [] then []
    else
      var last := acts[|acts| - 1];
      DeletedIds(acts[..|acts| - 1]) + (if last.Delete? then [last.msgId] else [])
  }

  function DelayCount(acts: seq<Action>): nat
  {
    if acts == [] then 0 else DelayCount(acts[..|acts| - 1]) + (if acts[|acts| - 1].Delay? then 1 else 0)
  }

  function Ids(ms: seq<Message>): (ids: seq<nat>)
    ensures |ids| == |ms|
  {
    seq(|ms|, k requires 0 <= k < |ms| => ms[k].id)
  }

  /** A non-empty list is its front followed by its last element. */
  lemma FrontAndLast<T>(s: seq<T>)
    requires |s| >= 1
    ensures s == s[..|s| - 1] + [s[|s| - 1]]
  {
  }

  /** The action filters of a list grown by one action. */
  lemma FiltersSnoc(a: seq<Action>, x: Action)
    ensures AnsweredEmbeds(a + [x]) == AnsweredEmbeds(a) + (if x.Modify? || x.Send? then [x.embed] else [])
    ensures ModifiedIds(a + [x]) == ModifiedIds(a) + (if x.Modify? then [x.msgId] else [])
    ensures DeletedIds(a + [x]) == DeletedIds(a) + (if x.Delete? then [x.msgId] else [])
    ensures DelayCount(a + [x]) == DelayCount(a) + (if x.Delay? then 1 else 0)
  {
    assert (a + [x])[..|a|] == a;
  }

  /** The action filters work piece by piece. */
  lemma {:induction false} FiltersAppend(a: seq<Action>, b: seq<Action>)
    ensures AnsweredEmbeds(a + b) == AnsweredEmbeds(a) + AnsweredEmbeds(b)
    ensures ModifiedIds(a + b) == ModifiedIds(a) + ModifiedIds(b)
    ensures DeletedIds(a + b) == DeletedIds(a) + DeletedIds(b)
    ensures DelayCount(a + b) == DelayCount(a) + DelayCount(b)
    decreases |b|
  {
    if b == [] {
      assert a + b == a;
    } else {
      var front, x := b[..|b| - 1], b[|b| - 1];
      FrontAndLast(b);
      assert a + b == (a + front) + [x];
      FiltersAppend(a, front);
      FiltersSnoc(a + front, x);
      FiltersSnoc(front, x);
    }
  }

  /** What one iteration adds to the answered, edited and deleted lists. */
  lemma StepFilters(s: PassState, e: Embed, k: nat, throttled: bool)
    ensures var acts := Step(s, e, k, throttled).acts;
      && AnsweredEmbeds(acts) == AnsweredEmbeds(s.acts) + [e]
      && ModifiedIds(acts) == ModifiedIds(s.acts) + (if Answer(s.pending, e).Modify? then [Answer(s.pending, e).msgId] else [])
      && DeletedIds(acts) == DeletedIds(s.acts)
  {
    var answer := Answer(s.pending, e);
    assert answer.Modify? || answer.Send?;
    assert answer.embed == e;
    var mid := s.acts + DelayBefore(k, throttled);
    FiltersSnoc(mid, answer);
    if DelayBefore(k, throttled) == [] {
      assert mid == s.acts;
    } else {
      FiltersSnoc(s.acts, Delay);
    }
  }

  /** Counting the positions 0, 5, 10, … below `k + 1` from those below `k`. */
  lemma OneMoreDelayEveryFive(k: nat)
    ensures (k + 5) / 5 == (k + 4) / 5 + (if k % 5 == 0 then 1 else 0)
  {
  }

  /** One iteration adds a delay exactly when it is throttled and at a multiple of five. */
  lemma StepDelays(s: PassState, e: Embed, k: nat, throttled: bool)
    ensures DelayCount(Step(s, e, k, throttled).acts) == DelayCount(s.acts) + |DelayBefore(k, throttled)|
  {
    var mid := s.acts + DelayBefore(k, throttled);
    FiltersSnoc(mid, Answer(s.pending, e));
    if DelayBefore(k, throttled) == [] {
      assert mid == s.acts;
    } else {
      FiltersSnoc(s.acts, Delay);
    }
  }

  /** The embed pass answers each embed once, in order. */
  lemma {:induction false} EmbedPassAnswers(embeds: seq<Embed>, existing: seq<Message>, throttled: bool)
    ensures AnsweredEmbeds(EmbedPass(embeds, existing, throttled).acts) == embeds
    decreases |embeds|
  {
    if embeds != [] {
      var front, last := embeds[..|embeds| - 1], embeds[|embeds| - 1];
      EmbedPassAnswers(front, existing, throttled);
      StepFilters(EmbedPass(front, existing, throttled), last, |embeds| - 1, throttled);
      FrontAndLast(embeds);
    }
  }

  /** The embed pass deletes nothing. */
  lemma {:induction false} EmbedPassDeletesNothing(embeds: seq<Embed>, existing: seq<Message>, throttled: bool)
    ensures DeletedIds(EmbedPass(embeds, existing, throttled).acts) == []
    decreases |embeds|
  {
    if embeds != [] {
      var front, last := embeds[..|embeds| - 1], embeds[|embeds| - 1];
      EmbedPassDeletesNothing(front, existing, throttled);
      StepFilters(EmbedPass(front, existing, throttled), last, |embeds| - 1, throttled);
    }
  }

  /** The embed pass deletes nothing and answers each embed once, in order. */
  lemma EmbedPassAnswersEach(embeds: seq<Embed>, existing: seq<Message>, throttled: bool)
    ensures AnsweredEmbeds(EmbedPass(embeds, existing, throttled).acts) == embeds
    ensures DeletedIds(EmbedPass(embeds, existing, throttled).acts) == []
  {
    EmbedPassAnswers(embeds, existing, throttled);
    EmbedPassDeletesNothing(embeds, existing, throttled);
  }

  lemma IdsAppend(a: seq<Message>, b: seq<Message>)
    ensures Ids(a + b) == Ids(a) + Ids(b)
  {
    assert forall k :: 0 <= k < |a + b| ==> Ids(a + b)[k] == (Ids(a) + Ids(b))[k];
  }

  /** Removing the message at `i` takes exactly its id out of the ids. */
  lemma IdsWithout(ms: seq<Message>, i: nat)
    requires i < |ms|
    ensures multiset(Ids(ms[..i] + ms[i + 1..])) + multiset{ms[i].id} == multiset(Ids(ms))
  {
    var front, back, x := ms[..i], ms[i + 1..], ms[i];
    assert ms == (front + [x]) + back;
    IdsAppend(front, [x]);
    IdsAppend(front + [x], back);
    IdsAppend(front, back);
    assert Ids([x]) == [x.id];
    var a, b := Ids(front), Ids(back);
    assert Ids(ms) == (a + [x.id]) + b;
    assert multiset((a + [x.id]) + b) == multiset(a) + multiset{x.id} + multiset(b);
    assert multiset(a + b) == multiset(a) + multiset(b);
  }

  /** One iteration keeps every message accounted for: edited, or still pending. */
  lemma StepConserves(s: PassState, e: Embed, k: nat, throttled: bool)
    ensures var s' := Step(s, e, k, throttled);
      multiset(ModifiedIds(s'.acts)) + multiset(Ids(s'.pending)) == multiset(ModifiedIds(s.acts)) + multiset(Ids(s.pending))
  {
    StepFilters(s, e, k, throttled);
    var i := FirstMatch(s.pending, e);
    if i < |s.pending| && s.pending[i].isUserMessage {
      IdsWithout(s.pending, i);
    }
  }

  /**
   * Every existing message is accounted for exactly once by the embed pass:
   * either it was edited, or it is still pending.
   */
  lemma {:induction false} EmbedPassConserves(embeds: seq<Embed>, existing: seq<Message>, throttled: bool)
    ensures var s := EmbedPass(embeds, existing, throttled);
      multiset(ModifiedIds(s.acts)) + multiset(Ids(s.pending)) == multiset(Ids(existing))
    decreases |embeds|
  {
    if embeds != [] {
      var front := embeds[..|embeds| - 1];
      EmbedPassConserves(front, existing, throttled);
      StepConserves(EmbedPass(front, existing, throttled), embeds[|embeds| - 1], |embeds| - 1, throttled);
    }
  }

  /**
   * The whole update edits or deletes each existing message, never both and
   * never twice, and touches no other message; it answers every embed once,
   * in the order of the embeds.
   */
  lemma ReconciliationAccountsForAll(embeds: seq<Embed>, existing: seq<Message>, throttled: bool)
    ensures var acts := Reconciliation(embeds, existing, throttled);
      && multiset(ModifiedIds(acts)) + multiset(DeletedIds(acts)) == multiset(Ids(existing))
      && AnsweredEmbeds(acts) == embeds
  {
    var s := EmbedPass(embeds, existing, throttled);
    EmbedPassConserves(embeds, existing, throttled);
    EmbedPassAnswersEach(embeds, existing, throttled);
    FiltersAppend(s.acts, Deletions(s.pending));
    DeletionsFilters(s.pending);
  }

  /** The deletions delete exactly the pending messages and nothing else. */
  lemma {:induction false} DeletionsFilters(ms: seq<Message>)
    ensures DeletedIds(Deletions(ms)) == Ids(ms)
    ensures ModifiedIds(Deletions(ms)) == [] && AnsweredEmbeds(Deletions(ms)) == [] && DelayCount(Deletions(ms)) == 0
    decreases |ms|
  {
    if ms != [] {
      var front := ms[..|ms| - 1];
      DeletionsFilters(front);
      FiltersSnoc(Deletions(front), Delete(ms[|ms| - 1].id));
    }
  }

  /** The messages still pending after one iteration were pending before it. */
  lemma RemainingShrinks(pending: seq<Message>, e: Embed)
    ensures |Remaining(pending, e)| <= |pending|
    ensures forall m :: m in Remaining(pending, e) ==> m in pending
  {
    var i := FirstMatch(pending, e);
    if i < |pending| && pending[i].isUserMessage {
      forall m | m in pending[..i] + pending[i + 1..] ensures m in pending {
        if m in pending[..i] {
          var j :| 0 <= j < i && pending[..i][j] == m;
          assert pending[j] == m;
        } else {
          var j :| 0 <= j < |pending[i + 1..]| && pending[i + 1..][j] == m;
          assert pending[i + 1 + j] == m;
        }
      }
    }
  }

  /** Only a pending user message whose one embed has the embed's title is ever edited. */
  lemma {:induction false} EmbedPassEditsOnlyMatches(embeds: seq<Embed>, existing: seq<Message>, throttled: bool)
    ensures var s := EmbedPass(embeds, existing, throttled);
      && |s.pending| <= |existing|
      && (forall m :: m in s.pending ==> m in existing)
      && (forall a :: a in s.acts && a.Modify? ==>
            exists m :: m in existing && m.id == a.msgId && m.isUserMessage && Matches(m, a.embed))
    decreases |embeds|
  {
    if embeds != [] {
      var front := embeds[..|embeds| - 1];
      EmbedPassEditsOnlyMatches(front, existing, throttled);
      var s := EmbedPass(front, existing, throttled);
      var e := embeds[|embeds| - 1];
      RemainingShrinks(s.pending, e);
      var i := FirstMatch(s.pending, e);
      if i < |s.pending| {
        assert s.pending[i] in existing;
      }
      var s' := Step(s, e, |embeds| - 1, throttled);
      forall a | a in s'.acts && a.Modify?
        ensures exists m :: m in existing && m.id == a.msgId && m.isUserMessage && Matches(m, a.embed)
      {
        if a !in s.acts {
          assert a == Answer(s.pending, e);
          assert s.pending[i] in existing;
        }
      }
    }
  }

  /** The number of waits: one per started group of five embeds when throttled, none otherwise. */
  lemma ThrottleDelays(embeds: seq<Embed>, existing: seq<Message>, throttled: bool)
    ensures DelayCount(Reconciliation(embeds, existing, throttled)) == if throttled then (|embeds| + 4) / 5 else 0
  {
    EmbedPassDelays(embeds, existing, throttled);
    var s := EmbedPass(embeds, existing, throttled);
    FiltersAppend(s.acts, Deletions(s.pending));
    DeletionsFilters(s.pending);
  }

  /** The actions for the first `j` embeds begin the actions for all of them. */
  lemma {:induction false} EmbedPassPrefix(embeds: seq<Embed>, existing: seq<Message>, throttled: bool, j: nat)
    requires j <= |embeds|
    ensures |EmbedPass(embeds[..j], existing, throttled).acts| <= |EmbedPass(embeds, existing, throttled).acts|
    ensures EmbedPass(embeds, existing, throttled).acts[..|EmbedPass(embeds[..j], existing, throttled).acts|] ==
      EmbedPass(embeds[..j], existing, throttled).acts
    decreases |embeds|
  {
    if j == |embeds| {
      assert embeds[..j] == embeds;
    } else {
      var front := embeds[..|embeds| - 1];
      assert front[..j] == embeds[..j];
      EmbedPassPrefix(front, existing, throttled, j);
      var f := EmbedPass(front, existing, throttled).acts;
      var acts := EmbedPass(embeds, existing, throttled).acts;
      assert acts[..|f|] == f;
      var p := EmbedPass(embeds[..j], existing, throttled).acts;
      assert acts[..|p|] == f[..|p|];
    }
  }

  /** The pass over one more embed adds the actions for that embed. */
  lemma PassOneMore(embeds: seq<Embed>, existing: seq<Message>, throttled: bool, k: nat)
    requires k < |embeds|
    ensures var before := EmbedPass(embeds[..k], existing, throttled);
      EmbedPass(embeds[..k + 1], existing, throttled).acts ==
        before.acts + (DelayBefore(k, throttled) + [Answer(before.pending, embeds[k])])
  {
    var upTo := embeds[..k + 1];
    assert upTo[..k] == embeds[..k];
  }

  /** A list that begins with `p + own` holds `p` and then the elements of `own`. */
  lemma PrefixParts<T>(acts: seq<T>, p: seq<T>, own: seq<T>)
    requires |p| + |own| <= |acts| && acts[..|p| + |own|] == p + own
    ensures acts[..|p|] == p
    ensures forall i :: 0 <= i < |own| ==> acts[|p| + i] == own[i]
  {
    assert acts[..|p|] == (acts[..|p| + |own|])[..|p|];
    forall i | 0 <= i < |own| ensures acts[|p| + i] == own[i] {
      assert acts[|p| + i] == (acts[..|p| + |own|])[|p| + i];
    }
  }

  /**
   * After the first `n` actions, a `Delay` stands exactly when `k` is a
   * multiple of five, and then comes the edit or post of `e`.
   */
  predicate WaitsThenAnswers(acts: seq<Action>, n: nat, k: nat, e: Embed)
  {
    var d := if k % 5 == 0 then 1 else 0;
    && n + d < |acts|
    && (acts[n] == Delay <==> k % 5 == 0)
    && (acts[n + d].Modify? || acts[n + d].Send?)
    && acts[n + d].embed == e
  }

  /**
   * Where a throttled pass waits: the actions for the first `k` embeds, which
   * answer exactly those embeds, are followed by a `Delay` exactly when `k` is
   * a multiple of five, and then by the answer to embed `k`.
   */
  lemma DelayBeforeEveryFifth(embeds: seq<Embed>, existing: seq<Message>, k: nat)
    requires k < |embeds|
    ensures AnsweredEmbeds(EmbedPass(embeds[..k], existing, true).acts) == embeds[..k]
    ensures WaitsThenAnswers(EmbedPass(embeds, existing, true).acts, |EmbedPass(embeds[..k], existing, true).acts|, k, embeds[k])
  {
    var acts := EmbedPass(embeds, existing, true).acts;
    var before := EmbedPass(embeds[..k], existing, true);
    var answer := Answer(before.pending, embeds[k]);
    var own := DelayBefore(k, true) + [answer];
    PassOneMore(embeds, existing, true, k);
    EmbedPassPrefix(embeds, existing, true, k + 1);
    PrefixParts(acts, before.acts, own);
    EmbedPassAnswers(embeds[..k], existing, true);
    var n := |before.acts|;
    assert (answer.Modify? || answer.Send?) && answer.embed == embeds[k];
    if k % 5 == 0 {
      assert own == [Delay, answer];
      assert acts[n + 0] == own[0] && acts[n + 1] == own[1];
    } else {
      assert own == [answer];
      assert acts[n + 0] == own[0];
    }
  }

  lemma {:induction false} EmbedPassDelays(embeds: seq<Embed>, existing: seq<Message>, throttled: bool)
    ensures DelayCount(EmbedPass(embeds, existing, throttled).acts) == if throttled then (|embeds| + 4) / 5 else 0
    decreases |embeds|
  {
    if embeds != [] {
      var front, last := embeds[..|embeds| - 1], embeds[|embeds| - 1];
      var before := EmbedPass(front, existing, throttled);
      EmbedPassDelays(front, existing, throttled);
      StepDelays(before, last, |embeds| - 1, throttled);
      if throttled {
        OneMoreDelayEveryFive(|embeds| - 1);
      }
    }
  }

  /** With no messages to edit, the embed pass posts each embed and keeps nothing pending. */
  lemma {:induction false} EmptyChannelPass(embeds: seq<Embed>)
    ensures EmbedPass(embeds, [], false) == PassState(seq(|embeds|, k requires 0 <= k < |embeds| => Send(embeds[k])), [])
    decreases |embeds|
  {
    if embeds != [] {
      var front, last := embeds[..|embeds| - 1], embeds[|embeds| - 1];
      var before := EmbedPass(front, [], false);
      EmptyChannelPass(front);
      assert EmbedPass(embeds, [], false) == Step(before, last, |embeds| - 1, false);
      assert Answer([], last) == Send(last) && Remaining([], last) == [];
      assert DelayBefore(|embeds| - 1, false) == [];
      var sends := seq(|embeds|, k requires 0 <= k < |embeds| => Send(embeds[k]));
      assert sends == before.acts + [Send(last)];
    }
  }

  /** A channel with no messages gets every embed as a new message, in order. */
  lemma EmptyChannelSendsAll(embeds: seq<Embed>)
    ensures Reconciliation(embeds, [], false) == seq(|embeds|, k requires 0 <= k < |embeds| => Send(embeds[k]))
  {
    EmptyChannelPass(embeds);
    var acts := EmbedPass(embeds, [], false).acts;
    assert Deletions([]) == [] && acts + [] == acts;
  }

  // ---------------------------------------------------------------------------
  // The configured channels

  /** What `_client.GetChannel(Convert.ToUInt64(id))` gives for a configured id. */
  datatype ChannelLookup =
    | BadChannelId             // `Convert.ToUInt64` throws; nothing catches it
    | NotTextChannel           // null, or not an `ITextChannel`
    | TextChannel(channelId: nat)

  /** The actions of the update made for the configuration entry at position `entry`. */
  datatype ChannelUpdate = ChannelUpdate(entry: nat, channelId: nat, actions: seq<Action>)

  /** A pass over the configured channels: the updates made, and whether it ended in an exception. */
  datatype Pass = Pass(updates: seq<ChannelUpdate>, aborted: bool)

  function PassAfter(done: seq<ChannelUpdate>, p: Pass): Pass
  {
    Pass(done + p.updates, p.aborted)
  }

  /**
   * The `foreach` over the configured ids, the first of them at position
   * `start` of the configuration: each text channel updated as
   * `plan(entry, channel)` says, non-text ones skipped, and the pass ended by
   * an id that does not convert. Every visit fetches its data and the
   * channel's messages afresh, so the plan depends on the entry, not only on
   * the channel: a channel configured twice is visited twice.
   */
  function ConfigPass(ids: seq<string>, start: nat, lookup: string -> ChannelLookup, plan: (nat, nat) -> seq<Action>): Pass
  {
    if ids == [] then Pass([], false)
    else match lookup(ids[0])
      case BadChannelId => Pass([], true)
      case NotTextChannel => ConfigPass(ids[1..], start + 1, lookup, plan)
      case TextChannel(c) => PassAfter([ChannelUpdate(start, c, plan(start, c))], ConfigPass(ids[1..], start + 1, lookup, plan))
  }

  /** `GetConfigAsync` returning null or an empty list ends the update before any channel is touched. */
  function UpdateAllSpec(config: Option<seq<string>>, lookup: string -> ChannelLookup, plan: (nat, nat) -> seq<Action>): Pass
  {
    if config.None? || config.value == [] then Pass([], false) else ConfigPass(config.value, 0, lookup, plan)
  }

  /** The loop over the configured channels. */
  method UpdateAll(config: Option<seq<string>>, lookup: string -> ChannelLookup, plan: (nat, nat) -> seq<Action>) returns (p: Pass)
    ensures p == UpdateAllSpec(config, lookup, plan)
  {
    if config.None? || |config.value| == 0 {
      return Pass([], false);
    }
    var ids := config.value;
    var done: seq<ChannelUpdate> := [];
    var i := 0;
    while i < |ids|
      invariant 0 <= i <= |ids|
      invariant ConfigPass(ids, 0, lookup, plan) == PassAfter(done, ConfigPass(ids[i..], i, lookup, plan))
    {
      assert ids[i..][1..] == ids[i + 1..];
      match lookup(ids[i]) {
        case BadChannelId =>
          return Pass(done, true);
        case NotTextChannel =>
        case TextChannel(c) =>
          var update := ChannelUpdate(i, c, plan(i, c));
          assert done + ([update] + ConfigPass(ids[i + 1..], i + 1, lookup, plan).updates)
            == (done + [update]) + ConfigPass(ids[i + 1..], i + 1, lookup, plan).updates;
          done := done + [update];
      }
      i := i + 1;
    }
    assert done + [] == done;
    return Pass(done, false);
  }

  /** Channels are updated in configuration order, the non-text ones left out, up to the first bad id. */
  lemma {:induction false} ConfigPassAppend(a: seq<string>, b: seq<string>, start: nat, lookup: string -> ChannelLookup, plan: (nat, nat) -> seq<Action>)
    requires !ConfigPass(a, start, lookup, plan).aborted
    ensures ConfigPass(a + b, start, lookup, plan) == PassAfter(ConfigPass(a, start, lookup, plan).updates, ConfigPass(b, start + |a|, lookup, plan))
    decreases |a|
  {
    if a == [] {
      assert a + b == b;
    } else {
      assert (a + b)[0] == a[0] && (a + b)[1..] == a[1..] + b;
      match lookup(a[0])
      case BadChannelId =>
      case NotTextChannel =>
        ConfigPassAppend(a[1..], b, start + 1, lookup, plan);
      case TextChannel(c) =>
        ConfigPassAppend(a[1..], b, start + 1, lookup, plan);
        var update := ChannelUpdate(start, c, plan(start, c));
        assert [update] + (ConfigPass(a[1..], start + 1, lookup, plan).updates + ConfigPass(b, start + |a|, lookup, plan).updates)
          == ([update] + ConfigPass(a[1..], start + 1, lookup, plan).updates) + ConfigPass(b, start + |a|, lookup, plan).updates;
    }
  }

  /** A channel that is not a text channel changes nothing. */
  lemma NonTextChannelSkipped(id: string, rest: seq<string>, start: nat, lookup: string -> ChannelLookup, plan: (nat, nat) -> seq<Action>)
    requires lookup(id) == NotTextChannel
    ensures ConfigPass([id] + rest, start, lookup, plan) == ConfigPass(rest, start + 1, lookup, plan)
  {
    assert ([id] + rest)[1..] == rest;
  }

  /** `u` is the update for an entry of `ids` (the first at position `start`) naming a text channel, made as planned. */
  predicate FollowsEntry(ids: seq<string>, start: nat, lookup: string -> ChannelLookup, plan: (nat, nat) -> seq<Action>, u: ChannelUpdate)
  {
    && start <= u.entry < start + |ids|
    && lookup(ids[u.entry - start]) == TextChannel(u.channelId)
    && u.actions == plan(u.entry, u.channelId)
  }

  lemma FollowsEntryShift(ids: seq<string>, start: nat, lookup: string -> ChannelLookup, plan: (nat, nat) -> seq<Action>, u: ChannelUpdate)
    requires |ids| >= 1 && FollowsEntry(ids[1..], start + 1, lookup, plan, u)
    ensures FollowsEntry(ids, start, lookup, plan, u) && u.entry > start
  {
    assert ids[1..][u.entry - (start + 1)] == ids[u.entry - start];
  }

  /**
   * Every update the pass makes is for a configuration entry that names a
   * text channel and follows the plan for that entry; the updates come in
   * the order of the entries.
   */
  lemma {:induction false} ConfigPassOnlyTextChannels(ids: seq<string>, start: nat, lookup: string -> ChannelLookup, plan: (nat, nat) -> seq<Action>)
    ensures forall k :: 0 <= k < |ConfigPass(ids, start, lookup, plan).updates| ==>
      FollowsEntry(ids, start, lookup, plan, ConfigPass(ids, start, lookup, plan).updates[k])
    ensures forall k :: 1 <= k < |ConfigPass(ids, start, lookup, plan).updates| ==>
      ConfigPass(ids, start, lookup, plan).updates[k - 1].entry < ConfigPass(ids, start, lookup, plan).updates[k].entry
    decreases |ids|
  {
    if ids != [] {
      ConfigPassOnlyTextChannels(ids[1..], start + 1, lookup, plan);
      var rest := ConfigPass(ids[1..], start + 1, lookup, plan).updates;
      forall k | 0 <= k < |rest| ensures FollowsEntry(ids, start, lookup, plan, rest[k]) && rest[k].entry > start {
        FollowsEntryShift(ids, start, lookup, plan, rest[k]);
      }
      match lookup(ids[0])
      case BadChannelId =>
      case NotTextChannel =>
      case TextChannel(c) =>
        var updates := ConfigPass(ids, start, lookup, plan).updates;
        assert updates == [ChannelUpdate(start, c, plan(start, c))] + rest;
        forall k | 1 <= k < |updates| ensures updates[k] == rest[k - 1] { }
    }
  }

  /** A channel configured twice is updated twice, each visit with the plan for its own entry. */
  lemma RepeatedChannelVisitedTwice(id: string, c: nat, lookup: string -> ChannelLookup, plan: (nat, nat) -> seq<Action>)
    requires lookup(id) == TextChannel(c)
    ensures UpdateAllSpec(Some([id, id]), lookup, plan) == Pass([ChannelUpdate(0, c, plan(0, c)), ChannelUpdate(1, c, plan(1, c))], false)
  {
    var ids := [id, id];
    var once := [id];
    assert ids[1..] == once && once[1..] == [];
    assert ConfigPass(once, 1, lookup, plan) == Pass([ChannelUpdate(1, c, plan(1, c))], false);
    assert ConfigPass(ids, 0, lookup, plan) == PassAfter([ChannelUpdate(0, c, plan(0, c))], ConfigPass(once, 1, lookup, plan));
  }

  /** A missing or empty configuration touches no channel at all. */
  lemma NoConfigNoUpdate(config: Option<seq<string>>, lookup: string -> ChannelLookup, plan: (nat, nat) -> seq<Action>)
    requires config.None? || config.value == []
    ensures UpdateAllSpec(config, lookup, plan) == Pass([], false)
  {
  }
}
