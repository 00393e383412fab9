/** What a call of the watch channel's receiver returns: a value, nothing new, or that the channel is closed. */
module WatchCalls {
  import opened Bytes
  import opened Watch
  import opened WatchDelivery

  /** `Ok(Some(v))` or `Ok(v)`, `Ok(None)`, and `Err(ChannelClosed)`. */
  datatype Outcome<T> = Value(v: T) | NothingNew | Closed

  /** The points at which a call looks whether the sender is alive. */
  predicate ChecksAlive(pc: ReceiverPc) {
    pc.CheckAlive? || pc.RecheckAlive?
  }

  /** What the receiver's next step returns, or none if its call goes on. */
  function Returned<T>(c: Chan<T>, r: nat): Option<Outcome<T>>
    requires r in c.receivers
  {
    var rec := c.receivers[r];
    if Reading(rec.pc) && c.history != [] then Some(Value(c.history[|c.history| - 1]))
    else if ChecksAlive(rec.pc) && !c.alive then Some(Closed)
    else if rec.pc == LoadId(Get) && rec.last == c.id then Some(NothingNew)
    else None
  }

  /** A step returns something exactly when the call is over after it, and it is a value exactly when it is one of the
      two reads, whose version is then recorded. */
  lemma CallEndsIff<T>(c: Chan<T>, r: nat)
    requires c.history != [] && ReceiverEnabled(c, r)
    ensures Returned(c, r).Some? <==> ApplyReceiver(c, r).receivers[r].pc.Idle?
    ensures (Returned(c, r).Some? && Returned(c, r).value.Value?) <==> Delivers(c, r)
    ensures Delivers(c, r) ==> ApplyReceiver(c, r).receivers[r].got == c.Version()
    ensures !Delivers(c, r) ==> ApplyReceiver(c, r).receivers[r].got == c.receivers[r].got
  {
  }

  // ---------------------------------------------------------------------------------------------
  // Whole calls

  /** Receiver `r` is inside a call that none of the actions ends. */
  ghost predicate UnderWay<T>(c: Chan<T>, acts: seq<Action<T>>, r: nat)
    requires Runs(c, acts)
    decreases |acts|
  {
    && r in c.receivers && !c.receivers[r].pc.Idle?
    && (acts == [] ||
        (!(acts[0] == ReceiverStep(r) && Returned(c, r).Some?) && UnderWay(Apply(c, acts[0]), acts[1..], r)))
  }

  /** At some step of `r` among the actions, it checked whether the sender is alive, and it was not. */
  ghost predicate SawDead<T>(c: Chan<T>, acts: seq<Action<T>>, r: nat)
    requires Runs(c, acts)
    decreases |acts|
  {
    acts != [] &&
    (|| (acts[0] == ReceiverStep(r) && r in c.receivers && ChecksAlive(c.receivers[r].pc) && !c.alive)
     || SawDead(Apply(c, acts[0]), acts[1..], r))
  }

  /** At some step of `r` among the actions, `get_changed` loaded the id it had recorded. */
  ghost predicate SawOldId<T>(c: Chan<T>, acts: seq<Action<T>>, r: nat)
    requires Runs(c, acts)
    decreases |acts|
  {
    acts != [] &&
    (|| (acts[0] == ReceiverStep(r) && r in c.receivers && c.receivers[r].pc == LoadId(Get)
         && c.receivers[r].last == c.id)
     || SawOldId(Apply(c, acts[0]), acts[1..], r))
  }

  lemma HistoryStays<T>(c: Chan<T>, a: Action<T>)
    requires c.history != [] && Enabled(c, a)
    ensures Apply(c, a).history != []
  {
  }

  /** How a call ends: it is closed exactly when the sender was dead at one of its checks, it has nothing new exactly
      when it is a `get_changed` that loaded the recorded id, and otherwise it is the value held at its read. */
  lemma {:induction false} CallOutcome<T>(c: Chan<T>, acts: seq<Action<T>>, r: nat)
    requires c.history != [] && Runs(c, acts) && UnderWay(c, acts, r)
    requires ReceiverEnabled(After(c, acts), r) && Returned(After(c, acts), r).Some?
    ensures Runs(c, acts + [ReceiverStep(r)])
    ensures var d, all := After(c, acts), acts + [ReceiverStep(r)];
      && d.history != []
      && (Returned(d, r).value == Closed <==> SawDead(c, all, r))
      && (Returned(d, r).value == NothingNew <==> SawOldId(c, all, r))
      && (!SawDead(c, all, r) && !SawOldId(c, all, r)
          ==> Returned(d, r).value == Value(d.history[|d.history| - 1]))
    decreases |acts|
  {
    var all := acts + [ReceiverStep(r)];
    if acts == [] {
      assert all == [ReceiverStep(r)] && all[1..] == [];
    } else {
      hide Apply, Enabled, ReceiverEnabled, Returned;
      var d := Apply(c, acts[0]);
      HistoryStays(c, acts[0]);
      assert all[1..] == acts[1..] + [ReceiverStep(r)];
      CallOutcome(d, acts[1..], r);
      NoVerdict(c, r, acts[0]);
    }
  }

  lemma NoVerdict<T>(c: Chan<T>, r: nat, a: Action<T>)
    requires c.history != [] && r in c.receivers && (a == ReceiverStep(r) ==> Returned(c, r).None?)
    ensures a == ReceiverStep(r) && ChecksAlive(c.receivers[r].pc) ==> c.alive
    ensures !(a == ReceiverStep(r) && c.receivers[r].pc == LoadId(Get) && c.receivers[r].last == c.id)
  {
  }

  /** The points of `wait_for_change`. */
  predicate Waiting(pc: ReceiverPc) {
    match pc
    case Idle => false
    case CheckAlive(call) => call != Get
    case LoadId(call) => call != Get
    case ReadValue(call) => call != Get
    case _ => true
  }

  lemma WaitingGoesOn<T>(c: Chan<T>, a: Action<T>, r: nat)
    requires c.history != [] && Enabled(c, a) && r in c.receivers && Waiting(c.receivers[r].pc)
    ensures Apply(c, a).history != []
    ensures r in Apply(c, a).receivers
    ensures !(a == ReceiverStep(r) && Returned(c, r).Some?) ==> Waiting(Apply(c, a).receivers[r].pc)
    ensures !(a == ReceiverStep(r) && c.receivers[r].pc == LoadId(Get))
  {
  }

  /** `wait_for_change` never comes back with nothing new: it is closed, or it has a value. */
  lemma {:induction false} WaitHasNews<T>(c: Chan<T>, acts: seq<Action<T>>, r: nat)
    requires c.history != [] && Runs(c, acts) && UnderWay(c, acts, r) && Waiting(c.receivers[r].pc)
    ensures r in After(c, acts).receivers && Waiting(After(c, acts).receivers[r].pc)
    ensures !SawOldId(c, acts, r)
    decreases |acts|
  {
    if acts != [] {
      hide Apply, Enabled, Returned, Waiting;
      WaitingGoesOn(c, acts[0], r);
      WaitHasNews(Apply(c, acts[0]), acts[1..], r);
    }
  }

  // ---------------------------------------------------------------------------------------------
  // After the sender is gone

  /** Past a check of the sender, on the way to a read. */
  predicate PastCheck(pc: ReceiverPc) {
    pc.LoadId? || pc.ReadValue? || pc.ReloadId? || pc.ReadAfterWait?
  }

  /** None of the actions gives receiver `r` a value. */
  ghost predicate NoDelivery<T>(c: Chan<T>, acts: seq<Action<T>>, r: nat)
    requires Runs(c, acts)
    decreases |acts|
  {
    acts == [] ||
    (!(acts[0] == ReceiverStep(r) && Delivers(c, r)) && NoDelivery(Apply(c, acts[0]), acts[1..], r))
  }

  lemma DeadStep<T>(c: Chan<T>, a: Action<T>, r: nat)
    requires Enabled(c, a) && !c.alive && (r in c.receivers ==> !PastCheck(c.receivers[r].pc))
    ensures !Apply(c, a).alive
    ensures r in Apply(c, a).receivers ==> !PastCheck(Apply(c, a).receivers[r].pc)
    ensures !(a == ReceiverStep(r) && Delivers(c, r))
  {
  }

  /** Once the sender is gone no run delivers anything to a receiver that is not past its check already. */
  lemma {:induction false} ClosedDeliversNothing<T>(c: Chan<T>, acts: seq<Action<T>>, r: nat)
    requires Runs(c, acts) && !c.alive && (r in c.receivers ==> !PastCheck(c.receivers[r].pc))
    ensures NoDelivery(c, acts, r)
    ensures !After(c, acts).alive
    decreases |acts|
  {
    if acts != [] {
      hide Apply, Enabled, Delivers, PastCheck;
      DeadStep(c, acts[0], r);
      ClosedDeliversNothing(Apply(c, acts[0]), acts[1..], r);
    }
  }

  /** So a call that such a receiver has under way can only end closed. */
  lemma DeadCallIsClosed<T>(c: Chan<T>, acts: seq<Action<T>>, r: nat)
    requires c.history != [] && Runs(c, acts) && UnderWay(c, acts, r) && !c.alive && !PastCheck(c.receivers[r].pc)
    requires ReceiverEnabled(After(c, acts), r) && Returned(After(c, acts), r).Some?
    ensures Returned(After(c, acts), r).value == Closed
  {
    DeadUntilCheck(c, acts, r);
  }

  lemma {:induction false} DeadUntilCheck<T>(c: Chan<T>, acts: seq<Action<T>>, r: nat)
    requires Runs(c, acts) && UnderWay(c, acts, r) && !c.alive && !PastCheck(c.receivers[r].pc)
    ensures !After(c, acts).alive && r in After(c, acts).receivers && !PastCheck(After(c, acts).receivers[r].pc)
    decreases |acts|
  {
    if acts != [] {
      DeadUntilCheck(Apply(c, acts[0]), acts[1..], r);
    }
  }

  /** The points after the wake-up. */
  predicate AfterWake(pc: ReceiverPc) {
    pc.Woken? || pc.RecheckAlive? || pc.ReloadId? || pc.ReadAfterWait?
  }

  lemma {:induction false} AliveBefore<T>(c: Chan<T>, acts: seq<Action<T>>)
    requires Runs(c, acts) && After(c, acts).alive
    ensures c.alive
    decreases |acts|
  {
    if acts != [] {
      AliveBefore(Apply(c, acts[0]), acts[1..]);
    }
  }

  lemma AfterWakeGoesOn<T>(c: Chan<T>, a: Action<T>, r: nat)
    requires Enabled(c, a) && r in c.receivers && AfterWake(c.receivers[r].pc)
    requires !(a == ReceiverStep(r) && Returned(c, r).Some?) && c.history != []
    ensures r in Apply(c, a).receivers && AfterWake(Apply(c, a).receivers[r].pc) && Apply(c, a).history != []
  {
  }

  /** While the sender lives, a woken receiver that runs on is given a value: its call ends in no other way. */
  lemma {:induction false} WokenGetsValue<T>(c: Chan<T>, acts: seq<Action<T>>, r: nat)
    requires c.history != [] && Runs(c, acts) && UnderWay(c, acts, r) && AfterWake(c.receivers[r].pc)
    requires ReceiverEnabled(After(c, acts), r) && Returned(After(c, acts), r).Some? && After(c, acts).alive
    ensures var d := After(c, acts);
      && Delivers(d, r) && d.history != [] && Returned(d, r).value == Value(d.history[|d.history| - 1])
    decreases |acts|
  {
    if acts != [] {
      AfterWakeGoesOn(c, acts[0], r);
      hide Apply, Enabled, Returned, AfterWake;
      WokenGetsValue(Apply(c, acts[0]), acts[1..], r);
    }
  }

  /** The receiver waits with nothing new, the sender is dropped, the notification wakes the receiver: its call is
      closed, from every state with the locks free and no send under way. */
  lemma DropWhileWaiting<T>(c: Chan<T>, r: nat, s: nat)
    requires IsIdle(c, r) && c.alive && c.receivers[r].last == c.id && c.mutex.Free? && c.senders == map[]
    ensures var acts := FallAsleep(r) + [Action.DropSender(s)] + NotifyAll(s) + [ReceiverStep(r)];
      && Runs(c, acts) && ReceiverEnabled(After(c, acts), r) && Returned(After(c, acts), r) == Some(Closed)
  {
    hide Runs, After, FallAsleep, NotifyAll;
    FallAsleepRuns(c, r);
    var d := After(c, FallAsleep(r));
    RunOne(d, Action.DropSender(s));
    RunConcat(c, FallAsleep(r), [Action.DropSender(s)]);
    var e := Apply(d, Action.DropSender(s));
    NotifyAllRuns(e, s);
    RunConcat(c, FallAsleep(r) + [Action.DropSender(s)], NotifyAll(s));
    var f := After(e, NotifyAll(s));
    RunOne(f, ReceiverStep(r));
    RunConcat(c, FallAsleep(r) + [Action.DropSender(s)] + NotifyAll(s), [ReceiverStep(r)]);
  }

  lemma ToldAtLast<T>(c: Chan<T>, r: nat, s: nat)
    requires !c.alive && r in c.receivers && c.receivers[r].pc.Woken?
    requires c.mutex == BySender(s) && s in c.senders && c.senders[s].Notified?
    ensures var acts := [SenderStep(s), ReceiverStep(r)];
      && Runs(c, acts) && ReceiverEnabled(After(c, acts), r) && Returned(After(c, acts), r) == Some(Closed)
  {
    hide Runs, After;
    RunTwo(c, SenderStep(s), ReceiverStep(r));
  }

  /** From every state of the invariant in which the sender is gone, a sleeper's call can be brought to its end, and
      it is closed. */
  lemma SleeperIsTold<T>(c: Chan<T>, r: nat) returns (acts: seq<Action<T>>)
    requires Inv(c) && !c.alive && r in c.receivers && c.receivers[r].pc.Asleep?
    ensures Runs(c, acts) && ReceiverEnabled(After(c, acts), r) && Returned(After(c, acts), r) == Some(Closed)
  {
    assert AtRisk(c, c.receivers[r]);
    hide Runs, After, Inv, ReceiverEnabled, Returned;
    var wake := WakeUpIsReachable(c, r);
    ClosedDeliversNothing(c, wake, r);
    var d := After(c, wake);
    var s := d.mutex.s;
    ToldAtLast(d, r, s);
    RunConcat(c, wake, [SenderStep(s), ReceiverStep(r)]);
    acts := wake + [SenderStep(s), ReceiverStep(r)];
  }

  // ---------------------------------------------------------------------------------------------
  // A call on its own

  /** `get_changed` with nobody else running, up to its last step. */
  function GetAlone<T>(c: Chan<T>, r: nat): seq<Action<T>>
    requires r in c.receivers
  {
    if !c.alive then [BeginGet(r)]
    else if c.receivers[r].last == c.id then [BeginGet(r), ReceiverStep(r)]
    else GetUntilRead(r)
  }

  /** On its own `get_changed` is closed if the sender is gone, has nothing new if the id is the recorded one, and
      otherwise returns the newest value. */
  lemma GetAloneReturns<T>(c: Chan<T>, r: nat)
    requires IsIdle(c, r) && c.history != [] && c.writer.Free?
    ensures var acts := GetAlone(c, r);
      && Runs(c, acts) && ReceiverEnabled(After(c, acts), r)
      && Returned(After(c, acts), r)
         == if !c.alive then Some(Closed)
            else if c.receivers[r].last == c.id then Some(NothingNew)
            else Some(Value(c.history[|c.history| - 1]))
  {
    hide Runs, After;
    if !c.alive {
      RunOne(c, BeginGet(r));
    } else if c.receivers[r].last == c.id {
      RunTwo(c, BeginGet(r), ReceiverStep(r));
    } else {
      GetUntilReadRuns(c, r);
    }
  }

  /** A fresh channel gives its initial value first. */
  lemma FirstGetIsInitial<T>(init: T)
    ensures var c := Channel(init);
      && Runs(c, GetAlone(c, 0)) && ReceiverEnabled(After(c, GetAlone(c, 0)), 0)
      && Returned(After(c, GetAlone(c, 0)), 0) == Some(Value(init))
  {
    GetAloneReturns(Channel(init), 0);
  }

  /** A clone is told what the receiver it was made from would be told. */
  lemma CloneIsToldTheSame<T>(c: Chan<T>, r: nat, child: nat)
    requires IsIdle(c, r) && child !in c.receivers && c.history != [] && c.writer.Free?
    ensures var d := Apply(c, CloneReceiver(r, child));
      && Runs(c, GetAlone(c, r)) && r in After(c, GetAlone(c, r)).receivers
      && Runs(d, GetAlone(d, child)) && child in After(d, GetAlone(d, child)).receivers
      && Returned(After(d, GetAlone(d, child)), child) == Returned(After(c, GetAlone(c, r)), r)
  {
    hide Runs, After, GetAlone;
    GetAloneReturns(c, r);
    GetAloneReturns(Apply(c, CloneReceiver(r, child)), child);
  }
}
