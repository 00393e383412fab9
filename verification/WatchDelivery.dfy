/** When a delivery of the watch channel repeats the one before: exactly when nothing was stored in between.
    Two runs that do repeat one, and the condition at each point where a receiver decides to read. */
module WatchDelivery {
  import opened Watch

  // ---------------------------------------------------------------------------------------------
  // Repeated deliveries

  /** The step stores a value. */
  ghost predicate Stores<T>(c: Chan<T>, a: Action<T>) {
    a.SenderStep? && a.s in c.senders && c.senders[a.s].Writing?
  }

  /** Receiver `r` is about to be given a value. */
  ghost predicate Delivers<T>(c: Chan<T>, r: nat) {
    ReceiverEnabled(c, r) && Reading(c.receivers[r].pc)
  }

  /** The version that this delivery gives. */
  function Delivered<T>(c: Chan<T>, r: nat): nat
    requires ReceiverEnabled(c, r)
  {
    ApplyReceiver(c, r).receivers[r].got
  }

  /** A value is given only with its id published: over every run the version delivered is that of the current id. */
  lemma DeliveredIsPublished<T>(init: T, acts: seq<Action<T>>, r: nat)
    requires Runs(Channel(init), acts) && Delivers(After(Channel(init), acts), r)
    ensures Delivered(After(Channel(init), acts), r) == After(Channel(init), acts).id
  {
    StartsInInv(init);
    RunKeepsInv(Channel(init), acts);
  }

  ghost predicate NoStore<T>(c: Chan<T>, acts: seq<Action<T>>)
    requires Runs(c, acts)
    decreases |acts|
  {
    acts == [] || (!Stores(c, acts[0]) && NoStore(Apply(c, acts[0]), acts[1..]))
  }

  /** Receiver `r` stays and is given nothing. */
  ghost predicate Undelivered<T>(c: Chan<T>, acts: seq<Action<T>>, r: nat)
    requires Runs(c, acts)
    decreases |acts|
  {
    acts == [] ||
    (var a := acts[0];
     && !(a.ReceiverStep? && a.r == r && Delivers(c, r))
     && !(a.DropReceiver? && a.r == r)
     && Undelivered(Apply(c, a), acts[1..], r))
  }

  lemma StepVersion<T>(c: Chan<T>, a: Action<T>)
    requires Enabled(c, a)
    ensures Apply(c, a).Version() == c.Version() + if Stores(c, a) then 1 else 0
  {
  }

  /** The version counts the stores. */
  lemma {:induction false} VersionKeptIff<T>(c: Chan<T>, acts: seq<Action<T>>)
    requires Runs(c, acts)
    ensures c.Version() <= After(c, acts).Version()
    ensures c.Version() == After(c, acts).Version() <==> NoStore(c, acts)
    decreases |acts|
  {
    if acts != [] {
      hide Enabled, Apply, Stores;
      StepVersion(c, acts[0]);
      VersionKeptIff(Apply(c, acts[0]), acts[1..]);
    }
  }

  lemma StepKeepsGot<T>(c: Chan<T>, a: Action<T>, r: nat)
    requires Enabled(c, a) && r in c.receivers
    requires !(a.ReceiverStep? && a.r == r && Delivers(c, r)) && !(a.DropReceiver? && a.r == r)
    ensures r in Apply(c, a).receivers && Apply(c, a).receivers[r].got == c.receivers[r].got
  {
  }

  lemma {:induction false} GotKept<T>(c: Chan<T>, acts: seq<Action<T>>, r: nat)
    requires Runs(c, acts) && r in c.receivers && Undelivered(c, acts, r)
    ensures r in After(c, acts).receivers && After(c, acts).receivers[r].got == c.receivers[r].got
    decreases |acts|
  {
    if acts != [] {
      hide Enabled, Apply, Delivers;
      StepKeepsGot(c, acts[0], r);
      GotKept(Apply(c, acts[0]), acts[1..], r);
    }
  }

  /** From any state of the invariant: the next delivery repeats the version held if and only if that version is
      still the newest and nothing is stored before the delivery. */
  lemma NextDeliveryRepeatsIff<T>(c: Chan<T>, acts: seq<Action<T>>, r: nat)
    requires Inv(c) && Runs(c, acts) && r in c.receivers && Undelivered(c, acts, r) && Delivers(After(c, acts), r)
    ensures Delivered(After(c, acts), r) >= c.receivers[r].got
    ensures Delivered(After(c, acts), r) == c.receivers[r].got
            <==> c.receivers[r].got == c.Version() && NoStore(c, acts)
  {
    hide Runs, After, NoStore, Undelivered;
    assert Recorded(c, c.receivers[r]);
    VersionKeptIff(c, acts);
    GotKept(c, acts, r);
  }

  /** Exactly-once, exactly: over every run, a delivery repeats the one before if and only if no value was stored
      between the two. */
  lemma DeliveryRepeatsIff<T>(init: T, before: seq<Action<T>>, between: seq<Action<T>>, r: nat)
    requires Runs(Channel(init), before)
    requires var c := After(Channel(init), before);
      && Delivers(c, r) && Runs(ApplyReceiver(c, r), between) && Undelivered(ApplyReceiver(c, r), between, r)
      && Delivers(After(ApplyReceiver(c, r), between), r)
    ensures var c := After(Channel(init), before);
      Delivered(After(ApplyReceiver(c, r), between), r) == Delivered(c, r) <==> NoStore(ApplyReceiver(c, r), between)
  {
    hide Inv;
    StartsInInv(init);
    RunKeepsInv(Channel(init), before);
    var c := After(Channel(init), before);
    StepKeepsInv(c, ReceiverStep(r));
    NextDeliveryRepeatsIff(ApplyReceiver(c, r), between, r);
  }

  /** At the load of a new id: the read it leads to repeats the version held if and only if the record is older than
      that version, that version is still the newest, and nothing is stored before the read. */
  lemma LoadRepeatsIff<T>(c: Chan<T>, acts: seq<Action<T>>, r: nat)
    requires Inv(c) && Runs(c, acts) && r in c.receivers && Undelivered(c, acts, r) && Delivers(After(c, acts), r)
    requires c.receivers[r].pc.LoadId? && c.receivers[r].last != c.id
    ensures Delivered(After(c, acts), r) == c.receivers[r].got
            <==> && c.receivers[r].last < c.receivers[r].got
                 && c.receivers[r].got == c.Version()
                 && NoStore(c, acts)
  {
    hide Runs, After, NoStore, Undelivered;
    assert Recorded(c, c.receivers[r]);
    NextDeliveryRepeatsIff(c, acts, r);
  }

  /** A receiver goes to sleep having matched its record with the id. The read after the wait repeats the version held
      if and only if that version was the newest then and nothing is stored before the read. Unless a store was under
      way when it went to sleep, it did hold the newest. */
  lemma WakeRepeatsIff<T>(c: Chan<T>, acts: seq<Action<T>>, r: nat)
    requires Inv(c) && Runs(c, acts) && r in c.receivers && Undelivered(c, acts, r) && Delivers(After(c, acts), r)
    requires c.receivers[r].pc.EnterWait? && c.receivers[r].last == c.id
    ensures Delivered(After(c, acts), r) == c.receivers[r].got
            <==> c.receivers[r].got == c.Version() && NoStore(c, acts)
    ensures c.writer.Free? ==> (Delivered(After(c, acts), r) == c.receivers[r].got <==> NoStore(c, acts))
  {
    hide Runs, After, NoStore, Undelivered;
    assert Recorded(c, c.receivers[r]);
    NextDeliveryRepeatsIff(c, acts, r);
  }

  /** When the record matches the version held and a newer id is loaded, the version read is a new one. */
  lemma MatchedRecordDeliversNew<T>(init: T, acts: seq<Action<T>>, r: nat)
    requires Runs(Channel(init), acts)
    ensures var c := After(Channel(init), acts);
            r in c.receivers && c.receivers[r].pc.LoadId? && c.receivers[r].last == c.receivers[r].got
            && c.receivers[r].last != c.id
            ==> c.receivers[r].got < c.Version()
  {
    StartsInInv(init);
    RunKeepsInv(Channel(init), acts);
    var c := After(Channel(init), acts);
    if r in c.receivers {
      assert Recorded(c, c.receivers[r]);
    }
  }

  // ---------------------------------------------------------------------------------------------
  // Runs put together

  lemma {:induction false} RunConcat<T>(c: Chan<T>, acts: seq<Action<T>>, more: seq<Action<T>>)
    requires Runs(c, acts) && Runs(After(c, acts), more)
    ensures Runs(c, acts + more) && After(c, acts + more) == After(After(c, acts), more)
    decreases |acts|
  {
    if acts == [] {
      assert acts + more == more;
    } else {
      assert (acts + more)[1..] == acts[1..] + more;
      RunConcat(Apply(c, acts[0]), acts[1..], more);
    }
  }

  lemma RunOne<T>(c: Chan<T>, a: Action<T>)
    requires Enabled(c, a)
    ensures Runs(c, [a]) && After(c, [a]) == Apply(c, a)
  {
    assert [a][1..] == [];
  }

  lemma RunTwo<T>(c: Chan<T>, a: Action<T>, b: Action<T>)
    requires Enabled(c, a) && Enabled(Apply(c, a), b)
    ensures Runs(c, [a, b]) && After(c, [a, b]) == Apply(Apply(c, a), b)
  {
    hide Enabled, Apply;
    RunOne(c, a);
    RunOne(Apply(c, a), b);
    RunConcat(c, [a], [b]);
    assert [a] + [b] == [a, b];
  }

  /** `get_changed` up to the moment it has recorded a new id and not yet read the value. */
  function GetUntilRead<T>(r: nat): seq<Action<T>> {
    [BeginGet(r), ReceiverStep(r)] + [ReceiverStep(r)]
  }

  lemma GetUntilReadRuns<T>(c: Chan<T>, r: nat)
    requires IsIdle(c, r) && c.alive && c.receivers[r].last != c.id
    ensures Runs(c, GetUntilRead(r))
    ensures After(c, GetUntilRead(r)) == c.WithReceiver(r, c.receivers[r].(last := c.id, pc := ReadValue(Get)))
  {
    hide Runs, After;
    RunTwo(c, BeginGet(r), ReceiverStep(r));
    var d := Apply(Apply(c, BeginGet(r)), ReceiverStep(r));
    assert d == c.WithReceiver(r, c.receivers[r].(pc := LoadId(Get)));
    RunOne(d, ReceiverStep(r));
    RunConcat(c, [BeginGet(r), ReceiverStep(r)], [ReceiverStep(r)]);
  }

  /** `send` up to the release of the write lock. */
  function SendUntilUnlocked<T>(s: nat, v: T): seq<Action<T>> {
    [BeginSend(s, v), SenderStep(s)] + [SenderStep(s), SenderStep(s)] + [SenderStep(s)]
  }

  lemma SendStarts<T>(c: Chan<T>, s: nat, v: T)
    requires c.alive && s !in c.senders && c.receiverCount > 0 && c.writer.Free?
    ensures Runs(c, [BeginSend(s, v), SenderStep(s)])
    ensures After(c, [BeginSend(s, v), SenderStep(s)]) == c.WithSender(s, Writing(v)).(writer := BySender(s))
  {
    RunTwo(c, BeginSend(s, v), SenderStep(s));
  }

  lemma SendStores<T>(c: Chan<T>, s: nat, v: T)
    requires s in c.senders && c.senders[s] == Writing(v) && c.writer == BySender(s)
    ensures Runs(c, [SenderStep(s), SenderStep(s)])
    ensures After(c, [SenderStep(s), SenderStep(s)])
         == c.WithSender(s, Published).(history := c.history + [v], id := c.id + 1)
  {
    RunTwo(c, SenderStep(s), SenderStep(s));
  }

  lemma SendUntilUnlockedRuns<T>(c: Chan<T>, s: nat, v: T)
    requires c.alive && s !in c.senders && c.receiverCount > 0 && c.writer.Free?
    ensures Runs(c, SendUntilUnlocked(s, v))
    ensures After(c, SendUntilUnlocked(s, v))
         == c.WithSender(s, Unlocked).(history := c.history + [v], id := c.id + 1)
  {
    hide Runs, After;
    SendStarts(c, s, v);
    var d := After(c, [BeginSend(s, v), SenderStep(s)]);
    SendStores(d, s, v);
    RunConcat(c, [BeginSend(s, v), SenderStep(s)], [SenderStep(s), SenderStep(s)]);
    var e := After(d, [SenderStep(s), SenderStep(s)]);
    RunOne(e, SenderStep(s));
    RunConcat(c, [BeginSend(s, v), SenderStep(s)] + [SenderStep(s), SenderStep(s)], [SenderStep(s)]);
  }

  lemma ReadRuns<T>(c: Chan<T>, r: nat)
    requires r in c.receivers && c.receivers[r].pc == ReadValue(Get) && c.writer.Free?
    ensures Runs(c, [ReceiverStep(r)])
    ensures After(c, [ReceiverStep(r)]) == c.WithReceiver(r, Receiver(c.receivers[r].last, c.Version(), Idle))
  {
    RunOne(c, ReceiverStep(r));
  }

  /** The id is read before the value's lock is taken: a value stored in between is returned under the older
      id, and the next `get_changed` returns the same version again. It happens from every state in which
      an idle receiver has an unseen id and a `send` can start. */
  lemma ExactlyOnceFails<T>(c: Chan<T>, r: nat, s: nat, v: T)
    requires IsIdle(c, r) && c.receivers[r].last != c.id
    requires c.alive && s !in c.senders && c.receiverCount > 0 && c.writer.Free?
    ensures var first := GetUntilRead(r) + SendUntilUnlocked(s, v) + [ReceiverStep(r)];
            var again := GetUntilRead(r) + [ReceiverStep(r)];
            && Runs(c, first) && Runs(After(c, first), again)
            && IsIdle(After(c, first), r) && IsIdle(After(After(c, first), again), r)
            && After(c, first).receivers[r].got == c.Version() + 1
            && After(After(c, first), again).receivers[r].got == c.Version() + 1
  {
    hide Runs, After;
    GetUntilReadRuns(c, r);
    var d := After(c, GetUntilRead(r));
    SendUntilUnlockedRuns(d, s, v);
    RunConcat(c, GetUntilRead(r), SendUntilUnlocked(s, v));
    var e := After(d, SendUntilUnlocked(s, v));
    ReadRuns(e, r);
    RunConcat(c, GetUntilRead(r) + SendUntilUnlocked(s, v), [ReceiverStep(r)]);
    var f := After(e, [ReceiverStep(r)]);
    GetUntilReadRuns(f, r);
    ReadRuns(After(f, GetUntilRead(r)), r);
    RunConcat(f, GetUntilRead(r), [ReceiverStep(r)]);
  }

  /** A record older than the version held does not make a repeat by itself: after the run above and one more send,
      the version held is not the newest, and the next read is of a new one with nothing stored before it. */
  lemma OldRecordCanDeliverNew<T>(init: T, v: T, w: T)
    ensures var acts := GetUntilRead(0) + SendUntilUnlocked(0, v) + [ReceiverStep(0)] + SendUntilUnlocked(1, w);
      && Runs(Channel(init), acts)
      && var c := After(Channel(init), acts);
         && 0 in c.receivers && c.receivers[0] == Receiver(1, 2, Idle) && c.id == c.Version() == 3
         && Runs(c, GetUntilRead(0)) && Delivers(After(c, GetUntilRead(0)), 0)
         && Delivered(After(c, GetUntilRead(0)), 0) == 3
  {
    hide Runs, After;
    var c := Channel(init);
    GetUntilReadRuns(c, 0);
    var d := After(c, GetUntilRead(0));
    SendUntilUnlockedRuns(d, 0, v);
    RunConcat(c, GetUntilRead(0), SendUntilUnlocked(0, v));
    var e := After(d, SendUntilUnlocked(0, v));
    ReadRuns(e, 0);
    RunConcat(c, GetUntilRead(0) + SendUntilUnlocked(0, v), [ReceiverStep(0)]);
    var f := After(e, [ReceiverStep(0)]);
    SendUntilUnlockedRuns(f, 1, w);
    RunConcat(c, GetUntilRead(0) + SendUntilUnlocked(0, v) + [ReceiverStep(0)], SendUntilUnlocked(1, w));
    GetUntilReadRuns(After(f, SendUntilUnlocked(1, w)), 0);
  }

  // ---------------------------------------------------------------------------------------------
  // A late notification

  /** `wait_for_change` with nothing new, until it sleeps. */
  function FallAsleep<T>(r: nat): seq<Action<T>> {
    [BeginWait(r), ReceiverStep(r)] + [ReceiverStep(r), ReceiverStep(r)] + [ReceiverStep(r), ReceiverStep(r)]
    + [ReceiverStep(r)]
  }

  lemma LockToWait<T>(c: Chan<T>, r: nat)
    requires IsIdle(c, r) && c.alive && c.receivers[r].last == c.id && c.mutex.Free?
    ensures var acts := [BeginWait(r), ReceiverStep(r)] + [ReceiverStep(r), ReceiverStep(r)];
      && Runs(c, acts)
      && After(c, acts) == c.WithReceiver(r, c.receivers[r].(pc := CheckAlive(Second))).(mutex := ByReceiver(r))
  {
    hide Runs, After;
    var step := ReceiverStep(r);
    RunTwo(c, BeginWait(r), step);
    var d := After(c, [BeginWait(r), step]);
    assert d == c.WithReceiver(r, c.receivers[r].(pc := LoadId(First)));
    RunTwo(d, step, step);
    RunConcat(c, [BeginWait(r), step], [step, step]);
  }

  lemma WaitToSleep<T>(c: Chan<T>, r: nat)
    requires r in c.receivers && c.receivers[r].pc == CheckAlive(Second) && c.mutex == ByReceiver(r)
    requires c.alive && c.receivers[r].last == c.id
    ensures var acts := [ReceiverStep(r), ReceiverStep(r)] + [ReceiverStep(r)];
      Runs(c, acts) && After(c, acts) == c.WithReceiver(r, c.receivers[r].(pc := Asleep)).(mutex := Free)
  {
    hide Runs, After;
    var step := ReceiverStep(r);
    RunTwo(c, step, step);
    var d := After(c, [step, step]);
    assert d == c.WithReceiver(r, c.receivers[r].(pc := EnterWait));
    RunOne(d, step);
    RunConcat(c, [step, step], [step]);
  }

  lemma FallAsleepRuns<T>(c: Chan<T>, r: nat)
    requires IsIdle(c, r) && c.alive && c.receivers[r].last == c.id && c.mutex.Free?
    ensures Runs(c, FallAsleep(r))
    ensures After(c, FallAsleep(r)) == c.WithReceiver(r, c.receivers[r].(pc := Asleep))
  {
    hide Runs, After;
    var step := ReceiverStep(r);
    var lock := [BeginWait(r), step] + [step, step];
    var rest := [step, step] + [step];
    LockToWait(c, r);
    WaitToSleep(After(c, lock), r);
    RunConcat(c, lock, rest);
    assert FallAsleep(r) == lock + rest;
  }

  /** `wake_up_threads`. */
  function NotifyAll<T>(s: nat): seq<Action<T>> {
    [SenderStep(s), SenderStep(s)] + [SenderStep(s)]
  }

  lemma NotifyAllRuns<T>(c: Chan<T>, s: nat)
    requires s in c.senders && c.senders[s].Unlocked? && c.mutex.Free?
    ensures Runs(c, NotifyAll(s))
    ensures After(c, NotifyAll(s)) == c.(senders := c.senders - {s}, receivers := WakeAll(c.receivers))
  {
    hide Runs, After;
    RunTwo(c, SenderStep(s), SenderStep(s));
    var d := After(c, [SenderStep(s), SenderStep(s)]);
    assert d == c.WithSender(s, Notified).(receivers := WakeAll(c.receivers), mutex := BySender(s));
    RunOne(d, SenderStep(s));
    RunConcat(c, [SenderStep(s), SenderStep(s)], [SenderStep(s)]);
    assert After(d, [SenderStep(s)]).senders == c.senders - {s};
  }

  /** The woken receiver up to its read. */
  function WakeUntilRead<T>(r: nat): seq<Action<T>> {
    [ReceiverStep(r), ReceiverStep(r)] + [ReceiverStep(r)]
  }

  lemma WakeUntilReadRuns<T>(c: Chan<T>, r: nat)
    requires r in c.receivers && c.receivers[r].pc.Woken? && c.alive && c.mutex.Free?
    ensures Runs(c, WakeUntilRead(r))
    ensures After(c, WakeUntilRead(r))
         == c.WithReceiver(r, c.receivers[r].(last := c.id, pc := ReadAfterWait)).(mutex := ByReceiver(r))
  {
    hide Runs, After;
    var step := ReceiverStep(r);
    RunTwo(c, step, step);
    var d := After(c, [step, step]);
    assert d == c.WithReceiver(r, c.receivers[r].(pc := ReloadId)).(mutex := ByReceiver(r));
    RunOne(d, step);
    RunConcat(c, [step, step], [step]);
  }

  /** Asleep on a matching record, woken by the notification of a send whose value it already has. */
  lemma LateWake<T>(c: Chan<T>, r: nat, s: nat)
    requires IsIdle(c, r) && c.alive && c.receivers[r].last == c.id && c.mutex.Free? && c.writer.Free?
    requires s in c.senders && c.senders[s].Unlocked?
    ensures var acts := FallAsleep(r) + NotifyAll(s) + WakeUntilRead(r);
      && Runs(c, acts) && Delivers(After(c, acts), r)
      && Delivered(After(c, acts), r) == c.Version()
  {
    hide Runs, After, FallAsleep, NotifyAll, WakeUntilRead;
    FallAsleepRuns(c, r);
    var f := After(c, FallAsleep(r));
    NotifyAllRuns(f, s);
    RunConcat(c, FallAsleep(r), NotifyAll(s));
    var g := After(f, NotifyAll(s));
    WakeUntilReadRuns(g, r);
    RunConcat(c, FallAsleep(r) + NotifyAll(s), WakeUntilRead(r));
  }

  /** A second way to repeat, with one send, no spurious wake-up and a record that matches throughout: the value is
      stored, `get_changed` takes it, `wait_for_change` sleeps, and the late notification of the same send wakes it. */
  lemma LateNotificationRepeats<T>(c: Chan<T>, r: nat, s: nat, v: T)
    requires Inv(c) && IsIdle(c, r) && c.alive && s !in c.senders && c.receiverCount > 0
    requires c.writer.Free? && c.mutex.Free?
    ensures var first := SendUntilUnlocked(s, v) + GetUntilRead(r);
      var again := FallAsleep(r) + NotifyAll(s) + WakeUntilRead(r);
      && Runs(c, first) && Delivers(After(c, first), r)
      && var held := ApplyReceiver(After(c, first), r);
         && held.receivers[r] == Receiver(held.id, held.Version(), Idle) && held.id == held.Version()
         && Runs(held, again) && Delivers(After(held, again), r)
         && Delivered(After(held, again), r) == Delivered(After(c, first), r)
  {
    hide Runs, After, SendUntilUnlocked, GetUntilRead, FallAsleep, NotifyAll, WakeUntilRead;
    assert Recorded(c, c.receivers[r]);
    SendUntilUnlockedRuns(c, s, v);
    var d := After(c, SendUntilUnlocked(s, v));
    GetUntilReadRuns(d, r);
    RunConcat(c, SendUntilUnlocked(s, v), GetUntilRead(r));
    var e := After(d, GetUntilRead(r));
    LateWake(ApplyReceiver(e, r), r, s);
  }
}
