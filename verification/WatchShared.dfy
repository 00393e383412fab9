/** The state that the two ends of the watch channel share, updated in place one atomic step at a time.
    Each step does to the fields what the transition system of Watch does, so its theorems hold of them. */
module WatchShared {
  import opened Bytes
  import opened Watch
  import opened WatchDelivery
  import opened WatchCalls

  lemma SenderHoldsItsLocks<T>(c: Chan<T>, s: nat)
    requires Inv(c) && s in c.senders
    ensures HoldsValue(c.senders[s]) <==> c.writer == BySender(s)
    ensures InsideMutex(c.senders[s]) <==> c.mutex == BySender(s)
  {
  }

  lemma ReceiverHoldsItsLock<T>(c: Chan<T>, r: nat)
    requires Inv(c) && r in c.receivers
    ensures HoldsMutex(c.receivers[r].pc) <==> c.mutex == ByReceiver(r)
  {
  }

  /** The version recorded with a returned value names that value, now and after any further steps. */
  lemma ReturnedIsTheVersion<T>(c: Chan<T>, r: nat, acts: seq<Action<T>>)
    requires Inv(c) && ReceiverEnabled(c, r) && Delivers(c, r) && Runs(ApplyReceiver(c, r), acts)
    ensures var got := ApplyReceiver(c, r).receivers[r].got;
      var later := After(ApplyReceiver(c, r), acts).history;
      0 < got <= |later| && Returned(c, r) == Some(Value(later[got - 1]))
  {
    HistoryGrows(ApplyReceiver(c, r), acts);
  }

  class Shared<T> {
    var value: T
    var id: nat
    var receiversCount: int
    var senderAlive: bool
    var writer: Owner
    var mutex: Owner
    /** Where each call under way is about to continue. */
    var senders: map<nat, SenderPc<T>>
    var receivers: map<nat, Receiver>
    /** Every value stored so far: not in the channel, it only gives each version its value. */
    var history: seq<T>

    ghost predicate Valid()
      reads this
    {
      history != [] && value == history[|history| - 1] && Inv(View())
    }

    ghost function View(): Chan<T>
      reads this
    {
      Chan(history, id, senderAlive, receiversCount, writer, mutex, senders, receivers)
    }

    constructor (init: T)
      ensures Valid() && View() == Channel(init)
    {
      value, history, id := init, [init], 1;
      receiversCount, senderAlive := 1, true;
      writer, mutex := Free, Free;
      senders, receivers := map[], map[0 := Receiver(0, 0, Idle)];
      new;
      StartsInInv(init);
    }

    /** `send`: refused, with nothing changed, exactly when no receiver is left. */
    method Send(s: nat, v: T) returns (ok: bool)
      requires Valid() && senderAlive && s !in senders
      modifies `senders
      ensures Valid() && (ok <==> receiversCount > 0)
      ensures if ok then Enabled(old(View()), BeginSend(s, v)) && View() == Apply(old(View()), BeginSend(s, v))
              else View() == old(View())
    {
      ghost var was := View();
      ok := receiversCount != 0;
      if ok {
        senders := senders[s := Counted(v)];
        StepKeepsInv(was, BeginSend(s, v));
      }
    }

    /** `get_changed` or `wait_for_change` is called. */
    method Begin(r: nat, wait: bool)
      requires Valid() && IsIdle(View(), r)
      modifies `receivers
      ensures Valid() && View() == Apply(old(View()), if wait then BeginWait(r) else BeginGet(r))
    {
      hide Inv;
      ghost var was := View();
      receivers := receivers[r := receivers[r].(pc := CheckAlive(if wait then First else Get))];
      StepKeepsInv(was, if wait then BeginWait(r) else BeginGet(r));
    }

    /** `drop` of the sender, which no call still borrows. */
    method DropSender(s: nat)
      requires Valid() && senderAlive && senders == map[]
      modifies `senderAlive, `senders
      ensures Valid() && View() == Apply(old(View()), Action.DropSender(s))
    {
      hide Inv;
      ghost var was := View();
      senderAlive := false;
      senders := senders[s := Unlocked];
      StepKeepsInv(was, Action.DropSender(s));
    }

    method CloneReceiver(r: nat, child: nat)
      requires Valid() && IsIdle(View(), r) && child !in receivers
      modifies `receiversCount, `receivers
      ensures Valid() && View() == Apply(old(View()), Action.CloneReceiver(r, child))
    {
      hide Inv;
      ghost var was := View();
      receiversCount := receiversCount + 1;
      receivers := receivers[child := receivers[r]];
      StepKeepsInv(was, Action.CloneReceiver(r, child));
    }

    method DropReceiver(r: nat)
      requires Valid() && IsIdle(View(), r)
      modifies `receiversCount, `receivers
      ensures Valid() && View() == Apply(old(View()), Action.DropReceiver(r))
    {
      hide Inv;
      ghost var was := View();
      receiversCount := receiversCount - 1;
      receivers := receivers - {r};
      StepKeepsInv(was, Action.DropReceiver(r));
    }

    /** One step of `replace_value` or of `wake_up_threads`. */
    method SenderAdvance(s: nat)
      requires Valid() && SenderEnabled(View(), s)
      modifies this
      ensures Valid() && View() == ApplySender(old(View()), s)
    {
      hide Inv;
      ghost var was := View();
      SenderHoldsItsLocks(was, s);
      StepKeepsInv(was, SenderStep(s));
      match senders[s] {
        case Counted(v) =>
          writer := BySender(s);
          senders := senders[s := Writing(v)];
        case Writing(v) =>
          value, history := v, history + [v];
          senders := senders[s := Stored];
        case Stored =>
          id := id + 1;
          senders := senders[s := Published];
        case Published =>
          writer := Free;
          senders := senders[s := Unlocked];
        case Unlocked =>
          mutex := BySender(s);
          senders := senders[s := InMutex];
        case InMutex =>
          receivers := WakeAll(receivers);
          senders := senders[s := Notified];
        case Notified =>
          mutex := Free;
          senders := senders - {s};
      }
    }

    /** One step of `get_changed` or `wait_for_change`, and what the call returns when it is over with it: a value at
        the two reads alone, and closed exactly at a check that finds the sender dead. */
    method ReceiverAdvance(r: nat) returns (out: Option<Outcome<T>>)
      requires Valid() && ReceiverEnabled(View(), r)
      modifies `receivers, `mutex
      ensures Valid() && View() == ApplyReceiver(old(View()), r)
      ensures out == Returned(old(View()), r)
      ensures out.Some? <==> receivers[r].pc.Idle?
      ensures out == Some(Closed) <==> ChecksAlive(old(receivers[r].pc)) && !senderAlive
      ensures (out.Some? && out.value.Value?) <==> Reading(old(receivers[r].pc))
    {
      hide Inv;
      ghost var was := View();
      ReceiverHoldsItsLock(was, r);
      StepKeepsInv(was, ReceiverStep(r));
      var rec := receivers[r];
      out := None;
      match rec.pc {
        case CheckAlive(call) =>
          if senderAlive {
            receivers := receivers[r := rec.(pc := LoadId(call))];
          } else {
            out := Some(Closed);
            receivers := receivers[r := rec.(pc := Idle)];
            if call == Second {
              mutex := Free;
            }
          }
        case LoadId(call) =>
          if rec.last != id {
            receivers := receivers[r := rec.(last := id, pc := ReadValue(call))];
          } else {
            var next := if call == Get then Idle else if call == First then LockMutex else EnterWait;
            if call == Get {
              out := Some(NothingNew);
            }
            receivers := receivers[r := rec.(pc := next)];
          }
        case ReadValue(call) =>
          out := Some(Value(value));
          receivers := receivers[r := rec.(got := |history|, pc := Idle)];
          if call == Second {
            mutex := Free;
          }
        case LockMutex =>
          mutex := ByReceiver(r);
          receivers := receivers[r := rec.(pc := CheckAlive(Second))];
        case EnterWait =>
          mutex := Free;
          receivers := receivers[r := rec.(pc := Asleep)];
        case Woken =>
          mutex := ByReceiver(r);
          receivers := receivers[r := rec.(pc := RecheckAlive)];
        case RecheckAlive =>
          if senderAlive {
            receivers := receivers[r := rec.(pc := ReloadId)];
          } else {
            out := Some(Closed);
            receivers := receivers[r := rec.(pc := Idle)];
            mutex := Free;
          }
        case ReloadId =>
          receivers := receivers[r := rec.(last := id, pc := ReadAfterWait)];
        case ReadAfterWait =>
          out := Some(Value(value));
          receivers := receivers[r := rec.(got := |history|, pc := Idle)];
          mutex := Free;
      }
    }
  }
}
