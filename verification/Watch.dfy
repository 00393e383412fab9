/** The watch channel as interleaved atomic steps: any number of concurrent `send` calls on a shared sender,
    any number of receivers. Atomics are sequentially consistent; a read under the value's read lock is one step. */
module Watch {
  import opened Bytes

  // ---------------------------------------------------------------------------------------------
  // State

  /** Where a `send` call, or the sender's `drop`, is about to continue. */
  datatype SenderPc<T> =
    | Counted(v: T)   // saw a receiver; will take the value's write lock
    | Writing(v: T)   // holds the write lock; will store the value
    | Stored          // holds the write lock; will increment the id
    | Published       // holds the write lock; will release it
    | Unlocked        // will take the mutex
    | InMutex         // holds the mutex; will notify all
    | Notified        // holds the mutex; will release it

  /** Which call of `get_changed_internal`: from `get_changed`, or the two in `wait_for_change`. */
  datatype Call = Get | First | Second

  /** Where a receiver is about to continue. */
  datatype ReceiverPc =
    | Idle
    | CheckAlive(call: Call)
    | LoadId(call: Call)
    | ReadValue(call: Call)
    | LockMutex
    | EnterWait       // holds the mutex; will sleep on the condvar, releasing it
    | Asleep
    | Woken           // will take the mutex again
    | RecheckAlive
    | ReloadId
    | ReadAfterWait

  /** `last` is `last_observed`; `got` is the version of the value last returned to this receiver,
      or to the receiver it was cloned from. */
  datatype Receiver = Receiver(last: nat, got: nat, pc: ReceiverPc)

  datatype Owner = Free | BySender(s: nat) | ByReceiver(r: nat)

  /** The value under the lock is the last of `history`, and its version is the length of `history`. */
  datatype Chan<T> = Chan(
    history: seq<T>,
    id: nat,
    alive: bool,
    receiverCount: int,
    writer: Owner,
    mutex: Owner,
    senders: map<nat, SenderPc<T>>,
    receivers: map<nat, Receiver>)
  {
    function Version(): nat {
      |history|
    }

    function WithSender(s: nat, pc: SenderPc<T>): Chan<T> {
      this.(senders := senders[s := pc])
    }

    function WithReceiver(r: nat, rec: Receiver): Chan<T> {
      this.(receivers := receivers[r := rec])
    }
  }

  predicate HoldsMutex(pc: ReceiverPc) {
    match pc
    case CheckAlive(call) => call == Second
    case LoadId(call) => call == Second
    case ReadValue(call) => call == Second
    case EnterWait | RecheckAlive | ReloadId | ReadAfterWait => true
    case _ => false
  }

  predicate HoldsValue<T>(pc: SenderPc<T>) {
    pc.Writing? || pc.Stored? || pc.Published?
  }

  predicate InsideMutex<T>(pc: SenderPc<T>) {
    pc.InMutex? || pc.Notified?
  }

  /** A sender step that still has its `notify_all` to perform, after its change is visible. */
  predicate WillNotify<T>(pc: SenderPc<T>) {
    pc.Published? || pc.Unlocked? || pc.InMutex?
  }

  /** `channel(init)`: version 1, id 1, one receiver that has observed nothing. */
  function Channel<T>(init: T): Chan<T> {
    Chan([init], 1, true, 1, Free, Free, map[], map[0 := Receiver(0, 0, Idle)])
  }

  // ---------------------------------------------------------------------------------------------
  // Steps

  datatype Action<T> =
    | BeginSend(s: nat, v: T)
    | DropSender(s: nat)
    | SenderStep(s: nat)
    | BeginGet(r: nat)
    | BeginWait(r: nat)
    | ReceiverStep(r: nat)
    | SpuriousWake(r: nat)
    | CloneReceiver(r: nat, child: nat)
    | DropReceiver(r: nat)

  predicate SenderEnabled<T>(c: Chan<T>, s: nat) {
    && s in c.senders
    && match c.senders[s]
       case Counted(_) => c.writer.Free?
       case Unlocked => c.mutex.Free?
       case _ => true
  }

  predicate ReceiverEnabled<T>(c: Chan<T>, r: nat) {
    && r in c.receivers
    && match c.receivers[r].pc
       case Idle => false
       case Asleep => false
       case ReadValue(_) => c.writer.Free?
       case ReadAfterWait => c.writer.Free?
       case LockMutex => c.mutex.Free?
       case Woken => c.mutex.Free?
       case _ => true
  }

  predicate IsIdle<T>(c: Chan<T>, r: nat) {
    r in c.receivers && c.receivers[r].pc.Idle?
  }

  predicate Enabled<T>(c: Chan<T>, a: Action<T>) {
    match a
    case BeginSend(s, _) => c.alive && s !in c.senders && c.receiverCount > 0
    case DropSender(s) => c.alive && c.senders == map[]
    case SenderStep(s) => SenderEnabled(c, s)
    case BeginGet(r) => IsIdle(c, r)
    case BeginWait(r) => IsIdle(c, r)
    case ReceiverStep(r) => ReceiverEnabled(c, r)
    case SpuriousWake(r) => r in c.receivers && c.receivers[r].pc.Asleep?
    case CloneReceiver(r, child) => IsIdle(c, r) && child !in c.receivers
    case DropReceiver(r) => IsIdle(c, r)
  }

  /** `notify_all`. */
  function WakeAll(rs: map<nat, Receiver>): (ws: map<nat, Receiver>)
    ensures ws.Keys == rs.Keys
  {
    map r | r in rs :: if rs[r].pc.Asleep? then rs[r].(pc := Woken) else rs[r]
  }

  /** A lock is taken and released between the program points that hold it. */
  function OwnerAfter(owner: Owner, me: Owner, held: bool, holds: bool): Owner {
    if holds then me else if held then Free else owner
  }

  /** The next program point of a sender, or none when the call is over. */
  function NextPc<T>(pc: SenderPc<T>): Option<SenderPc<T>> {
    match pc
    case Counted(v) => Some(Writing(v))
    case Writing(_) => Some(Stored)
    case Stored => Some(Published)
    case Published => Some(Unlocked)
    case Unlocked => Some(InMutex)
    case InMutex => Some(Notified)
    case Notified => None
  }

  function ApplySender<T>(c: Chan<T>, s: nat): Chan<T>
    requires SenderEnabled(c, s)
  {
    var pc := c.senders[s];
    var next := NextPc(pc);
    c.(senders := if next.Some? then c.senders[s := next.value] else c.senders - {s},
       history := if pc.Writing? then c.history + [pc.v] else c.history,
       id := if pc.Stored? then c.id + 1 else c.id,
       receivers := if pc.InMutex? then WakeAll(c.receivers) else c.receivers,
       writer := OwnerAfter(c.writer, BySender(s), HoldsValue(pc), next.Some? && HoldsValue(next.value)),
       mutex := OwnerAfter(c.mutex, BySender(s), InsideMutex(pc), next.Some? && InsideMutex(next.value)))
  }

  /** What a receiver's step makes of it. */
  function NextReceiver<T>(c: Chan<T>, rec: Receiver): Receiver {
    match rec.pc
    case CheckAlive(call) => rec.(pc := if c.alive then LoadId(call) else Idle)
    case LoadId(call) =>
      if rec.last != c.id then rec.(last := c.id, pc := ReadValue(call))
      else rec.(pc := if call == Get then Idle else if call == First then LockMutex else EnterWait)
    case ReadValue(_) => rec.(got := c.Version(), pc := Idle)
    case LockMutex => rec.(pc := CheckAlive(Second))
    case EnterWait => rec.(pc := Asleep)
    case Woken => rec.(pc := RecheckAlive)
    case RecheckAlive => rec.(pc := if c.alive then ReloadId else Idle)
    case ReloadId => rec.(last := c.id, pc := ReadAfterWait)
    case ReadAfterWait => rec.(got := c.Version(), pc := Idle)
    case _ => rec
  }

  function ApplyReceiver<T>(c: Chan<T>, r: nat): Chan<T>
    requires ReceiverEnabled(c, r)
  {
    var rec := c.receivers[r];
    var next := NextReceiver(c, rec);
    c.(receivers := c.receivers[r := next],
       mutex := OwnerAfter(c.mutex, ByReceiver(r), HoldsMutex(rec.pc), HoldsMutex(next.pc)))
  }

  function Apply<T>(c: Chan<T>, a: Action<T>): Chan<T>
    requires Enabled(c, a)
  {
    match a
    case BeginSend(s, v) => c.WithSender(s, Counted(v))
    case DropSender(s) => c.WithSender(s, Unlocked).(alive := false)
    case SenderStep(s) => ApplySender(c, s)
    case BeginGet(r) => c.WithReceiver(r, c.receivers[r].(pc := CheckAlive(Get)))
    case BeginWait(r) => c.WithReceiver(r, c.receivers[r].(pc := CheckAlive(First)))
    case ReceiverStep(r) => ApplyReceiver(c, r)
    case SpuriousWake(r) => c.WithReceiver(r, c.receivers[r].(pc := Woken))
    case CloneReceiver(r, child) => c.WithReceiver(child, c.receivers[r]).(receiverCount := c.receiverCount + 1)
    case DropReceiver(r) => c.(receivers := c.receivers - {r}, receiverCount := c.receiverCount - 1)
  }

  // ---------------------------------------------------------------------------------------------
  // What every step keeps

  /** The writer's lock is held by exactly the sender that is inside it, and the id lags the version
      only between the store and the increment. */
  ghost predicate ValueInv<T>(c: Chan<T>) {
    && c.history != []
    && !c.writer.ByReceiver?
    && (c.writer.BySender? ==> c.writer.s in c.senders)
    && (forall s | s in c.senders :: HoldsValue(c.senders[s]) <==> c.writer == BySender(s))
    && c.Version() == c.id + if c.writer.BySender? && c.senders[c.writer.s].Stored? then 1 else 0
  }

  ghost predicate MutexInv<T>(c: Chan<T>) {
    && (c.mutex.BySender? ==> c.mutex.s in c.senders)
    && (c.mutex.ByReceiver? ==> c.mutex.r in c.receivers)
    && (forall s | s in c.senders :: InsideMutex(c.senders[s]) <==> c.mutex == BySender(s))
    && (forall r | r in c.receivers :: HoldsMutex(c.receivers[r].pc) <==> c.mutex == ByReceiver(r))
  }

  predicate Reading(pc: ReceiverPc) {
    pc.ReadValue? || pc.ReadAfterWait?
  }

  /** What a receiver recorded is no newer than what it was given, outside the window between the two. */
  predicate Recorded<T>(c: Chan<T>, rec: Receiver) {
    && rec.last <= c.id
    && rec.got <= c.Version()
    && (Reading(rec.pc) || rec.last <= rec.got)
  }

  ghost predicate RecordInv<T>(c: Chan<T>) {
    forall r | r in c.receivers :: Recorded(c, c.receivers[r])
  }

  ghost predicate Pending<T>(c: Chan<T>) {
    exists s :: s in c.senders && WillNotify(c.senders[s])
  }

  /** A receiver that would sleep through a new id or the sender's death if nobody notified. */
  predicate AtRisk<T>(c: Chan<T>, rec: Receiver) {
    match rec.pc
    case Asleep | EnterWait => rec.last != c.id || !c.alive
    case LoadId(call) => call == Second && !c.alive
    case _ => false
  }

  ghost predicate WakeInv<T>(c: Chan<T>) {
    forall r | r in c.receivers && AtRisk(c, c.receivers[r]) :: Pending(c)
  }

  ghost predicate Inv<T>(c: Chan<T>) {
    ValueInv(c) && MutexInv(c) && RecordInv(c) && WakeInv(c) && c.receiverCount == |c.receivers|
  }

  lemma StartsInInv<T>(init: T)
    ensures Inv(Channel(init))
  {
  }

  // A sender's step.

  lemma SenderKeepsValue<T>(c: Chan<T>, s: nat)
    requires ValueInv(c) && SenderEnabled(c, s)
    ensures ValueInv(ApplySender(c, s))
  {
  }

  lemma SenderKeepsMutex<T>(c: Chan<T>, s: nat)
    requires MutexInv(c) && SenderEnabled(c, s)
    ensures MutexInv(ApplySender(c, s))
  {
    var d := ApplySender(c, s);
    forall r | r in d.receivers
      ensures HoldsMutex(d.receivers[r].pc) == HoldsMutex(c.receivers[r].pc)
    {
    }
  }

  lemma SenderKeepsRecords<T>(c: Chan<T>, s: nat)
    requires RecordInv(c) && SenderEnabled(c, s)
    ensures RecordInv(ApplySender(c, s))
  {
    var d := ApplySender(c, s);
    forall r | r in d.receivers
      ensures Recorded(d, d.receivers[r])
    {
      assert Recorded(c, c.receivers[r]);
    }
  }

  /** The notification wakes every sleeper; until it comes, the sender stays pending. */
  lemma SenderKeepsWake<T>(c: Chan<T>, s: nat)
    requires MutexInv(c) && WakeInv(c) && SenderEnabled(c, s)
    ensures WakeInv(ApplySender(c, s))
  {
    var d := ApplySender(c, s);
    forall r | r in d.receivers && AtRisk(d, d.receivers[r])
      ensures Pending(d)
    {
      var pc := c.senders[s];
      assert HoldsMutex(c.receivers[r].pc) <==> c.mutex == ByReceiver(r);
      if pc.InMutex? {
        assert false;
      } else if WillNotify(pc) || pc.Stored? {
        assert s in d.senders && WillNotify(d.senders[s]);
      } else {
        assert AtRisk(c, c.receivers[r]);
        var p :| p in c.senders && WillNotify(c.senders[p]);
        assert p in d.senders && WillNotify(d.senders[p]);
      }
    }
  }

  lemma SenderKeepsCount<T>(c: Chan<T>, s: nat)
    requires c.receiverCount == |c.receivers| && SenderEnabled(c, s)
    ensures var d := ApplySender(c, s); d.receiverCount == |d.receivers|
  {
    assert |WakeAll(c.receivers)| == |WakeAll(c.receivers).Keys| == |c.receivers.Keys|;
  }

  // A receiver's step.

  lemma ReceiverKeepsMutex<T>(c: Chan<T>, r: nat)
    requires MutexInv(c) && ReceiverEnabled(c, r)
    ensures MutexInv(ApplyReceiver(c, r))
  {
    var rec := c.receivers[r];
    assert HoldsMutex(NextReceiver(c, rec).pc) && !HoldsMutex(rec.pc) ==> c.mutex.Free?;
  }

  lemma ReceiverKeepsRecords<T>(c: Chan<T>, r: nat)
    requires ValueInv(c) && RecordInv(c) && ReceiverEnabled(c, r)
    ensures RecordInv(ApplyReceiver(c, r))
  {
    var d := ApplyReceiver(c, r);
    forall q | q in d.receivers
      ensures Recorded(d, d.receivers[q])
    {
      assert Recorded(c, c.receivers[q]);
    }
  }

  lemma ReceiverKeepsWake<T>(c: Chan<T>, r: nat)
    requires WakeInv(c) && ReceiverEnabled(c, r)
    ensures WakeInv(ApplyReceiver(c, r))
  {
    var d := ApplyReceiver(c, r);
    forall q | q in d.receivers && AtRisk(d, d.receivers[q])
      ensures Pending(d)
    {
      assert AtRisk(c, c.receivers[q]);
      var p :| p in c.senders && WillNotify(c.senders[p]);
      assert p in d.senders && WillNotify(d.senders[p]);
    }
  }

  // The other steps.

  predicate IsOther<T>(a: Action<T>) {
    !a.SenderStep? && !a.ReceiverStep?
  }

  lemma OtherKeepsValue<T>(c: Chan<T>, a: Action<T>)
    requires ValueInv(c) && Enabled(c, a) && IsOther(a)
    ensures ValueInv(Apply(c, a))
  {
  }

  lemma OtherKeepsMutex<T>(c: Chan<T>, a: Action<T>)
    requires MutexInv(c) && Enabled(c, a) && IsOther(a)
    ensures MutexInv(Apply(c, a))
  {
  }

  lemma OtherKeepsRecords<T>(c: Chan<T>, a: Action<T>)
    requires RecordInv(c) && Enabled(c, a) && IsOther(a)
    ensures RecordInv(Apply(c, a))
  {
    var d := Apply(c, a);
    forall q | q in d.receivers
      ensures Recorded(d, d.receivers[q])
    {
      assert Recorded(c, c.receivers[if a.CloneReceiver? && q == a.child then a.r else q]);
    }
  }

  lemma OtherKeepsWake<T>(c: Chan<T>, a: Action<T>)
    requires WakeInv(c) && Enabled(c, a) && IsOther(a)
    ensures WakeInv(Apply(c, a))
  {
    var d := Apply(c, a);
    forall q | q in d.receivers && AtRisk(d, d.receivers[q])
      ensures Pending(d)
    {
      if a.DropSender? {
        assert a.s in d.senders && WillNotify(d.senders[a.s]);
      } else {
        assert q in c.receivers && AtRisk(c, c.receivers[q]);
        var p :| p in c.senders && WillNotify(c.senders[p]);
        assert p in d.senders && WillNotify(d.senders[p]);
      }
    }
  }

  lemma OtherKeepsCount<T>(c: Chan<T>, a: Action<T>)
    requires c.receiverCount == |c.receivers| && Enabled(c, a) && IsOther(a)
    ensures Apply(c, a).receiverCount == |Apply(c, a).receivers|
  {
    var d := Apply(c, a);
    match a
    case BeginGet(r) => assert d.receivers.Keys == c.receivers.Keys;
    case BeginWait(r) => assert d.receivers.Keys == c.receivers.Keys;
    case SpuriousWake(r) => assert d.receivers.Keys == c.receivers.Keys;
    case CloneReceiver(_, child) => assert d.receivers.Keys == c.receivers.Keys + {child};
    case DropReceiver(r) => assert d.receivers.Keys == c.receivers.Keys - {r};
    case _ =>
  }

  /** Every step keeps the invariant. */
  lemma StepKeepsInv<T>(c: Chan<T>, a: Action<T>)
    requires Inv(c) && Enabled(c, a)
    ensures Inv(Apply(c, a))
  {
    hide ValueInv, MutexInv, RecordInv, WakeInv;
    match a
    case SenderStep(s) =>
      SenderKeepsValue(c, s);
      SenderKeepsMutex(c, s);
      SenderKeepsRecords(c, s);
      SenderKeepsWake(c, s);
      SenderKeepsCount(c, s);
    case ReceiverStep(r) =>
      ReceiverKeepsValue(c, r);
      ReceiverKeepsMutex(c, r);
      ReceiverKeepsRecords(c, r);
      ReceiverKeepsWake(c, r);
      ReceiverKeepsCount(c, r);
    case _ =>
      OtherKeepsValue(c, a);
      OtherKeepsMutex(c, a);
      OtherKeepsRecords(c, a);
      OtherKeepsWake(c, a);
      OtherKeepsCount(c, a);
  }

  lemma ReceiverKeepsValue<T>(c: Chan<T>, r: nat)
    requires ValueInv(c) && ReceiverEnabled(c, r)
    ensures ValueInv(ApplyReceiver(c, r))
  {
  }

  lemma ReceiverKeepsCount<T>(c: Chan<T>, r: nat)
    requires c.receiverCount == |c.receivers| && ReceiverEnabled(c, r)
    ensures var d := ApplyReceiver(c, r); d.receiverCount == |d.receivers|
  {
    assert ApplyReceiver(c, r).receivers.Keys == c.receivers.Keys;
  }

  // ---------------------------------------------------------------------------------------------
  // Runs

  predicate Runs<T>(c: Chan<T>, acts: seq<Action<T>>)
    decreases |acts|
  {
    acts == [] || (Enabled(c, acts[0]) && Runs(Apply(c, acts[0]), acts[1..]))
  }

  function After<T>(c: Chan<T>, acts: seq<Action<T>>): Chan<T>
    requires Runs(c, acts)
    decreases |acts|
  {
    if acts == [] then c else After(Apply(c, acts[0]), acts[1..])
  }

  /** The invariant holds after every run. */
  lemma {:induction false} RunKeepsInv<T>(c: Chan<T>, acts: seq<Action<T>>)
    requires Inv(c) && Runs(c, acts)
    ensures Inv(After(c, acts))
    decreases |acts|
  {
    if acts != [] {
      hide Inv, Enabled, Apply;
      StepKeepsInv(c, acts[0]);
      RunKeepsInv(Apply(c, acts[0]), acts[1..]);
    }
  }

  /** No lost wake-up: after any run, a receiver asleep with an unseen id or a dead sender
      has a sender step coming that still notifies all. */
  lemma NoLostWakeUp<T>(init: T, acts: seq<Action<T>>, r: nat)
    requires Runs(Channel(init), acts)
    ensures var c := After(Channel(init), acts);
            r in c.receivers && c.receivers[r].pc.Asleep? && (c.receivers[r].last != c.id || !c.alive)
            ==> exists s :: s in c.senders && WillNotify(c.senders[s])
  {
    StartsInInv(init);
    RunKeepsInv(Channel(init), acts);
    var c := After(Channel(init), acts);
    if r in c.receivers && c.receivers[r].pc.Asleep? && (c.receivers[r].last != c.id || !c.alive) {
      assert AtRisk(c, c.receivers[r]);
    }
  }

  /** With no sender step under way, a sleeper has the newest value and a live sender. */
  lemma SleeperIsUpToDate<T>(init: T, acts: seq<Action<T>>, r: nat)
    requires Runs(Channel(init), acts)
    ensures var c := After(Channel(init), acts);
            c.senders == map[] && r in c.receivers && c.receivers[r].pc.Asleep?
            ==> c.alive && c.receivers[r].last == c.id && c.receivers[r].got == c.Version()
  {
    StartsInInv(init);
    RunKeepsInv(Channel(init), acts);
    var c := After(Channel(init), acts);
    if c.senders == map[] && r in c.receivers && c.receivers[r].pc.Asleep? {
      assert Recorded(c, c.receivers[r]);
      assert AtRisk(c, c.receivers[r]) ==> Pending(c);
    }
  }

  /** No lost update. Between calls a receiver never records an id newer than the value it was given;
      a value returned is at least as new as the id recorded with it and as anything returned before;
      and a receiver told "nothing new" already has the version of the id it read. */
  lemma NoLostUpdate<T>(init: T, acts: seq<Action<T>>, r: nat)
    requires Runs(Channel(init), acts)
    ensures var c := After(Channel(init), acts);
            r in c.receivers ==>
              var rec := c.receivers[r];
              && (rec.pc.Idle? ==> rec.last <= rec.got)
              && (Reading(rec.pc) ==> rec.last <= c.Version() && rec.got <= c.Version())
              && (rec.pc.LoadId? && rec.last == c.id ==> c.id <= rec.got)
  {
    StartsInInv(init);
    RunKeepsInv(Channel(init), acts);
    var c := After(Channel(init), acts);
    if r in c.receivers {
      assert Recorded(c, c.receivers[r]);
    }
  }

  /** Versions name values for good: the history only grows. */
  lemma {:induction false} HistoryGrows<T>(c: Chan<T>, acts: seq<Action<T>>)
    requires Runs(c, acts)
    ensures c.history <= After(c, acts).history
    decreases |acts|
  {
    if acts != [] {
      assert c.history <= Apply(c, acts[0]).history;
      HistoryGrows(Apply(c, acts[0]), acts[1..]);
    }
  }

  lemma StepNeverGoesBack<T>(c: Chan<T>, a: Action<T>, r: nat)
    requires Inv(c) && Enabled(c, a) && r in c.receivers && a != DropReceiver(r)
    ensures r in Apply(c, a).receivers
    ensures c.receivers[r].got <= Apply(c, a).receivers[r].got
  {
    assert Recorded(c, c.receivers[r]);
  }

  /** The versions returned to a receiver never decrease over a run. */
  lemma {:induction false} VersionsNeverDecrease<T>(c: Chan<T>, acts: seq<Action<T>>, r: nat)
    requires Inv(c) && Runs(c, acts) && r in c.receivers && DropReceiver(r) !in acts
    ensures r in After(c, acts).receivers
    ensures c.receivers[r].got <= After(c, acts).receivers[r].got
    decreases |acts|
  {
    if acts != [] {
      hide Inv, Enabled, Apply;
      StepNeverGoesBack(c, acts[0], r);
      StepKeepsInv(c, acts[0]);
      assert acts == [acts[0]] + acts[1..];
      VersionsNeverDecrease(Apply(c, acts[0]), acts[1..], r);
    }
  }

  // ---------------------------------------------------------------------------------------------
  // The wake-up that is pending can always be reached

  function WriterRank<T>(c: Chan<T>): nat {
    if !c.writer.BySender? || c.writer.s !in c.senders then 0
    else match c.senders[c.writer.s]
      case Writing(_) => 3
      case Stored => 2
      case _ => 1
  }

  function MutexRank<T>(c: Chan<T>): nat {
    match c.mutex
    case Free => 2
    case BySender(s) => if s in c.senders && c.senders[s].InMutex? then 1 else 3
    case ByReceiver(r) =>
      if r !in c.receivers then 0
      else match c.receivers[r].pc
        case CheckAlive(_) | RecheckAlive => 6
        case LoadId(_) | ReloadId => 5
        case _ => 4
  }

  /** A step of the thread that should run next: it wakes the sleepers, or brings that step nearer. */
  ghost predicate Helps<T>(c: Chan<T>, a: Action<T>) {
    && Enabled(c, a)
    && (a.SenderStep? || (a.ReceiverStep? && c.mutex == ByReceiver(a.r)))
    && var d := Apply(c, a);
       || (a.SenderStep? && c.senders[a.s].InMutex?)
       || (Pending(d) && (WriterRank(d) < WriterRank(c)
                          || (WriterRank(d) == WriterRank(c) && MutexRank(d) < MutexRank(c))))
  }

  lemma WriterHelps<T>(c: Chan<T>, p: nat)
    requires ValueInv(c) && p in c.senders && WillNotify(c.senders[p]) && c.writer.BySender?
    ensures Helps(c, SenderStep(c.writer.s))
  {
    var d := Apply(c, SenderStep(c.writer.s));
    assert HoldsValue(c.senders[c.writer.s]);
    assert p in d.senders && WillNotify(d.senders[p]);
  }

  lemma SenderInMutexHelps<T>(c: Chan<T>, p: nat)
    requires MutexInv(c) && p in c.senders && WillNotify(c.senders[p]) && c.writer == Free && c.mutex.BySender?
    ensures Helps(c, SenderStep(c.mutex.s))
  {
    assert InsideMutex(c.senders[c.mutex.s]);
    if !c.senders[c.mutex.s].InMutex? {
      var d := Apply(c, SenderStep(c.mutex.s));
      assert p in d.senders && WillNotify(d.senders[p]);
    }
  }

  lemma ReceiverInMutexHelps<T>(c: Chan<T>, p: nat)
    requires MutexInv(c) && p in c.senders && WillNotify(c.senders[p]) && c.writer == Free && c.mutex.ByReceiver?
    ensures Helps(c, ReceiverStep(c.mutex.r))
  {
    var d := Apply(c, ReceiverStep(c.mutex.r));
    assert HoldsMutex(c.receivers[c.mutex.r].pc);
    assert p in d.senders && WillNotify(d.senders[p]);
  }

  lemma SenderAtMutexHelps<T>(c: Chan<T>, p: nat)
    requires p in c.senders && c.senders[p].Unlocked? && c.writer == Free && c.mutex == Free
    ensures Helps(c, SenderStep(p))
  {
    var d := Apply(c, SenderStep(p));
    assert p in d.senders && WillNotify(d.senders[p]);
  }

  /** The thread to run next: the writer out of its lock, then whoever holds the mutex, then a pending sender. */
  lemma NextHelper<T>(c: Chan<T>) returns (a: Action<T>)
    requires Inv(c) && Pending(c)
    ensures Helps(c, a)
  {
    hide Helps;
    var p :| p in c.senders && WillNotify(c.senders[p]);
    if c.writer.BySender? {
      a := SenderStep(c.writer.s);
      WriterHelps(c, p);
    } else if c.mutex.BySender? {
      a := SenderStep(c.mutex.s);
      SenderInMutexHelps(c, p);
    } else if c.mutex.ByReceiver? {
      a := ReceiverStep(c.mutex.r);
      ReceiverInMutexHelps(c, p);
    } else {
      a := SenderStep(p);
      SenderAtMutexHelps(c, p);
    }
  }

  lemma NotifyWakes<T>(c: Chan<T>, s: nat, r: nat)
    requires MutexInv(c) && s in c.senders && c.senders[s].InMutex?
    requires r in c.receivers && c.receivers[r].pc.Asleep?
    ensures var d := Apply(c, SenderStep(s));
      && r in d.receivers && d.receivers[r].pc.Woken?
      && d.mutex == BySender(s) && s in d.senders && d.senders[s].Notified?
  {
    assert InsideMutex(c.senders[s]);
  }

  lemma HelperLeavesAsleep<T>(c: Chan<T>, a: Action<T>, r: nat)
    requires Inv(c) && Helps(c, a) && r in c.receivers && c.receivers[r].pc.Asleep?
    ensures a.SenderStep? || (a.ReceiverStep? && a.r != r)
    ensures !(a.SenderStep? && c.senders[a.s].InMutex?) ==>
      r in Apply(c, a).receivers && Apply(c, a).receivers[r].pc.Asleep?
  {
    assert HoldsMutex(c.receivers[r].pc) <==> c.mutex == ByReceiver(r);
  }

  /** From any state of the invariant, running only threads other than the sleeper reaches its wake-up. */
  lemma {:induction false} WakeUpIsReachable<T>(c: Chan<T>, r: nat) returns (acts: seq<Action<T>>)
    requires Inv(c) && Pending(c) && r in c.receivers && c.receivers[r].pc.Asleep?
    ensures Runs(c, acts) && r in After(c, acts).receivers && After(c, acts).receivers[r].pc.Woken?
    ensures var d := After(c, acts);
      d.mutex.BySender? && d.mutex.s in d.senders && d.senders[d.mutex.s].Notified?
    ensures forall a | a in acts :: a.SenderStep? || (a.ReceiverStep? && a.r != r)
    decreases WriterRank(c), MutexRank(c)
  {
    var a := NextHelper(c);
    HelperLeavesAsleep(c, a, r);
    var d := Apply(c, a);
    StepKeepsInv(c, a);
    if a.SenderStep? && c.senders[a.s].InMutex? {
      NotifyWakes(c, a.s, r);
      hide Inv, Apply, Helps;
      acts := [a];
      assert acts[1..] == [];
    } else {
      hide Inv, Apply, WriterRank, MutexRank;
      var rest := WakeUpIsReachable(d, r);
      acts := [a] + rest;
      assert acts[1..] == rest;
    }
  }
}
