/** The threads of hid.c: the read thread with its callback, the thread that opens and closes the device,
    and any number of readers, in every interleaving (lines 738-873, 983-986, 1084-1167, 1243-1273).

    One action is one step of one thread. A stretch of code under the device mutex is one step; flags that are
    written without the mutex are written in steps of their own. */
module HidProtocol {
  import opened Bytes
  import opened HidQueue

  /** How a transfer ended. */
  datatype Ending = Completed(report: Octets) | Cancelled | NoDevice | TimedOut | Unknown

  /** Where the read thread is. `draining` tells the loop after the cancellation from the main one. */
  datatype ReadThread =
    | FirstSubmit | AtBarrier | LoopTest | Handling | Cancelling | UntilTest | HandlingRest | Waking | Ended
    | InCallback(ending: Ending, draining: bool) | Resubmitting(draining: bool)
    | Stopping(draining: bool) | Marking(draining: bool)

  datatype Closer =
    Opening | Open | CancelFirst | Joining | FreeBuffer | FreeTransfer | DrainQueue | FreeDevice | Closed

  /** A reader is outside, asleep on the condition, or woken and about to test again. */
  datatype Reader = Outside | Asleep | Woken

  /** What the mutex protects, with the history of the list. */
  datatype Mail = Mail(readers: seq<Reader>, queue: seq<Octets>, arrived: seq<Octets>, removed: seq<Octets>)

  /** `cancelPending`: libusb_cancel_transfer was called while the transfer was in flight, and
      it has not ended since. */
  datatype State = State(
    shutdownThread: bool, cancelled: bool, submitted: bool, inFlight: bool, cancelPending: bool,
    bufferFreed: bool, transferFreed: bool, deviceFreed: bool,
    thread: ReadThread, closer: Closer, mail: Mail)

  function Init(readers: nat): State {
    State(false, false, false, false, false, false, false, false, FirstSubmit, Opening,
          Mail(seq(readers, i => Outside), [], [], []))
  }

  datatype Action =
    | Submit(ok: bool)            // the first submission, and each one from the callback
    | Pass                        // the barrier
    | Advance                     // a step of the read thread without a choice
    | Return(fatal: bool)         // libusb_handle_events returns
    | Complete(ending: Ending)    // the callback is entered
    | Deliver(woken: nat)         // the body of the callback; `woken` is the sleeper a signal would reach
    | Close                       // hid_close is called, and each further step of it
    | Read(reader: nat, wait: bool) | Wake(reader: nat) | Retest(reader: nat) | GiveUp(reader: nat)

  // ----- under the mutex

  /** pthread_cond_signal: some sleeper wakes, if there is one. */
  predicate MaySignal(readers: seq<Reader>, woken: nat) {
    if woken < |readers| then readers[woken] == Asleep else forall i :: 0 <= i < |readers| ==> readers[i] != Asleep
  }

  /** A report arrives. The oldest goes when 32 are waiting; only an empty list signals. */
  function WithReport(m: Mail, report: Octets, woken: nat): (n: Mail)
    ensures |n.readers| == |m.readers| && |n.queue| <= |m.queue| + 1
  {
    Mail(if m.queue == [] && woken < |m.readers| then m.readers[woken := Woken] else m.readers,
         Attached(m.queue, report), m.arrived + [report],
         if |m.queue| >= 32 then m.removed + [m.queue[0]] else m.removed)
  }

  /** return_data: the first report leaves the list. */
  function Taken(m: Mail): (n: Mail)
    requires m.queue != []
    ensures |n.readers| == |m.readers| && |n.queue| == |m.queue| - 1
  {
    m.(queue := m.queue[1..], removed := m.removed + [m.queue[0]])
  }

  /** Take the first report; with none, fail after a shutdown; otherwise sleep, or return at once. */
  function Tested(m: Mail, shutdownThread: bool, i: nat, wait: bool): (n: Mail)
    requires i < |m.readers|
    ensures |n.readers| == |m.readers| && |n.queue| <= |m.queue|
  {
    if m.queue != [] then Moved(Taken(m), i, Outside)
    else Moved(m, i, if shutdownThread || !wait then Outside else Asleep)
  }

  function Moved(m: Mail, i: nat, reader: Reader): (n: Mail)
    requires i < |m.readers|
    ensures |n.readers| == |m.readers| && n.queue == m.queue
  {
    m.(readers := m.readers[i := reader])
  }

  /** pthread_cond_broadcast */
  function WakeAll(m: Mail): (n: Mail)
    ensures |n.readers| == |m.readers| && n.queue == m.queue
  {
    m.(readers := seq(|m.readers|, i requires 0 <= i < |m.readers| => if m.readers[i] == Asleep then Woken
                      else m.readers[i]))
  }

  // ----- the threads

  function Back(draining: bool): ReadThread { if draining then HandlingRest else Handling }

  function Delivered(s: State, woken: nat): State
    requires s.thread.InCallback?
  {
    match s.thread.ending
    case Completed(report) => s.(thread := Resubmitting(s.thread.draining), mail := WithReport(s.mail, report, woken))
    case Cancelled => s.(thread := Stopping(s.thread.draining))
    case NoDevice => s.(thread := Stopping(s.thread.draining))
    case TimedOut => s.(thread := Resubmitting(s.thread.draining))
    case Unknown => s.(thread := Resubmitting(s.thread.draining))
  }

  function Advanced(s: State): State {
    match s.thread
    case LoopTest => s.(thread := if s.shutdownThread then Cancelling else Handling)
    case Cancelling => s.(thread := UntilTest, cancelPending := s.inFlight)
    case UntilTest => s.(thread := if s.cancelled then Waking else HandlingRest)
    case Waking => s.(thread := Ended, mail := WakeAll(s.mail))
    case Stopping(draining) => s.(shutdownThread := true, thread := Marking(draining))
    case Marking(draining) => s.(cancelled := true, thread := Back(draining))
    case _ => s
  }

  /** The next step of hid_close; the drain loop takes one report at a time. */
  function ClosedStep(s: State): State {
    if s.closer == DrainQueue && s.mail.queue != [] then s.(mail := Taken(s.mail)) else ClosedNext(s)
  }

  function ClosedNext(s: State): State {
    match s.closer
    case Opening => s
    case Open => s.(shutdownThread := true, closer := CancelFirst)
    case CancelFirst => s.(closer := Joining, cancelPending := s.inFlight)
    case Joining => s.(closer := FreeBuffer)
    case FreeBuffer => s.(bufferFreed := true, closer := FreeTransfer)
    case FreeTransfer => s.(transferFreed := true, closer := DrainQueue)
    case DrainQueue => s.(closer := FreeDevice)
    case FreeDevice => s.(deviceFreed := true, closer := Closed)
    case Closed => s
  }

  /** Whether an action can happen now. A transfer ends only while it is in flight, and as cancelled only after a
      cancel; the closing thread leaves pthread_join only when the read thread has ended, and hid_close is called
      after hid_open_path returned. */
  predicate Enabled(s: State, a: Action) {
    match a
    case Submit(ok) => s.thread == FirstSubmit || s.thread.Resubmitting?
    case Pass => s.thread == AtBarrier && s.closer == Opening
    case Advance => s.thread in {LoopTest, Cancelling, UntilTest, Waking} || s.thread.Stopping? || s.thread.Marking?
    case Return(fatal) => s.thread in {Handling, HandlingRest}
    case Complete(ending) =>
      s.thread in {Handling, HandlingRest} && s.inFlight && (ending == Cancelled ==> s.cancelPending)
    case Deliver(woken) => s.thread.InCallback? && MaySignal(s.mail.readers, woken)
    case Close => s.closer !in {Opening, Closed} && (s.closer == Joining ==> s.thread == Ended)
    case Read(i, wait) => i < |s.mail.readers| && s.mail.readers[i] == Outside && s.closer == Open
    case Wake(i) => i < |s.mail.readers| && s.mail.readers[i] == Asleep
    case Retest(i) => i < |s.mail.readers| && s.mail.readers[i] == Woken
    case GiveUp(i) => i < |s.mail.readers| && s.mail.readers[i] == Asleep
  }

  function Do(s: State, a: Action): State
    requires Enabled(s, a)
  {
    match a
    case Submit(ok) =>
      if s.thread == FirstSubmit then s.(submitted := ok, inFlight := ok, thread := AtBarrier)
      else if ok then s.(inFlight := true, thread := Back(s.thread.draining))
      else s.(thread := Stopping(s.thread.draining))
    case Pass => s.(thread := LoopTest, closer := Open)
    case Advance => Advanced(s)
    case Return(fatal) =>
      s.(thread := if s.thread == HandlingRest then UntilTest else if fatal then Cancelling else LoopTest)
    case Complete(ending) =>
      s.(inFlight := false, cancelPending := false, thread := InCallback(ending, s.thread == HandlingRest))
    case Deliver(woken) => Delivered(s, woken)
    case Close => ClosedStep(s)
    case Read(i, wait) => s.(mail := Tested(s.mail, s.shutdownThread, i, wait))
    case Wake(i) => s.(mail := Moved(s.mail, i, Woken))
    case Retest(i) => s.(mail := Tested(s.mail, s.shutdownThread, i, true))
    case GiveUp(i) => s.(mail := Moved(s.mail, i, Outside))
  }

  ghost predicate Reaches(s: State, actions: seq<Action>, t: State)
    decreases |actions|
  {
    if actions == [] then s == t else Enabled(s, actions[0]) && Reaches(Do(s, actions[0]), actions[1..], t)
  }

  // ----- the invariant

  predicate InsideCallback(thread: ReadThread) {
    thread.InCallback? || thread.Resubmitting? || thread.Stopping? || thread.Marking?
  }

  /** `cancelled` holds exactly when no transfer is in flight, outside the callback, and it implies
      `shutdown_thread`. If the first submission failed, neither ever happens. */
  predicate Flags(s: State) {
    && (s.cancelled ==> s.shutdownThread)
    && (s.thread.Marking? ==> s.shutdownThread)
    && (s.thread == FirstSubmit ==> !s.cancelled && !s.inFlight)
    && (s.thread != FirstSubmit && s.submitted ==> (s.inFlight <==> !InsideCallback(s.thread) && !s.cancelled))
    && (InsideCallback(s.thread) ==> s.submitted && !s.cancelled)
    && (!s.submitted ==> !s.inFlight && !s.cancelled)
    && (s.cancelPending ==> s.inFlight)
  }

  /** How far each thread can be. */
  predicate Order(s: State) {
    && (s.thread in {Waking, Ended} ==> s.cancelled)
    && (s.thread in {FirstSubmit, AtBarrier} <==> s.closer == Opening)
    && (s.closer !in {Opening, Open} ==> s.shutdownThread)
    && (s.closer !in {Opening, Open, CancelFirst, Joining} ==> s.thread == Ended)
    && (s.bufferFreed <==> s.closer in {FreeTransfer, DrainQueue, FreeDevice, Closed})
    && (s.transferFreed <==> s.closer in {DrainQueue, FreeDevice, Closed})
    && (s.deviceFreed <==> s.closer == Closed)
  }

  /** What arrived is what left, followed by what waits; at most 32 wait. */
  predicate Conserved(m: Mail) {
    m.arrived == m.removed + m.queue && |m.queue| <= 32
  }

  predicate NobodySleeps(m: Mail) {
    forall i :: 0 <= i < |m.readers| ==> m.readers[i] != Asleep
  }

  predicate Inv(s: State) {
    Flags(s) && Order(s) && Conserved(s.mail) && (s.thread == Ended ==> NobodySleeps(s.mail))
  }

  lemma FlagsKept(s: State, a: Action)
    requires Flags(s) && Order(s) && Enabled(s, a)
    ensures Flags(Do(s, a)) && Order(Do(s, a))
  {
    hide Flags, Order, Do, Enabled;
    match a {
      case Advance => FlagsKeptByAdvance(s);
      case Deliver(woken) => FlagsKeptByDelivery(s, woken);
      case Close => FlagsKeptByClosing(s);
      case _ => FlagsKeptByOthers(s, a);
    }
  }

  lemma FlagsKeptByAdvance(s: State)
    requires Flags(s) && Order(s) && Enabled(s, Advance)
    ensures Flags(Do(s, Advance)) && Order(Do(s, Advance))
  {
    hide WakeAll;
  }

  lemma FlagsKeptByDelivery(s: State, woken: nat)
    requires Flags(s) && Order(s) && Enabled(s, Deliver(woken))
    ensures Flags(Do(s, Deliver(woken))) && Order(Do(s, Deliver(woken)))
  {
    hide MaySignal, WithReport;
  }

  lemma FlagsKeptByClosing(s: State)
    requires Flags(s) && Order(s) && Enabled(s, Close)
    ensures Flags(Do(s, Close)) && Order(Do(s, Close))
  {
    hide Taken;
  }

  lemma FlagsKeptByOthers(s: State, a: Action)
    requires Flags(s) && Order(s) && Enabled(s, a) && !a.Advance? && !a.Deliver? && !a.Close?
    ensures Flags(Do(s, a)) && Order(Do(s, a))
  {
    hide Tested, Advanced, Delivered, ClosedStep;
  }

  /** A step leaves the mail alone, or is one of the steps under the mutex. */
  predicate MailStep(s: State, a: Action, n: Mail)
    requires Enabled(s, a)
  {
    var m := s.mail;
    || n == m || n == WakeAll(m)
    || (m.queue != [] && n == Taken(m))
    || (a.Deliver? && s.thread.ending.Completed? && n == WithReport(m, s.thread.ending.report, a.woken))
    || ((a.Read? || a.Retest?) && n == Tested(m, s.shutdownThread, a.reader, a.Retest? || a.wait))
    || ((a.Wake? || a.GiveUp?) && n == Moved(m, a.reader, if a.Wake? then Woken else Outside))
  }

  lemma MailEffect(s: State, a: Action)
    requires Flags(s) && Order(s) && Enabled(s, a)
    ensures MailStep(s, a, Do(s, a).mail)
  {
    hide Flags, Order, Taken, WithReport, Tested, WakeAll, MaySignal, Moved;
    match a {
      case Advance => AdvanceMail(s);
      case Deliver(woken) => DeliverMail(s, woken);
      case Close => CloseMail(s);
      case _ => hide Advanced, Delivered, ClosedStep;
    }
  }

  lemma AdvanceMail(s: State)
    requires Flags(s) && Order(s)
    ensures Advanced(s).mail in {s.mail, WakeAll(s.mail)}
  {
    hide WakeAll;
  }

  lemma DeliverMail(s: State, woken: nat)
    requires Flags(s) && Order(s) && s.thread.InCallback?
    ensures Delivered(s, woken).mail ==
            if s.thread.ending.Completed? then WithReport(s.mail, s.thread.ending.report, woken) else s.mail
  {
    hide WithReport;
  }

  lemma CloseMail(s: State)
    requires Flags(s) && Order(s)
    ensures ClosedStep(s).mail == s.mail || (s.mail.queue != [] && ClosedStep(s).mail == Taken(s.mail))
  {
    CloseNextMail(s);
    hide Taken, ClosedNext;
  }

  lemma CloseNextMail(s: State)
    requires Flags(s) && Order(s)
    ensures ClosedNext(s).mail == s.mail
  {}

  lemma ConservedKept(s: State, a: Action)
    requires Flags(s) && Order(s) && Conserved(s.mail) && Enabled(s, a)
    ensures Conserved(Do(s, a).mail)
  {
    MailEffect(s, a);
    TakingConserves(s.mail);
    if a.Deliver? && s.thread.InCallback? && s.thread.ending.Completed? {
      ReportConserves(s.mail, s.thread.ending.report, a.woken);
    }
    hide Do, Taken, WithReport;
  }

  lemma TakingConserves(m: Mail)
    requires Conserved(m)
    ensures m.queue != [] ==> Conserved(Taken(m))
  {
    if m.queue != [] {
      assert m.removed + m.queue == (m.removed + [m.queue[0]]) + m.queue[1..];
    }
  }

  lemma ReportConserves(m: Mail, report: Octets, woken: nat)
    requires Conserved(m)
    ensures Conserved(WithReport(m, report, woken))
  {
    assert m.removed + m.queue + [report] == m.removed + (m.queue + [report]);
    if |m.queue| >= 32 {
      assert m.removed + m.queue + [report] == (m.removed + [m.queue[0]]) + (m.queue[1..] + [report]);
    }
  }

  lemma AwakeKept(s: State, a: Action)
    requires Flags(s) && Order(s) && Enabled(s, a)
    requires s.thread == Ended ==> NobodySleeps(s.mail)
    ensures Do(s, a).thread == Ended ==> NobodySleeps(Do(s, a).mail)
  {}

  /** In every interleaving of every run, for any number of readers. */
  lemma {:induction false} InvAlways(s: State, actions: seq<Action>, t: State)
    requires Inv(s) && Reaches(s, actions, t)
    ensures Inv(t)
    decreases |actions|
  {
    hide Flags, Order, Conserved, NobodySleeps, Enabled, Do;
    if actions != [] {
      FlagsKept(s, actions[0]);
      ConservedKept(s, actions[0]);
      AwakeKept(s, actions[0]);
      InvAlways(Do(s, actions[0]), actions[1..], t);
    }
  }

  // ----- what it means

  /** Does the action use the transfer object or its buffer? Freeing does not count. */
  predicate UsesTransfer(s: State, a: Action) {
    a.Submit? || a.Complete? || a.Deliver? || (a.Advance? && s.thread == Cancelling) ||
      (a.Close? && s.closer == CancelFirst)
  }

  /** hid_close frees the buffer and the transfer once, after the thread has ended with nothing in flight, and
      no thread uses them afterwards. */
  lemma FreedSafely(readers: nat, actions: seq<Action>, s: State, a: Action)
    requires Reaches(Init(readers), actions, s) && Enabled(s, a)
    ensures s.bufferFreed || s.transferFreed ==> s.thread == Ended && s.cancelled && !s.inFlight
    ensures UsesTransfer(s, a) ==> !s.bufferFreed && !s.transferFreed
    ensures s.closer == FreeBuffer ==> !s.bufferFreed && !s.inFlight
    ensures s.closer == FreeTransfer ==> !s.transferFreed && !s.inFlight
  {
    InvAlways(Init(readers), actions, s);
  }

  /** Outside the callback, `cancelled` is the negation of "in flight". */
  lemma CancelledMeansIdle(readers: nat, actions: seq<Action>, s: State)
    requires Reaches(Init(readers), actions, s) && s.submitted && s.thread != FirstSubmit && !InsideCallback(s.thread)
    ensures s.cancelled <==> !s.inFlight
    ensures s.cancelled ==> s.shutdownThread
  {
    InvAlways(Init(readers), actions, s);
  }

  // ----- when closing can end, and when it must

  /** A step that brings closing nearer: the callback is let to its end first, and the transfer ends as cancelled
      if a cancel is pending, else with the device. */
  function Nearer(s: State): Action {
    if s.thread == AtBarrier then Pass
    else if s.thread.InCallback? then Deliver(Sleeper(s.mail.readers))
    else if s.thread.Resubmitting? then Submit(true)
    else if s.closer != Joining || s.thread == Ended then Close
    else
      match s.thread
      case Handling => Return(false)
      case HandlingRest =>
        if s.cancelled then Return(false) else Complete(if s.cancelPending then Cancelled else NoDevice)
      case _ => Advance
  }

  /** The transfer was re-armed after both calls of libusb_cancel_transfer. Nobody is left to cancel it. */
  predicate Abandoned(s: State) {
    && s.closer == Joining && s.submitted && !s.cancelled && !s.cancelPending
    && (s.thread in {UntilTest, HandlingRest} || s.thread == Resubmitting(true)
        || (s.thread.InCallback? && s.thread.draining && !Final(s.thread.ending)))
  }

  /** These endings make the callback set `cancelled`. */
  predicate Final(ending: Ending) { ending == Cancelled || ending == NoDevice }

  /** The callback has seen to it that `cancelled` is set. */
  predicate Doomed(s: State) {
    s.cancelled || s.thread.Stopping? || s.thread.Marking? || (s.thread.InCallback? && Final(s.thread.ending))
  }

  /** The device goes away, or libusb refuses to take the transfer again. */
  predicate Unplugs(a: Action) { a == Complete(NoDevice) || a == Submit(false) }

  predicate Unaided(actions: seq<Action>) {
    forall k :: 0 <= k < |actions| ==> !Unplugs(actions[k])
  }

  /** The first reader asleep, or the number of readers. */
  function Sleeper(readers: seq<Reader>): (i: nat)
    ensures MaySignal(readers, i)
  {
    if readers == [] || readers[0] == Asleep then 0 else
      var i := Sleeper(readers[1..]);
      assert forall k :: 1 <= k < |readers| ==> readers[k] == readers[1..][k - 1];
      1 + i
  }

  /** How far closing is from its end. */
  function CloserRank(closer: Closer): nat {
    match closer
    case Opening => 8
    case Open => 7
    case CancelFirst => 6
    case Joining => 5
    case FreeBuffer => 4
    case FreeTransfer => 3
    case DrainQueue => 2
    case FreeDevice => 1
    case Closed => 0
  }

  /** How far the read thread is from its end; the same place is nearer once `cancelled` is set. */
  function ThreadRank(s: State): nat {
    var more := if s.cancelled then 0 else 9;
    match s.thread
    case Ended => 0
    case Waking => 1
    case UntilTest => 2 + more
    case HandlingRest => if s.cancelled then 3 else 10
    case Cancelling => 4 + more
    case LoopTest => 5 + more
    case Handling => 6 + more
    case Marking(_) => 7
    case Stopping(_) => 8
    case InCallback(ending, _) => if Final(ending) then 9 else 17
    case Resubmitting(_) => 16
    case AtBarrier => 18
    case FirstSubmit => 19
  }

  /** How far both are from their end, with the reports that hid_close would have to drop. */
  function Left(s: State): nat { CloserRank(s.closer) + 2 * ThreadRank(s) + |s.mail.queue| }

  lemma NearerIsNearer(s: State)
    requires Flags(s) && Order(s) && s.submitted && s.thread != FirstSubmit && s.closer != Closed
    ensures Enabled(s, Nearer(s)) && Do(s, Nearer(s)).submitted && Do(s, Nearer(s)).thread != FirstSubmit
    ensures Left(Do(s, Nearer(s))) < Left(s)
  {
    hide MaySignal, WakeAll, Sleeper;
  }

  lemma NearerUnaided(s: State)
    requires Flags(s) && Order(s) && s.submitted && s.thread != FirstSubmit && s.closer != Closed && !Abandoned(s)
    requires Enabled(s, Nearer(s))
    ensures !Unplugs(Nearer(s)) && !Abandoned(Do(s, Nearer(s)))
  {
    hide MaySignal, WakeAll, Sleeper, WithReport;
  }

  lemma {:induction false} CanClose(s: State) returns (actions: seq<Action>, t: State)
    requires Inv(s) && s.submitted && s.thread != FirstSubmit
    ensures Reaches(s, actions, t) && t.closer == Closed
    ensures !Abandoned(s) ==> Unaided(actions)
    decreases Left(s)
  {
    hide Flags, Order, Conserved, NobodySleeps, Enabled, Do, Nearer, Left, Abandoned, Unplugs;
    if s.closer == Closed {
      actions, t := [], s;
    } else {
      var a := Nearer(s);
      NearerIsNearer(s);
      if !Abandoned(s) {
        NearerUnaided(s);
      }
      FlagsKept(s, a);
      ConservedKept(s, a);
      AwakeKept(s, a);
      var rest;
      rest, t := CanClose(Do(s, a));
      actions := [a] + rest;
    }
  }

  lemma SubmittedKept(s: State, a: Action)
    requires Flags(s) && Order(s) && !s.thread.FirstSubmit? && Enabled(s, a)
    ensures !Do(s, a).thread.FirstSubmit? && (Do(s, a).submitted <==> s.submitted)
    ensures s.closer.Joining? && !s.thread.Ended? ==> Do(s, a).closer.Joining?
  {
    hide Do, MaySignal, Flags, Order;
    match a {
      case Advance => AdvanceKeeps(s);
      case Deliver(woken) => DeliverKeeps(s, woken);
      case Close => CloseKeeps(s);
      case _ => OthersKeep(s, a);
    }
  }

  lemma AdvanceKeeps(s: State)
    requires Flags(s) && Order(s) && !s.thread.FirstSubmit? && Enabled(s, Advance)
    ensures !Do(s, Advance).thread.FirstSubmit? && (Do(s, Advance).submitted <==> s.submitted)
    ensures s.closer.Joining? ==> Do(s, Advance).closer.Joining?
  {
    hide WakeAll;
  }

  lemma DeliverKeeps(s: State, woken: nat)
    requires Flags(s) && Order(s) && Enabled(s, Deliver(woken))
    ensures !Do(s, Deliver(woken)).thread.FirstSubmit? && (Do(s, Deliver(woken)).submitted <==> s.submitted)
    ensures s.closer.Joining? ==> Do(s, Deliver(woken)).closer.Joining?
  {
    hide WithReport, MaySignal;
  }

  lemma CloseKeeps(s: State)
    requires Flags(s) && Order(s) && !s.thread.FirstSubmit? && Enabled(s, Close)
    ensures !Do(s, Close).thread.FirstSubmit? && (Do(s, Close).submitted <==> s.submitted)
    ensures s.closer.Joining? && !s.thread.Ended? ==> Do(s, Close).closer.Joining?
  {
    hide Taken;
  }

  lemma OthersKeep(s: State, a: Action)
    requires Flags(s) && Order(s) && !s.thread.FirstSubmit? && Enabled(s, a) && !a.Advance? && !a.Deliver? && !a.Close?
    ensures !Do(s, a).thread.FirstSubmit? && (Do(s, a).submitted <==> s.submitted)
    ensures s.closer.Joining? ==> Do(s, a).closer.Joining?
  {
    hide Tested, Moved, Advanced, Delivered, ClosedStep;
  }

  lemma {:induction false} SubmittedAlways(s: State, actions: seq<Action>, t: State)
    requires Inv(s) && !s.thread.FirstSubmit? && Reaches(s, actions, t)
    ensures Inv(t) && (t.submitted <==> s.submitted)
    ensures s.closer.Joining? && !s.submitted ==> t.closer.Joining?
    decreases |actions|
  {
    hide Conserved, NobodySleeps, Enabled, Do;
    if actions != [] {
      var a := actions[0];
      SubmittedKept(s, a);
      FlagsKept(s, a);
      ConservedKept(s, a);
      AwakeKept(s, a);
      SubmittedAlways(Do(s, a), actions[1..], t);
    }
  }

  /** The result of the first submission is not looked at. Once it has been made, in every reachable state,
      hid_close can run to its end exactly if it succeeded. */
  lemma ClosingNeedsFirstSubmit(readers: nat, actions: seq<Action>, s: State)
    requires Reaches(Init(readers), actions, s) && s.thread != FirstSubmit
    ensures (exists more, t :: Reaches(s, more, t) && t.closer == Closed) <==> s.submitted
    ensures !s.submitted ==> s.closer in {Opening, Open, CancelFirst, Joining} && s.thread != Ended && !s.cancelled
  {
    hide Reaches;
    InvAlways(Init(readers), actions, s);
    if s.submitted {
      var more, t := CanClose(s);
    } else {
      forall more, t | Reaches(s, more, t) ensures t.closer != Closed {
        SubmittedAlways(s, more, t);
      }
    }
  }

  /** A run in which it fails: the closing thread waits in pthread_join, for good. */
  lemma JoinsForEver(readers: nat) returns (actions: seq<Action>, s: State)
    ensures Reaches(Init(readers), actions, s) && s.closer == Joining && !s.submitted
    ensures forall more, t :: Reaches(s, more, t) ==> t.closer == Joining && t.thread != Ended
  {
    hide Reaches;
    var i := Init(readers);
    Nowhere(i);
    Then(i, [], i, Submit(false));
    var s1 := Do(i, Submit(false));
    Then(i, [] + [Submit(false)], s1, Pass);
    var s2 := Do(s1, Pass);
    Then(i, [] + [Submit(false)] + [Pass], s2, Close);
    var s3 := Do(s2, Close);
    Then(i, [] + [Submit(false)] + [Pass] + [Close], s3, Close);
    actions, s := [] + [Submit(false)] + [Pass] + [Close] + [Close], Do(s3, Close);
    InvAlways(i, actions, s);
    forall more, t | Reaches(s, more, t) ensures t.closer == Joining && t.thread != Ended {
      SubmittedAlways(s, more, t);
    }
  }

  lemma AbandonedKept(s: State, a: Action)
    requires Flags(s) && Order(s) && Abandoned(s) && Enabled(s, a) && !Unplugs(a)
    ensures Abandoned(Do(s, a))
  {
    hide MaySignal, WithReport, Tested, Moved, WakeAll, Taken;
  }

  lemma {:induction false} AbandonedAlways(s: State, actions: seq<Action>, t: State)
    requires Flags(s) && Order(s) && Abandoned(s) && Reaches(s, actions, t) && Unaided(actions)
    ensures Abandoned(t)
    decreases |actions|
  {
    hide Flags, Order, Enabled, Do, Abandoned, Unplugs;
    if actions != [] {
      FlagsKept(s, actions[0]);
      AbandonedKept(s, actions[0]);
      AbandonedAlways(Do(s, actions[0]), actions[1..], t);
    }
  }

  /** With the device in place and libusb taking the transfer again, hid_close can run to its end exactly if the
      first submission succeeded and the transfer has not been re-armed behind both cancels. */
  lemma ClosesUnaidedIff(readers: nat, actions: seq<Action>, s: State)
    requires Reaches(Init(readers), actions, s) && s.thread != FirstSubmit
    ensures (exists more, t :: Reaches(s, more, t) && Unaided(more) && t.closer == Closed) <==>
            s.submitted && !Abandoned(s)
  {
    hide Reaches, Unaided;
    InvAlways(Init(readers), actions, s);
    ClosingNeedsFirstSubmit(readers, actions, s);
    if s.submitted && !Abandoned(s) {
      var more, t := CanClose(s);
    }
    if Abandoned(s) {
      forall more, t | Reaches(s, more, t) && Unaided(more) ensures t.closer != Closed {
        AbandonedAlways(s, more, t);
      }
    }
  }

  /** The steps of the read thread and of the closing thread. */
  predicate Works(a: Action) { !a.Read? && !a.Wake? && !a.Retest? && !a.GiveUp? }

  function Work(actions: seq<Action>): nat {
    if actions == [] then 0 else (if Works(actions[0]) then 1 else 0) + Work(actions[1..])
  }

  lemma DoomedKept(s: State, a: Action)
    requires Flags(s) && Order(s) && Doomed(s) && s.closer !in {Opening, Open} && Enabled(s, a)
    ensures Doomed(Do(s, a)) && Do(s, a).closer !in {Opening, Open}
    ensures Left(Do(s, a)) + (if Works(a) then 1 else 0) <= Left(s)
  {
    hide MaySignal, WithReport, Moved, WakeAll;
  }

  lemma {:induction false} DoomedAlways(s: State, actions: seq<Action>, t: State)
    requires Inv(s) && Doomed(s) && s.closer !in {Opening, Open} && Reaches(s, actions, t)
    ensures Inv(t) && Doomed(t) && t.closer !in {Opening, Open} && Work(actions) + Left(t) <= Left(s)
    decreases |actions|
  {
    hide Flags, Order, Conserved, NobodySleeps, Enabled, Do, Doomed, Left, Works;
    if actions != [] {
      var a := actions[0];
      DoomedKept(s, a);
      FlagsKept(s, a);
      ConservedKept(s, a);
      AwakeKept(s, a);
      DoomedAlways(Do(s, a), actions[1..], t);
    }
  }

  /** A step that brings nothing nearer: the transfer times out and is re-armed. */
  function Later(s: State): Action {
    match s.thread
    case InCallback(_, _) => Deliver(Sleeper(s.mail.readers))
    case Resubmitting(_) => Submit(true)
    case Handling => Return(false)
    case HandlingRest => if s.inFlight then Complete(TimedOut) else Return(false)
    case _ => Advance
  }

  lemma LaterIsLater(s: State)
    requires Flags(s) && Order(s) && !Doomed(s) && s.closer !in {Opening, Open}
    ensures
      var t := Do(s, Later(s));
      Enabled(s, Later(s)) && Works(Later(s)) && !Doomed(t) && t.closer == s.closer
  {
    hide MaySignal, WithReport, WakeAll, Sleeper;
  }

  lemma {:induction false} WorksOn(s: State, n: nat) returns (actions: seq<Action>, t: State)
    requires Flags(s) && Order(s) && !Doomed(s) && s.closer !in {Opening, Open}
    ensures Reaches(s, actions, t) && Work(actions) == n && t.closer == s.closer
    decreases n
  {
    hide Flags, Order, Enabled, Do, Doomed, Works, Later;
    if n == 0 {
      actions, t := [], s;
    } else {
      var a := Later(s);
      LaterIsLater(s);
      FlagsKept(s, a);
      var rest;
      rest, t := WorksOn(Do(s, a), n - 1);
      actions := [a] + rest;
    }
  }

  /** Once hid_close has been called it must end, however the threads are interleaved, exactly from the moment
      on that the callback has met a cancelled transfer, a lost device or a refused submission: the steps of both
      threads are bounded then, and while it has not ended one of them can move. Before that there are runs of
      any length. */
  lemma ClosingMustEnd(readers: nat, actions: seq<Action>, s: State)
    requires Reaches(Init(readers), actions, s) && s.closer !in {Opening, Open}
    ensures (exists n: nat :: Bounded(s, n)) <==> Doomed(s)
    ensures Doomed(s) ==>
              Bounded(s, Left(s)) &&
              forall more, t :: Reaches(s, more, t) && t.closer != Closed ==> exists a :: Works(a) && Enabled(t, a)
  {
    hide Reaches, Flags, Order, Enabled, Doomed, Left, Works, Nearer, Work;
    NothingYet(readers);
    InvAlways(Init(readers), actions, s);
    if Doomed(s) {
      forall more, t | Reaches(s, more, t)
        ensures Work(more) <= Left(s) && (t.closer != Closed ==> exists a :: Works(a) && Enabled(t, a))
      {
        DoomedAlways(s, more, t);
        if t.closer != Closed {
          DoomedMoves(t);
        }
      }
      assert Bounded(s, Left(s));
    } else {
      forall n: nat ensures !Bounded(s, n) {
        var more, t := WorksOn(s, n + 1);
      }
    }
  }

  ghost predicate Bounded(s: State, n: nat) {
    forall more, t :: Reaches(s, more, t) ==> Work(more) <= n
  }

  lemma DoomedMoves(s: State)
    requires Flags(s) && Order(s) && Doomed(s) && s.closer !in {Opening, Open, Closed}
    ensures Works(Nearer(s)) && Enabled(s, Nearer(s))
  {
    hide MaySignal, Sleeper;
  }

  // ----- cancels that libusb honours

  /** A transfer with a cancel pending ends as cancelled, or with the device. */
  ghost predicate Honoured(s: State, actions: seq<Action>)
    decreases |actions|
  {
    actions == [] ||
    (Enabled(s, actions[0]) && Honours(s, actions[0]) && Honoured(Do(s, actions[0]), actions[1..]))
  }

  predicate Honours(s: State, a: Action) {
    a.Complete? && s.cancelPending ==> Final(a.ending)
  }

  /** Once the main loop is left, a cancel is pending or closing must end. */
  predicate Followed(s: State) {
    s.submitted && s.thread in {UntilTest, HandlingRest} && !s.cancelled ==> s.cancelPending
  }

  predicate Unarmed(s: State) {
    (s.thread.InCallback? && s.thread.draining ==> Final(s.thread.ending)) && s.thread != Resubmitting(true)
  }

  lemma FollowedKept(s: State, a: Action)
    requires Flags(s) && Order(s) && Followed(s) && Unarmed(s) && Enabled(s, a) && Honours(s, a)
    ensures Followed(Do(s, a)) && Unarmed(Do(s, a))
  {
    hide MaySignal, WithReport, Tested, Moved, WakeAll, Taken;
  }

  lemma {:induction false} FollowedAlways(s: State, actions: seq<Action>, t: State)
    requires Flags(s) && Order(s) && Followed(s) && Unarmed(s) && Reaches(s, actions, t) && Honoured(s, actions)
    ensures Followed(t) && Unarmed(t)
    decreases |actions|
  {
    hide Flags, Order, Enabled, Do, Followed, Unarmed, Honours;
    if actions != [] {
      FlagsKept(s, actions[0]);
      FollowedKept(s, actions[0]);
      FollowedAlways(Do(s, actions[0]), actions[1..], t);
    }
  }

  /** If libusb honours every cancel, no run re-arms the transfer after both; when the read thread has left its
      main loop, the next ending of the transfer makes closing end. */
  lemma HonouredNeverAbandoned(readers: nat, actions: seq<Action>, s: State, a: Action)
    requires Reaches(Init(readers), actions, s) && Honoured(Init(readers), actions)
    ensures !Abandoned(s)
    ensures s.thread == HandlingRest && a.Complete? && Enabled(s, a) && Honours(s, a) ==> Doomed(Do(s, a))
  {
    hide Reaches, Honoured;
    InvAlways(Init(readers), actions, s);
    FollowedAlways(Init(readers), actions, s);
  }

  /** A run in which closing does not end: the transfer times out although a cancel is pending, the callback re-arms
      it, and every five seconds it does so again. The three steps lead back to the same state. */
  lemma RearmsForEver(readers: nat) returns (actions: seq<Action>, s: State)
    ensures Reaches(Init(readers), actions, s) && s.closer == Joining && s.submitted && Abandoned(s)
    ensures Reaches(s, [Complete(TimedOut), Deliver(readers), Submit(true)], s)
  {
    hide Reaches;
    var i := Init(readers);
    var before, r := BothCancels(readers);
    s := r.(cancelPending := false);
    Rearm(r, readers);
    Rearm(s, readers);
    actions := before + [Complete(TimedOut), Deliver(readers), Submit(true)];
    Onward(i, before, r, [Complete(TimedOut), Deliver(readers), Submit(true)], s);
  }

  /** One round of the callback while the read thread drains. */
  lemma Rearm(s: State, woken: nat)
    requires s.thread == HandlingRest && s.inFlight && MaySignal(s.mail.readers, woken)
    ensures Reaches(s, [Complete(TimedOut), Deliver(woken), Submit(true)], s.(cancelPending := false))
  {
    hide Reaches;
    Nowhere(s);
    var s1 := Do(s, Complete(TimedOut));
    Then(s, [], s, Complete(TimedOut));
    assert [] + [Complete(TimedOut)] == [Complete(TimedOut)];
    RearmRest(s, s1, woken);
  }

  lemma RearmRest(s: State, s1: State, woken: nat)
    requires s.thread == HandlingRest && s.inFlight && MaySignal(s.mail.readers, woken)
    requires s1 == Do(s, Complete(TimedOut)) && Reaches(s, [Complete(TimedOut)], s1)
    ensures Reaches(s, [Complete(TimedOut), Deliver(woken), Submit(true)], s.(cancelPending := false))
  {
    hide Reaches, MaySignal;
    var s2 := s1.(thread := Resubmitting(true));
    Then(s, [Complete(TimedOut)], s1, Deliver(woken));
    Then(s, [Complete(TimedOut)] + [Deliver(woken)], s2, Submit(true));
    var x, y, z := Complete(TimedOut), Deliver(woken), Submit(true);
    assert [x] + [y] + [z] == [x, y, z];
  }

  /** hid_close and the read thread have both called libusb_cancel_transfer. */
  lemma BothCancels(readers: nat) returns (actions: seq<Action>, s: State)
    ensures Reaches(Init(readers), actions, s) && s.closer == Joining && s.thread == HandlingRest
    ensures s.submitted && s.inFlight && !s.cancelled && s.cancelPending && MaySignal(s.mail.readers, readers)
  {
    hide Reaches, WakeAll, Taken, WithReport, Tested;
    var i := Init(readers);
    Nowhere(i);
    Then(i, [], i, Submit(true));
    var s1 := Do(i, Submit(true));
    actions := [] + [Submit(true)];
    Then(i, actions, s1, Pass);
    var s2 := Do(s1, Pass);
    actions := actions + [Pass];
    Then(i, actions, s2, Close);
    var s3 := Do(s2, Close);
    actions := actions + [Close];
    Then(i, actions, s3, Close);
    var s4 := Do(s3, Close);
    actions := actions + [Close];
    Then(i, actions, s4, Advance);
    var s5 := Do(s4, Advance);
    actions := actions + [Advance];
    Then(i, actions, s5, Advance);
    var s6 := Do(s5, Advance);
    actions := actions + [Advance];
    Then(i, actions, s6, Advance);
    s := Do(s6, Advance);
    actions := actions + [Advance];
  }

  lemma {:induction false} Onward(r: State, before: seq<Action>, s: State, after: seq<Action>, t: State)
    requires Reaches(r, before, s) && Reaches(s, after, t)
    ensures Reaches(r, before + after, t)
    decreases |before|
  {
    hide Enabled, Do;
    if before != [] {
      Onward(Do(r, before[0]), before[1..], s, after, t);
      assert (before + after)[1..] == before[1..] + after;
    } else {
      assert before + after == after;
    }
  }

  // ----- who sleeps

  ghost predicate Blocking(s: State, asked: nat -> bool) {
    forall i :: 0 <= i < |s.mail.readers| && s.mail.readers[i] != Outside ==> asked(i)
  }

  lemma BlockingKept(s: State, a: Action, asked: nat -> bool)
    requires Flags(s) && Order(s) && Enabled(s, a) && Blocking(s, asked)
    requires a.Read? && a.wait ==> asked(a.reader)
    ensures Blocking(Do(s, a), asked)
  {
    MailEffect(s, a);
    hide Do, Flags, Order;
  }

  lemma {:induction false} BlockingAlways(s: State, actions: seq<Action>, t: State, asked: nat -> bool)
    requires Flags(s) && Order(s) && Blocking(s, asked) && Reaches(s, actions, t)
    requires forall i: nat :: Read(i, true) in actions ==> asked(i)
    ensures Blocking(t, asked)
    decreases |actions|
  {
    hide Flags, Order, Enabled, Do, Blocking;
    if actions != [] {
      var a := actions[0];
      assert a.Read? && a.wait ==> Read(a.reader, true) in actions;
      FlagsKept(s, a);
      BlockingKept(s, a, asked);
      BlockingAlways(Do(s, a), actions[1..], t, asked);
    }
  }

  /** In every run, a reader that sleeps or was woken has asked for a blocking read. */
  lemma OnlyBlockingReadsSleep(readers: nat, actions: seq<Action>, s: State, i: nat)
    requires Reaches(Init(readers), actions, s) && i < |s.mail.readers| && s.mail.readers[i] != Outside
    ensures Read(i, true) in actions
  {
    hide Reaches;
    NothingYet(readers);
    BlockingAlways(Init(readers), actions, s, (j: nat) => Read(j, true) in actions);
  }

  /** A reader that gets to test takes the oldest report, even after a shutdown; without one it sleeps exactly if
      it may wait and there was no shutdown. */
  lemma ReadTakesOldest(readers: nat, actions: seq<Action>, s: State, a: Action)
    requires Reaches(Init(readers), actions, s) && Enabled(s, a) && (a.Read? || a.Retest?)
    ensures
      var m, n := s.mail, Do(s, a).mail;
      && n.arrived == m.arrived && a.reader < |n.readers|
      && (if m.queue != [] then m.queue == [n.removed[|n.removed| - 1]] + n.queue && n.readers[a.reader] == Outside
          else n.queue == [] && n.removed == m.removed &&
               (n.readers[a.reader] == Asleep <==> !s.shutdownThread && (a.Read? ==> a.wait)))
      && |n.removed| + |n.queue| == |m.removed| + |m.queue|
  {
    hide Reaches;
    InvAlways(Init(readers), actions, s);
    hide Flags, Order, Conserved, NobodySleeps;
  }

  // ----- leaving the main loop

  /** The read thread has not yet come to its own call of libusb_cancel_transfer. */
  predicate InMainLoop(thread: ReadThread) {
    || thread in {FirstSubmit, AtBarrier, LoopTest, Handling}
    || (thread.InCallback? && !thread.draining) || thread == Resubmitting(false)
    || thread == Stopping(false) || thread == Marking(false)
  }

  /** A fatal error of libusb_handle_events, or the test of `shutdown_thread`. */
  predicate LeavesLoop(s: State, a: Action) {
    (s.thread == Handling && a == Return(true)) || (s.thread == LoopTest && a == Advance && s.shutdownThread)
  }

  lemma LoopStep(s: State, a: Action)
    requires Flags(s) && Order(s) && Enabled(s, a)
    ensures InMainLoop(Do(s, a).thread) <==> InMainLoop(s.thread) && !LeavesLoop(s, a)
  {
    hide Flags, Order, Do, Enabled, InMainLoop;
    match a {
      case Close => LoopStepClosing(s);
      case Advance => LoopStepAdvance(s);
      case _ => LoopStepOthers(s, a);
    }
  }

  lemma LoopStepClosing(s: State)
    requires Flags(s) && Order(s) && Enabled(s, Close)
    ensures InMainLoop(Do(s, Close).thread) <==> InMainLoop(s.thread)
  {
    hide Taken;
  }

  lemma LoopStepAdvance(s: State)
    requires Flags(s) && Order(s) && Enabled(s, Advance)
    ensures InMainLoop(Do(s, Advance).thread) <==>
            InMainLoop(s.thread) && !(s.thread == LoopTest && s.shutdownThread)
  {
    hide WakeAll;
  }

  lemma LoopStepOthers(s: State, a: Action)
    requires Flags(s) && Order(s) && Enabled(s, a) && !a.Close? && !a.Advance?
    ensures InMainLoop(Do(s, a).thread) <==> InMainLoop(s.thread) && !(s.thread == Handling && a == Return(true))
  {
    hide MaySignal, WithReport, Tested, Moved, ClosedStep, Advanced;
  }

  lemma {:induction false} LeftForEver(s: State, actions: seq<Action>, t: State)
    requires Flags(s) && Order(s) && !InMainLoop(s.thread) && Reaches(s, actions, t)
    ensures !InMainLoop(t.thread)
    decreases |actions|
  {
    hide Flags, Order, Enabled, Do, InMainLoop, LeavesLoop;
    if actions != [] {
      FlagsKept(s, actions[0]);
      LoopStep(s, actions[0]);
      LeftForEver(Do(s, actions[0]), actions[1..], t);
    }
  }

  /** The main loop is left exactly by a fatal error or by a shutdown that its test sees, and then for good. */
  lemma MainLoopLeft(readers: nat, actions: seq<Action>, s: State, a: Action, more: seq<Action>, t: State)
    requires Reaches(Init(readers), actions, s) && InMainLoop(s.thread)
    requires Enabled(s, a) && Reaches(Do(s, a), more, t)
    ensures if LeavesLoop(s, a) then !InMainLoop(t.thread) else InMainLoop(Do(s, a).thread)
  {
    hide Reaches, InMainLoop, LeavesLoop, Enabled, Do;
    InvAlways(Init(readers), actions, s);
    LoopStep(s, a);
    FlagsKept(s, a);
    if LeavesLoop(s, a) {
      LeftForEver(Do(s, a), more, t);
    }
  }

  // ----- the queue

  /** In every reachable state arrivals are removals followed by the queue, which holds at most 32; a report is
      dropped only when 32 are waiting, and then the newest 32 stay. */
  lemma DroppedOnlyWhenFull(readers: nat, actions: seq<Action>, s: State, report: Octets, woken: nat)
    requires Reaches(Init(readers), actions, s)
    ensures s.mail.arrived == s.mail.removed + s.mail.queue && |s.mail.queue| <= 32
    ensures
      var m := WithReport(s.mail, report, woken);
      m.removed != s.mail.removed ==> |s.mail.queue| == 32 && m.arrived[|m.arrived| - 32..] == m.queue
  {
    InvAlways(Init(readers), actions, s);
    ReportConserves(s.mail, report, woken);
    var m := WithReport(s.mail, report, woken);
    assert m.arrived[|m.removed|..] == m.queue;
  }

  // ----- wake-ups

  /** No reader sleeps while a report waits. */
  predicate NoLostWakeup(m: Mail) {
    m.queue != [] ==> NobodySleeps(m)
  }

  lemma ReportWakes(m: Mail, report: Octets, woken: nat)
    requires |m.readers| <= 1 && NoLostWakeup(m) && MaySignal(m.readers, woken)
    ensures NoLostWakeup(WithReport(m, report, woken))
  {
    hide Attached;
  }

  lemma TestWakes(m: Mail, shutdownThread: bool, i: nat, wait: bool)
    requires NoLostWakeup(m) && i < |m.readers|
    ensures NoLostWakeup(Tested(m, shutdownThread, i, wait))
  {}

  lemma MoveWakes(m: Mail, i: nat, reader: Reader)
    requires NoLostWakeup(m) && i < |m.readers| && reader != Asleep
    ensures NoLostWakeup(Moved(m, i, reader))
  {}

  lemma TakeAndBroadcastWake(m: Mail)
    requires NoLostWakeup(m)
    ensures NoLostWakeup(WakeAll(m)) && (m.queue != [] ==> NoLostWakeup(Taken(m)))
  {}

  lemma SameReaders(s: State, a: Action)
    requires Flags(s) && Order(s) && Enabled(s, a)
    ensures |Do(s, a).mail.readers| == |s.mail.readers|
  {
    MailEffect(s, a);
    hide Do, WithReport, Taken, Tested, Moved, WakeAll;
  }

  lemma WakeupKept(s: State, a: Action)
    requires Flags(s) && Order(s) && |s.mail.readers| <= 1 && NoLostWakeup(s.mail) && Enabled(s, a)
    ensures NoLostWakeup(Do(s, a).mail) && |Do(s, a).mail.readers| == |s.mail.readers|
  {
    hide Do, Flags, Order, NoLostWakeup, WithReport, Tested, Moved, WakeAll, Taken, MaySignal;
    MailEffect(s, a);
    SameReaders(s, a);
    TakeAndBroadcastWake(s.mail);
    match a {
      case Deliver(woken) =>
        if s.thread.ending.Completed? {
          ReportWakes(s.mail, s.thread.ending.report, woken);
        }
      case Read(i, wait) => TestWakes(s.mail, s.shutdownThread, i, wait);
      case Retest(i) => TestWakes(s.mail, s.shutdownThread, i, true);
      case Wake(i) => MoveWakes(s.mail, i, Woken);
      case GiveUp(i) => MoveWakes(s.mail, i, Outside);
      case _ =>
    }
  }

  /** With one reader, in every run. */
  lemma {:induction false} WakeupAlways(s: State, actions: seq<Action>, t: State)
    requires Flags(s) && Order(s) && |s.mail.readers| <= 1 && NoLostWakeup(s.mail) && Reaches(s, actions, t)
    ensures NoLostWakeup(t.mail)
    decreases |actions|
  {
    hide NoLostWakeup, Enabled, Do, Flags, Order;
    if actions != [] {
      FlagsKept(s, actions[0]);
      WakeupKept(s, actions[0]);
      WakeupAlways(Do(s, actions[0]), actions[1..], t);
    }
  }

  lemma {:induction false} Then(r: State, actions: seq<Action>, s: State, a: Action)
    requires Reaches(r, actions, s) && Enabled(s, a)
    ensures Reaches(r, actions + [a], Do(s, a))
    decreases |actions|
  {
    hide Enabled, Do;
    if actions != [] {
      Then(Do(r, actions[0]), actions[1..], s, a);
      assert (actions + [a])[1..] == actions[1..] + [a];
    } else {
      assert [a][1..] == [];
    }
  }

  /** Two readers sleep; two reports arrive before the first one is taken. Only the first report signals. */
  lemma SleepsOn(readers: nat) returns (actions: seq<Action>, s: State)
    requires readers >= 2
    ensures Reaches(Init(readers), actions, s) && !NoLostWakeup(s.mail)
    ensures s.mail.readers[0] == Outside && s.mail.readers[1] == Asleep && |s.mail.queue| == 1
  {
    hide Reaches, WithReport, Tested;
    var t := TwoAsleep(readers);
    var u, v, w;
    actions, u := t.0, t.1;
    TwoReports(u.mail);
    actions, v := Report(readers, actions, u, [1], 0);
    actions, w := Report(readers, actions, v, [2], 1);
    Then(Init(readers), actions, w, Retest(0));
    actions, s := actions + [Retest(0)], Do(w, Retest(0));
  }

  lemma TwoReports(m: Mail)
    requires |m.readers| >= 2 && m.readers[0] == Asleep && m.readers[1] == Asleep && m.queue == []
    ensures
      var a := WithReport(m, [1], 0);
      var b := WithReport(a, [2], 1);
      var t := Tested(b, false, 0, true);
      && a.readers[1] == Asleep && b.readers[0] == Woken
      && t.readers[0] == Outside && t.readers[1] == Asleep && |t.queue| == 1
  {
    assert Attached([], [1]) == [[1]] && Attached([[1]], [2]) == [[1], [2]];
  }

  lemma TwoAsleep(readers: nat) returns (r: (seq<Action>, State))
    requires readers >= 2
    ensures Reaches(Init(readers), r.0, r.1) && r.1.thread == LoopTest && !r.1.shutdownThread && r.1.inFlight
    ensures |r.1.mail.readers| >= 2 && r.1.mail.readers[0] == Asleep && r.1.mail.readers[1] == Asleep &&
            r.1.mail.queue == []
  {
    hide Reaches;
    var s := Init(readers);
    Nowhere(s);
    Then(s, [], s, Submit(true));
    var s1 := Do(s, Submit(true));
    Then(s, [] + [Submit(true)], s1, Pass);
    var s2 := Do(s1, Pass);
    Then(s, [] + [Submit(true)] + [Pass], s2, Read(0, true));
    var s3 := Do(s2, Read(0, true));
    Then(s, [] + [Submit(true)] + [Pass] + [Read(0, true)], s3, Read(1, true));
    r := ([] + [Submit(true)] + [Pass] + [Read(0, true)] + [Read(1, true)], Do(s3, Read(1, true)));
  }

  lemma Nowhere(s: State)
    ensures Reaches(s, [], s)
  {}

  /** One round of the read thread with a report. */
  lemma Report(readers: nat, before: seq<Action>, s: State, report: Octets,
               woken: nat) returns (actions: seq<Action>, t: State)
    requires Reaches(Init(readers), before, s) && s.thread == LoopTest && !s.shutdownThread && s.inFlight
    requires woken < |s.mail.readers| && s.mail.readers[woken] == Asleep
    ensures Reaches(Init(readers), actions, t) && t.thread == LoopTest && !t.shutdownThread && t.inFlight
    ensures t.mail == WithReport(s.mail, report, woken)
  {
    hide Reaches, WithReport;
    var i := Init(readers);
    Then(i, before, s, Advance);
    var s1 := Do(s, Advance);
    Then(i, before + [Advance], s1, Complete(Completed(report)));
    var s2 := Do(s1, Complete(Completed(report)));
    Then(i, before + [Advance] + [Complete(Completed(report))], s2, Deliver(woken));
    var s3 := Do(s2, Deliver(woken));
    Then(i, before + [Advance] + [Complete(Completed(report))] + [Deliver(woken)], s3, Submit(true));
    var s4 := Do(s3, Submit(true));
    Then(i, before + [Advance] + [Complete(Completed(report))] + [Deliver(woken)] + [Submit(true)], s4, Return(false));
    actions := before + [Advance] + [Complete(Completed(report))] + [Deliver(woken)] + [Submit(true)] + [Return(false)];
    t := Do(s4, Return(false));
  }

  /** Wake-ups are never lost exactly when at most one thread reads. */
  lemma WakeupsIff(readers: nat)
    ensures (forall actions, s :: Reaches(Init(readers), actions, s) ==> NoLostWakeup(s.mail)) <==> readers <= 1
  {
    hide Reaches, NoLostWakeup;
    if readers <= 1 {
      forall actions, s | Reaches(Init(readers), actions, s) ensures NoLostWakeup(s.mail) {
        NothingYet(readers);
        WakeupAlways(Init(readers), actions, s);
      }
    } else {
      var actions, s := SleepsOn(readers);
    }
  }

  lemma NothingYet(readers: nat)
    ensures NoLostWakeup(Init(readers).mail) && Flags(Init(readers)) && Order(Init(readers))
  {}
}
