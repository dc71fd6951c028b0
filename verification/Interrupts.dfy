/** The cancellation protocol of guarded calls: each call's watchdog goroutine against its caller,
    the guest and every other call, as interleaved steps on one interrupt-flag word.  Calls may
    overlap: a callback can make a guarded call inside another one, and goroutines can.  An entry of
    the guest that is not guarded (a helper operation, a close) is a call that cannot be cancelled. */
module Interrupts {

  import opened Options

  type Id = nat

  /** Where a call's own goroutine is in valueOp. */
  datatype Pc =
    | Entered
    | Arming
    | Running
    | Disarming
    | Waiting
    | Clearing
    | Returned(interrupted: bool)
    | Refused

  /** Where its watchdog is. */
  datatype Watch = NoWatchdog | Selecting | Storing | SendingTrue | SendingFalse | Exited

  /** cancellable: ctx.Done() is not nil.  fired is the one-place channel.  seen and lost are
      history: after its store the call's own guest tested the flag, or another call's guest or
      disarm took it first. */
  datatype Call = Call(pc: Pc, cancellable: bool, cancelled: bool, watch: Watch, stop: bool, fired: Option<bool>,
                       seen: bool, lost: bool)

  datatype State = State(calls: map<Id, Call>, flag: nat)

  datatype Act =
    // valueOp
    | Enter(cancellable: bool)
    | CheckErr
    | Arm
    | InvokeReturns
    | CloseStop
    | Receive
    | ClearFlag
    // the watchdog
    | ChooseDone
    | ChooseStop
    | StoreFlag
    | SendTrue
    | SendFalse
    // the context, and guest code: under the invoke, or before arming, when queued handles are
    // released and destructors can run
    | Cancel
    | GuestTest

  datatype Event = Event(id: Id, act: Act)

  predicate Open(c: Call) {
    !c.pc.Returned? && !c.pc.Refused?
  }

  /** Its watchdog has stored the flag. */
  predicate Stored(c: Call) {
    c.watch == SendingTrue || (c.watch == Exited && (c.fired == Some(true) || c.pc == Clearing || c.pc == Returned(true)))
  }

  /** One step of a call by itself: None when it is not enabled. */
  function CallStep(c: Call, act: Act): Option<Call> {
    match act
    case Enter(_) => None
    case CheckErr => if c.pc != Entered then None else Some(c.(pc := if c.cancelled then Refused else Arming))
    case Arm => if c.pc != Arming then None else Some(c.(pc := Running, watch := if c.cancellable then Selecting else NoWatchdog))
    case InvokeReturns => if c.pc != Running then None else Some(c.(pc := if c.cancellable then Disarming else Returned(false)))
    case CloseStop => if c.pc != Disarming then None else Some(c.(pc := Waiting, stop := true))
    case Receive =>
      if c.pc != Waiting || c.fired == None then None
      else Some(c.(pc := if c.fired.value then Clearing else Returned(false), fired := None))
    case ClearFlag => if c.pc != Clearing then None else Some(c.(pc := Returned(true)))
    case ChooseDone => if c.watch != Selecting || !c.cancelled then None else Some(c.(watch := Storing))
    case ChooseStop => if c.watch != Selecting || !c.stop then None else Some(c.(watch := SendingFalse))
    case StoreFlag => if c.watch != Storing then None else Some(c.(watch := SendingTrue))
    case SendTrue => if c.watch != SendingTrue || c.fired != None then None else Some(c.(watch := Exited, fired := Some(true)))
    case SendFalse => if c.watch != SendingFalse || c.fired != None then None else Some(c.(watch := Exited, fired := Some(false)))
    case Cancel => if !c.cancellable then None else Some(c.(cancelled := true))
    case GuestTest => if c.pc != Arming && c.pc != Running then None else Some(c)
  }

  function FlagAfter(flag: nat, act: Act): nat {
    if act == StoreFlag then 1 else if act == ClearFlag || act == GuestTest then 0 else flag
  }

  /** Its stored flag is still there for its guest. */
  predicate Pending(c: Call) {
    Open(c) && Stored(c) && !c.seen && !c.lost
  }

  /** The history of a call when the flag is tested or cleared, by itself (own) or by another. */
  function Marked(c: Call, own: bool, act: Act, flag: nat): Call {
    if !Pending(c) then c
    else if act == GuestTest && flag != 0 then (if own then c.(seen := true) else c.(lost := true))
    else if act == ClearFlag then c.(lost := true)
    else c
  }

  /** One step of the whole system: None when it is not enabled. */
  function Next(s: State, e: Event): Option<State> {
    if e.act.Enter? then
      if e.id in s.calls then None
      else Some(s.(calls := s.calls[e.id := Call(Entered, e.act.cancellable, false, NoWatchdog, false, None, false, false)]))
    else if e.id !in s.calls || CallStep(s.calls[e.id], e.act) == None then None
    else
      var calls := s.calls[e.id := CallStep(s.calls[e.id], e.act).value];
      Some(State(map k | k in calls :: Marked(calls[k], k == e.id, e.act, s.flag), FlagAfter(s.flag, e.act)))
  }

  /** The state after a trace: None when one of its steps was not enabled. */
  function After(trace: seq<Event>): Option<State> {
    if trace == [] then Some(State(map[], 0)) else
    var before := After(trace[..|trace| - 1]);
    if before == None then None else Next(before.value, trace[|trace| - 1])
  }

  // ---- what every step keeps ----------------------------------------------------------

  ghost predicate CallOk(c: Call) {
    && (c.fired != None ==> c.watch == Exited)
    && (c.stop <==> c.cancellable && (c.pc == Waiting || c.pc == Clearing || c.pc.Returned?))
    && (c.pc == Entered || c.pc == Arming || c.pc == Refused || !c.cancellable ==> c.watch == NoWatchdog)
    && ((c.pc == Running || c.pc == Disarming) && c.cancellable ==> c.watch != NoWatchdog && (c.watch == Exited ==> c.fired == Some(true)) && c.watch != SendingFalse)
    && (c.pc == Waiting ==> c.cancellable && c.watch != NoWatchdog && (c.watch == Exited ==> c.fired != None))
    && (c.pc == Clearing ==> c.cancellable && c.watch == Exited && c.fired == None)
    && (c.pc.Returned? && c.cancellable ==> c.watch == Exited && c.fired == None)
    && (c.pc == Returned(true) || c.pc == Disarming ==> c.cancellable)
    && (c.seen || c.lost ==> Stored(c))
  }

  ghost predicate Inv(s: State) {
    && s.flag <= 1
    && (forall k :: k in s.calls ==> CallOk(s.calls[k]))
    && (s.flag == 1 ==> exists k :: k in s.calls && Open(s.calls[k]) && Stored(s.calls[k]))
    && (forall k :: k in s.calls && Pending(s.calls[k]) ==> s.flag == 1)
  }

  lemma {:induction false} CallStepKeeps(c: Call, act: Act)
    requires CallOk(c) && CallStep(c, act) != None
    ensures CallOk(CallStep(c, act).value)
    ensures var d := CallStep(c, act).value;
      && (act == StoreFlag ==> !Stored(c) && Stored(d) && Open(d))
      && (act != StoreFlag && act != ClearFlag && Stored(c) ==> Stored(d) && (Open(c) ==> Open(d)))
      && (act != StoreFlag && Stored(d) ==> Stored(c))
      && (Open(d) ==> Open(c)) && (act == ClearFlag ==> Stored(c) && Open(c) && !Open(d))
      && (act == GuestTest ==> Open(c))
      && d.seen == c.seen && d.lost == c.lost
  {
  }

  /** What a step of the system is to one call. */
  function CallAfter(c: Call, own: bool, act: Act, flag: nat): Option<Call> {
    if act.Enter? then (if own then None else Some(c))
    else if !own then Some(Marked(c, false, act, flag))
    else if CallStep(c, act) == None then None
    else Some(Marked(CallStep(c, act).value, true, act, flag))
  }

  lemma {:induction false} NextOf(s: State, e: Event)
    requires Next(s, e) != None
    ensures var t := Next(s, e).value;
      && t.flag == FlagAfter(s.flag, e.act)
      && t.calls.Keys == s.calls.Keys + {e.id} && (e.act.Enter? <==> e.id !in s.calls)
      && (forall k :: k in s.calls ==> CallAfter(s.calls[k], k == e.id, e.act, s.flag) == Some(t.calls[k]))
      && (e.act.Enter? ==> t.calls[e.id] == Call(Entered, e.act.cancellable, false, NoWatchdog, false, None, false, false))
  {
    hide CallStep, Marked;
  }

  /** What one step keeps of each call and how its store, its opening and its history move. */
  lemma {:induction false} CallMoves(c: Call, own: bool, act: Act, flag: nat)
    requires CallOk(c) && CallAfter(c, own, act, flag) != None && (Pending(c) ==> flag == 1)
    ensures var d := CallAfter(c, own, act, flag).value;
      && CallOk(d)
      && (Stored(d) <==> Stored(c) || (own && act == StoreFlag))
      && (Open(d) ==> Open(c))
      && (own && act == StoreFlag ==> Open(d))
      && (own && act == ClearFlag ==> Stored(c) && Open(c) && !Open(d))
      && (own && act == GuestTest ==> Open(c))
      && (Open(c) && Stored(c) && !(own && act == ClearFlag) ==> Open(d))
      && (Pending(d) <==> (own && act == StoreFlag) || (Pending(c) && act != ClearFlag && act != GuestTest))
      && (d.lost <==> c.lost || (Pending(c) && !own && (act == ClearFlag || act == GuestTest)))
      && (d.seen <==> c.seen || (Pending(c) && own && act == GuestTest))
  {
    if own && !act.Enter? {
      CallStepKeeps(c, act);
    }
  }

  lemma {:induction false} NextKeeps(s: State, e: Event)
    requires Inv(s) && Next(s, e) != None
    ensures Inv(Next(s, e).value)
  {
    hide CallStep, Marked, Next, CallAfter, CallOk, Stored, Open, Pending;
    NextOf(s, e);
    var t := Next(s, e).value;
    NewCallOk(e);
    forall k | k in s.calls ensures CallOk(t.calls[k]) {
      CallMoves(s.calls[k], k == e.id, e.act, s.flag);
    }
    if t.flag == 1 {
      FlagHasOwner(s, e);
    }
    forall k | k in t.calls && Pending(t.calls[k]) ensures t.flag == 1 {
      assert k in s.calls;
      CallMoves(s.calls[k], k == e.id, e.act, s.flag);
    }
  }

  lemma {:induction false} NewCallOk(e: Event)
    ensures e.act.Enter? ==> var c := Call(Entered, e.act.cancellable, false, NoWatchdog, false, None, false, false); CallOk(c) && !Stored(c) && !Pending(c)
  {
  }

  lemma {:induction false} FlagHasOwner(s: State, e: Event)
    requires Inv(s) && Next(s, e) != None && Next(s, e).value.flag == 1
    ensures var t := Next(s, e).value; exists k :: k in t.calls && Open(t.calls[k]) && Stored(t.calls[k])
  {
    hide CallStep, Marked, Next, CallAfter, CallOk, Stored, Open, Pending;
    NextOf(s, e);
    var t := Next(s, e).value;
    var k := e.id;
    if e.act != StoreFlag {
      k :| k in s.calls && Open(s.calls[k]) && Stored(s.calls[k]);
    }
    CallMoves(s.calls[k], k == e.id, e.act, s.flag);
    assert k in t.calls && Open(t.calls[k]) && Stored(t.calls[k]);
  }

  lemma {:induction false} AlwaysInv(trace: seq<Event>)
    requires After(trace) != None
    ensures Inv(After(trace).value)
  {
    if trace != [] {
      AlwaysInv(trace[..|trace| - 1]);
      NextKeeps(After(trace[..|trace| - 1]).value, trace[|trace| - 1]);
    }
  }

  // ---- disarm ---------------------------------------------------------------------------

  /** Whether id's watchdog stored the flag is the same in the trace as in the state. */
  lemma {:induction false} StoresAreCounted(trace: seq<Event>, id: Id)
    requires After(trace) != None
    ensures Event(id, StoreFlag) in trace <==> id in After(trace).value.calls && Stored(After(trace).value.calls[id])
  {
    hide CallStep, Marked, Next, CallAfter, CallOk, Stored, Open, Pending;
    if trace != [] {
      var before, e := trace[..|trace| - 1], trace[|trace| - 1];
      assert trace == before + [e];
      StoresAreCounted(before, id);
      AlwaysInv(before);
      var s := After(before).value;
      NextOf(s, e);
      NewCallOk(e);
      if id in s.calls {
        CallMoves(s.calls[id], id == e.id, e.act, s.flag);
      }
    }
  }

  /** disarm reports true exactly when this call's watchdog stored the flag. */
  lemma {:induction false} DisarmIsExact(trace: seq<Event>, id: Id)
    requires After(trace) != None && id in After(trace).value.calls && After(trace).value.calls[id].pc.Returned?
    ensures After(trace).value.calls[id].pc.interrupted <==> Event(id, StoreFlag) in trace
  {
    StoresAreCounted(trace, id);
    AlwaysInv(trace);
  }

  // ---- cancellation -----------------------------------------------------------------------

  /** Whether a call's context is cancelled is the same in the trace as in the state, and its
      watchdog has stored the flag, or is about to, only if it is. */
  lemma {:induction false} CancelsAreCounted(trace: seq<Event>, id: Id)
    requires After(trace) != None
    ensures Event(id, Cancel) in trace <==> id in After(trace).value.calls && After(trace).value.calls[id].cancelled
    ensures id in After(trace).value.calls ==> FiredByCancel(After(trace).value.calls[id])
  {
    hide CallStep, Marked, Next, CallAfter, CallOk, Stored, Open, Pending, FiredByCancel;
    if trace != [] {
      var before, e := trace[..|trace| - 1], trace[|trace| - 1];
      assert trace == before + [e];
      CancelsAreCounted(before, id);
      AlwaysInv(before);
      var s := After(before).value;
      NextOf(s, e);
      NewIsCalm(e);
      if id in s.calls {
        InvCall(s, id);
        CancelMoves(s.calls[id], id == e.id, e.act, s.flag);
      }
    }
  }

  predicate FiredByCancel(c: Call) {
    Stored(c) || c.watch == Storing ==> c.cancelled
  }

  lemma {:induction false} NewIsCalm(e: Event)
    ensures e.act.Enter? ==>
      FiredByCancel(Call(Entered, e.act.cancellable, false, NoWatchdog, false, None, false, false)) && e.act != Cancel
  {
  }

  lemma {:induction false} CancelMoves(c: Call, own: bool, act: Act, flag: nat)
    requires CallOk(c) && FiredByCancel(c) && CallAfter(c, own, act, flag) != None
    ensures var d := CallAfter(c, own, act, flag).value;
      FiredByCancel(d) && (d.cancelled <==> c.cancelled || (own && act == Cancel))
  {
  }

  /** Every store of the flag follows the cancellation of that call's own context. */
  lemma {:induction false} StoredByCancel(trace: seq<Event>, id: Id, j: nat) returns (i: nat)
    requires After(trace) != None && j < |trace| && trace[j] == Event(id, StoreFlag)
    ensures i < j && trace[i] == Event(id, Cancel)
  {
    var upto, rest := trace[..j + 1], trace[j + 1..];
    assert [] + upto == upto && [] + trace == trace;
    Prefixes(trace, j + 1);
    assert upto[j] == Event(id, StoreFlag);
    StoresAreCounted(upto, id);
    CancelsAreCounted(upto, id);
    i :| 0 <= i < |upto| && upto[i] == Event(id, Cancel);
  }

  lemma {:induction false} Prefixes(trace: seq<Event>, i: nat)
    requires After(trace) != None && i <= |trace|
    ensures After(trace[..i]) != None
  {
    hide Next;
    if i < |trace| {
      assert trace[..|trace| - 1][..i] == trace[..i];
      Prefixes(trace[..|trace| - 1], i);
    } else {
      assert trace[..i] == trace;
    }
  }

  /** A call on a live context is never interrupted: it can only return uninterrupted. */
  lemma {:induction false} LiveContextReturns(trace: seq<Event>, id: Id)
    requires After(trace) != None && id in After(trace).value.calls && Event(id, Cancel) !in trace
    ensures Event(id, StoreFlag) !in trace
    ensures After(trace).value.calls[id].pc.Returned? ==> After(trace).value.calls[id].pc == Returned(false)
    ensures After(trace).value.calls[id].pc != Refused
  {
    hide CallStep, Marked, Next, CallOk;
    CancelsAreCounted(trace, id);
    StoresAreCounted(trace, id);
    RefusedIsCancelled(trace, id);
    if After(trace).value.calls[id].pc.Returned? {
      DisarmIsExact(trace, id);
    }
  }

  /** The check on entry refuses a call exactly when its context was cancelled before it; a refused
      call takes no further step of its own. */
  lemma {:induction false} RefusedIsCancelled(trace: seq<Event>, id: Id)
    requires After(trace) != None && id in After(trace).value.calls
    ensures After(trace).value.calls[id].pc.Refused? <==> CheckedAfterCancel(trace, id)
    ensures After(trace).value.calls[id].pc == Entered <==> Event(id, CheckErr) !in trace
    ensures CheckedAfterCancel(trace, id) ==> Event(id, Cancel) in trace && Finished(After(trace).value, id)
  {
    hide Marked, Next, CallOk, Stored, Pending, CallAfter;
    var before, e := trace[..|trace| - 1], trace[|trace| - 1];
    assert trace == before + [e];
    var s := After(before).value;
    NextOf(s, e);
    CheckStep(before, e, id);
    NoCallNoCheck(before, id);
    if id in s.calls {
      RefusedIsCancelled(before, id);
      CancelsAreCounted(before, id);
      CheckMoves(s.calls[id], id == e.id, e.act, s.flag);
    }
  }

  /** id's context was cancelled when its entry checked it. */
  ghost predicate CheckedAfterCancel(trace: seq<Event>, id: Id) {
    exists j: nat :: j < |trace| && trace[j] == Event(id, CheckErr) && Event(id, Cancel) in trace[..j]
  }

  lemma {:induction false} CheckStep(before: seq<Event>, e: Event, id: Id)
    ensures CheckedAfterCancel(before + [e], id) <==>
      CheckedAfterCancel(before, id) || (e == Event(id, CheckErr) && Event(id, Cancel) in before)
    ensures CheckedAfterCancel(before, id) ==> Event(id, CheckErr) in before && Event(id, Cancel) in before
  {
    var trace := before + [e];
    assert trace[..|before|] == before && forall j :: 0 <= j < |before| ==> trace[..j] == before[..j] && trace[j] == before[j];
    if CheckedAfterCancel(before, id) {
      var j: nat :| j < |before| && before[j] == Event(id, CheckErr) && Event(id, Cancel) in before[..j];
      assert trace[j] == Event(id, CheckErr) && Event(id, Cancel) in trace[..j];
    }
    if e == Event(id, CheckErr) && Event(id, Cancel) in before {
      assert trace[|before|] == Event(id, CheckErr) && Event(id, Cancel) in trace[..|before|];
    }
  }

  /** No step of a call comes before its entry. */
  lemma {:induction false} NoCallNoCheck(trace: seq<Event>, id: Id)
    requires After(trace) != None
    ensures id !in After(trace).value.calls ==> forall e :: e in trace ==> e.id != id
  {
    if trace != [] {
      var before, e := trace[..|trace| - 1], trace[|trace| - 1];
      assert trace == before + [e];
      NoCallNoCheck(before, id);
      NextOf(After(before).value, e);
    }
  }

  lemma {:induction false} CheckMoves(c: Call, own: bool, act: Act, flag: nat)
    requires CallAfter(c, own, act, flag) != None
    ensures var d := CallAfter(c, own, act, flag).value;
      && (d.pc == Entered <==> c.pc == Entered && !(own && act == CheckErr))
      && (d.pc.Refused? <==> c.pc.Refused? || (own && act == CheckErr && c.cancelled))
      && (own && act == CheckErr ==> c.pc == Entered)
  {
    hide Marked;
    var d := if own && !act.Enter? then CallStep(c, act).value else c;
    MarkedKeeps(d, own, act, flag);
  }

  lemma {:induction false} MarkedKeeps(c: Call, own: bool, act: Act, flag: nat)
    ensures Marked(c, own, act, flag).(seen := c.seen, lost := c.lost) == c
  {
  }

  predicate Finished(s: State, id: Id) {
    id in s.calls && !Open(s.calls[id])
  }

  lemma {:induction false} FinishedStays(s: State, e: Event, id: Id)
    requires Inv(s) && Finished(s, id) && Next(s, e) != None
    ensures Finished(Next(s, e).value, id)
    ensures e.id == id ==> e.act == Cancel
  {
    hide Next, Inv, CallOk, CallAfter, Open;
    NextOf(s, e);
    InvCall(s, id);
    FinishedAlone(s.calls[id], id == e.id, e.act, s.flag);
  }

  lemma {:induction false} FinishedAlone(c: Call, own: bool, act: Act, flag: nat)
    requires CallOk(c) && !Open(c) && CallAfter(c, own, act, flag) != None
    ensures !Open(CallAfter(c, own, act, flag).value) && (own ==> act == Cancel)
  {
    hide Stored;
  }

  /** Once a call has returned, neither it nor its watchdog takes another step: no store can
      come late. */
  lemma {:induction false} NoLateStore(trace: seq<Event>, more: seq<Event>, id: Id)
    requires After(trace) != None && Finished(After(trace).value, id) && After(trace + more) != None
    ensures Finished(After(trace + more).value, id)
    ensures forall i :: 0 <= i < |more| && more[i].id == id ==> more[i].act == Cancel
  {
    hide Next, Finished, Inv;
    if more == [] {
      assert trace + more == trace;
    } else {
      var less := more[..|more| - 1];
      assert (trace + more)[..|trace + more| - 1] == trace + less;
      NoLateStore(trace, less, id);
      AlwaysInv(trace + less);
      FinishedStays(After(trace + less).value, more[|more| - 1], id);
    }
  }

  predicate Quiet(s: State) {
    forall k :: k in s.calls ==> !Open(s.calls[k])
  }

  /** No call open leaves the flag clear, whatever overlapped before. */
  lemma {:induction false} NoLingeringFlag(trace: seq<Event>)
    requires After(trace) != None && Quiet(After(trace).value)
    ensures After(trace).value.flag == 0
  {
    AlwaysInv(trace);
  }

  /** The flag is set on return from disarm only by the watchdog of a call still open. */
  lemma {:induction false} FlagBelongsToAnOpenCall(trace: seq<Event>)
    requires After(trace) != None && After(trace).value.flag != 0
    ensures exists k :: k in After(trace).value.calls && Open(After(trace).value.calls[k]) && Event(k, StoreFlag) in trace
  {
    AlwaysInv(trace);
    var s := After(trace).value;
    var k :| k in s.calls && Open(s.calls[k]) && Stored(s.calls[k]);
    StoresAreCounted(trace, k);
  }

  // ---- one call at a time -----------------------------------------------------------------

  /** Every call of the trace begins when no other is open. */
  predicate OneAtATime(trace: seq<Event>) {
    forall i :: 0 <= i < |trace| ==> BeginsAlone(trace, i)
  }

  predicate BeginsAlone(trace: seq<Event>, i: nat)
    requires i < |trace|
  {
    trace[i].act.Enter? && After(trace[..i]) != None ==> Quiet(After(trace[..i]).value)
  }

  lemma {:induction false} OneAtATimeBefore(trace: seq<Event>)
    requires OneAtATime(trace) && trace != []
    ensures OneAtATime(trace[..|trace| - 1])
  {
    var before := trace[..|trace| - 1];
    forall i | 0 <= i < |before| ensures BeginsAlone(before, i) {
      assert BeginsAlone(trace, i) && before[..i] == trace[..i] && before[i] == trace[i];
    }
  }

  ghost predicate AtMostOne(s: State) {
    && (forall j, k :: j in s.calls && k in s.calls && Open(s.calls[j]) && Open(s.calls[k]) ==> j == k)
    && (forall k :: k in s.calls && Open(s.calls[k]) ==> !s.calls[k].lost)
  }

  lemma {:induction false} StaysAtMostOne(trace: seq<Event>)
    requires After(trace) != None && OneAtATime(trace)
    ensures AtMostOne(After(trace).value)
  {
    hide CallStep, Marked, Next, CallAfter, CallOk, Stored, Open, Pending, AtMostOne;
    if trace != [] {
      var before, e := trace[..|trace| - 1], trace[|trace| - 1];
      OneAtATimeBefore(trace);
      assert BeginsAlone(trace, |trace| - 1);
      StaysAtMostOne(before);
      AlwaysInv(before);
      AtMostOneKept(After(before).value, e);
    } else {
      assert AtMostOne(State(map[], 0)) by { NoCalls(); }
    }
  }

  lemma {:induction false} NoCalls()
    ensures AtMostOne(State(map[], 0))
  {
  }

  lemma {:induction false} AtMostOneKept(s: State, e: Event)
    requires Inv(s) && AtMostOne(s) && Next(s, e) != None && (e.act.Enter? ==> Quiet(s))
    ensures AtMostOne(Next(s, e).value)
  {
    hide CallStep, Marked, Next, CallAfter, CallOk, Stored, Open, Pending;
    NextOf(s, e);
    NewCallOk(e);
    var t := Next(s, e).value;
    forall k | k in s.calls ensures (Open(t.calls[k]) ==> Open(s.calls[k])) && (t.calls[k].lost && Open(t.calls[k]) ==> s.calls[k].lost) {
      CallMoves(s.calls[k], k == e.id, e.act, s.flag);
      if !e.act.Enter? {
        CallMoves(s.calls[e.id], true, e.act, s.flag);
      }
    }
  }

  /** Over any sequence of guarded calls the flag is clear whenever disarm has returned. */
  lemma {:induction false} SequentialFlagClear(before: seq<Event>, e: Event, id: Id)
    requires OneAtATime(before + [e]) && Returns(before, e, id)
    ensures After(before + [e]).value.flag == 0
  {
    hide CallStep, Marked, Next, CallAfter, CallOk, Stored, Open, Pending;
    var trace := before + [e];
    assert trace[..|trace| - 1] == before;
    OneAtATimeBefore(trace);
    assert BeginsAlone(trace, |trace| - 1);
    StaysAtMostOne(before);
    AlwaysInv(before);
    AlwaysInv(trace);
    var s, t := After(before).value, After(trace).value;
    NextOf(s, e);
    forall k | k in t.calls ensures !Open(t.calls[k]) {
      if k in s.calls {
        CallMoves(s.calls[k], k == e.id, e.act, s.flag);
      }
    }
  }

  /** The event e, after before, ends the call id. */
  predicate Returns(before: seq<Event>, e: Event, id: Id) {
    && After(before) != None && After(before + [e]) != None
    && id in After(before).value.calls && !Finished(After(before).value, id) && Finished(After(before + [e]).value, id)
  }

  /** ... and a stored interrupt stays for the guest until the guest sees it or the call ends. */
  lemma {:induction false} SequentialInterruptKept(trace: seq<Event>, id: Id)
    requires After(trace) != None && OneAtATime(trace) && Event(id, StoreFlag) in trace
    ensures id in After(trace).value.calls
    ensures var c := After(trace).value.calls[id];
      Open(c) ==> After(trace).value.flag == 1 || c.seen
  {
    StoresAreCounted(trace, id);
    AlwaysInv(trace);
    StaysAtMostOne(trace);
  }

  /** A call armed on a context that can be cancelled. */
  function ArmedTrace(id: Id): seq<Event> {
    [Event(id, Enter(true)), Event(id, CheckErr), Event(id, Arm)]
  }

  /** Its context cancelled and the flag stored for it. */
  function FiredTrace(id: Id): seq<Event> {
    [Event(id, Cancel), Event(id, ChooseDone), Event(id, StoreFlag)]
  }

  function DisarmedTrace(id: Id): seq<Event> {
    [Event(id, SendTrue), Event(id, InvokeReturns), Event(id, CloseStop), Event(id, Receive), Event(id, ClearFlag)]
  }

  predicate Plain(a: Act) {
    a != ClearFlag && a != GuestTest && !a.Enter?
  }

  /** A step that neither clears nor tests the flag changes its own call only. */
  lemma {:induction false} Stepped(trace: seq<Event>, s: State, e: Event, d: Call)
    requires After(trace) == Some(s) && e.id in s.calls && Plain(e.act) && CallStep(s.calls[e.id], e.act) == Some(d)
    ensures After(trace + [e]) == Some(State(s.calls[e.id := d], FlagAfter(s.flag, e.act)))
  {
    hide CallStep, Stored, Open;
    assert (trace + [e])[..|trace|] == trace;
    var calls := s.calls[e.id := d];
    assert (map k | k in calls :: Marked(calls[k], k == e.id, e.act, s.flag)) == calls;
  }

  lemma {:induction false} Armed(trace: seq<Event>, s: State, id: Id)
    requires After(trace) == Some(s) && id !in s.calls
    ensures After(trace + ArmedTrace(id)) == Some(s.(calls := s.calls[id := Call(Running, true, false, Selecting, false, None, false, false)]))
  {
    hide After, Next;
    var t := trace + [Event(id, Enter(true))];
    var c := Call(Entered, true, false, NoWatchdog, false, None, false, false);
    Entering(trace, s, id);
    var s1 := s.(calls := s.calls[id := c]);
    Stepped(t, s1, Event(id, CheckErr), c.(pc := Arming));
    var s2 := s.(calls := s.calls[id := c.(pc := Arming)]);
    assert s1.calls[id := c.(pc := Arming)] == s2.calls;
    Stepped(t + [Event(id, CheckErr)], s2, Event(id, Arm), c.(pc := Running, watch := Selecting));
    assert s2.calls[id := c.(pc := Running, watch := Selecting)] == s.calls[id := c.(pc := Running, watch := Selecting)];
    assert t + [Event(id, CheckErr)] + [Event(id, Arm)] == trace + ArmedTrace(id);
  }

  lemma {:induction false} Entering(trace: seq<Event>, s: State, id: Id)
    requires After(trace) == Some(s) && id !in s.calls
    ensures After(trace + [Event(id, Enter(true))]) == Some(s.(calls := s.calls[id := Call(Entered, true, false, NoWatchdog, false, None, false, false)]))
  {
    assert (trace + [Event(id, Enter(true))])[..|trace|] == trace;
  }

  /** Three steps of one call, none of them touching the others. */
  lemma {:induction false} ThreeSteps(trace: seq<Event>, s: State, id: Id, a: Act, b: Act, c: Act, d1: Call, d2: Call, d3: Call)
    requires After(trace) == Some(s) && id in s.calls
    requires Plain(a) && Plain(b) && Plain(c)
    requires CallStep(s.calls[id], a) == Some(d1) && CallStep(d1, b) == Some(d2) && CallStep(d2, c) == Some(d3)
    ensures After(trace + [Event(id, a), Event(id, b), Event(id, c)]) ==
      Some(State(s.calls[id := d3], FlagAfter(FlagAfter(FlagAfter(s.flag, a), b), c)))
  {
    hide After, CallStep, FlagAfter;
    Stepped(trace, s, Event(id, a), d1);
    var s1 := State(s.calls[id := d1], FlagAfter(s.flag, a));
    Stepped(trace + [Event(id, a)], s1, Event(id, b), d2);
    var s2 := State(s1.calls[id := d2], FlagAfter(s1.flag, b));
    Stepped(trace + [Event(id, a)] + [Event(id, b)], s2, Event(id, c), d3);
    assert trace + [Event(id, a)] + [Event(id, b)] + [Event(id, c)] == trace + [Event(id, a), Event(id, b), Event(id, c)];
    assert s2.calls[id := d3] == s.calls[id := d3];
  }

  lemma {:induction false} Fired(trace: seq<Event>, s: State, id: Id)
    requires After(trace) == Some(s) && id in s.calls && s.calls[id].watch == Selecting && s.calls[id].cancellable
    ensures After(trace + FiredTrace(id)) == Some(State(s.calls[id := s.calls[id].(cancelled := true, watch := SendingTrue)], 1))
  {
    hide After;
    var c := s.calls[id];
    ThreeSteps(trace, s, id, Cancel, ChooseDone, StoreFlag, c.(cancelled := true), c.(cancelled := true, watch := Storing),
               c.(cancelled := true, watch := SendingTrue));
  }

  /** t is s with the flag cleared by id's disarm. */
  ghost predicate ClearedBy(s: State, t: Option<State>, id: Id) {
    && t != None && t.value.flag == 0
    && forall k :: k in s.calls && k != id ==> k in t.value.calls && t.value.calls[k] == Marked(s.calls[k], false, ClearFlag, s.flag)
  }

  lemma {:induction false} Disarmed(trace: seq<Event>, s: State, id: Id)
    requires After(trace) == Some(s) && id in s.calls
    requires var c := s.calls[id]; c.pc == Running && c.cancellable && c.watch == SendingTrue && c.fired == None
    ensures ClearedBy(s, After(trace + DisarmedTrace(id)), id)
  {
    hide After, Marked;
    var c := s.calls[id];
    var sent := trace + [Event(id, SendTrue), Event(id, InvokeReturns), Event(id, CloseStop)];
    var d := c.(pc := Waiting, watch := Exited, stop := true, fired := Some(true));
    ThreeSteps(trace, s, id, SendTrue, InvokeReturns, CloseStop, c.(watch := Exited, fired := Some(true)),
               c.(pc := Disarming, watch := Exited, fired := Some(true)), d);
    Received(sent, State(s.calls[id := d], s.flag), id);
    assert trace + DisarmedTrace(id) == sent + [Event(id, Receive)] + [Event(id, ClearFlag)];
  }

  lemma {:induction false} Received(trace: seq<Event>, s: State, id: Id)
    requires After(trace) == Some(s) && id in s.calls && s.calls[id].pc == Waiting && s.calls[id].fired == Some(true)
    ensures ClearedBy(s, After(trace + [Event(id, Receive)] + [Event(id, ClearFlag)]), id)
  {
    var r := trace + [Event(id, Receive)];
    var d := s.calls[id].(pc := Clearing, fired := None);
    Stepped(trace, s, Event(id, Receive), d);
    assert (r + [Event(id, ClearFlag)])[..|r|] == r;
    hide Marked, Open, Stored;
    assert After(r + [Event(id, ClearFlag)]) == Next(State(s.calls[id := d], s.flag), Event(id, ClearFlag));
  }

  /** With overlapping calls it need not stay: the inner call's disarm clears the outer's store
      before the guest has tested the flag. */
  lemma {:induction false} OverlapLosesInterrupt()
    ensures var t := After(ArmedTrace(0) + ArmedTrace(1) + FiredTrace(0) + FiredTrace(1) + DisarmedTrace(1));
      t != None && 0 in t.value.calls && t.value.flag == 0
      && t.value.calls[0].pc == Running && t.value.calls[0].lost && !t.value.calls[0].seen
  {
    hide After, ArmedTrace, FiredTrace, DisarmedTrace, Next, CallStep;
    var c := Call(Running, true, false, Selecting, false, None, false, false);
    var d := c.(cancelled := true, watch := SendingTrue);
    assert [] + ArmedTrace(0) == ArmedTrace(0);
    AtStart();
    Armed([], State(map[], 0), 0);
    Armed(ArmedTrace(0), State(map[0 := c], 0), 1);
    assert map[0 := c][1 := c] == map[0 := c, 1 := c];
    Fired(ArmedTrace(0) + ArmedTrace(1), State(map[0 := c, 1 := c], 0), 0);
    assert map[0 := c, 1 := c][0 := d] == map[0 := d, 1 := c];
    Fired(ArmedTrace(0) + ArmedTrace(1) + FiredTrace(0), State(map[0 := d, 1 := c], 1), 1);
    assert map[0 := d, 1 := c][1 := d] == map[0 := d, 1 := d];
    Disarmed(ArmedTrace(0) + ArmedTrace(1) + FiredTrace(0) + FiredTrace(1), State(map[0 := d, 1 := d], 1), 1);
    assert 0 in map[0 := d, 1 := d];
  }

  lemma {:induction false} AtStart()
    ensures After([]) == Some(State(map[], 0))
  {
  }

  // ---- what becomes of a stored interrupt ----------------------------------------------------

  /** Another call's disarm or guest takes the flag. */
  predicate Takes(e: Event, id: Id) {
    e.id != id && (e.act == ClearFlag || e.act == GuestTest)
  }

  /** id's own guest tests it, or its own disarm clears it. */
  predicate Uses(e: Event, id: Id) {
    e == Event(id, GuestTest) || e == Event(id, ClearFlag)
  }

  /** id's store at i is followed by no own use up to j. */
  ghost predicate Stands(trace: seq<Event>, id: Id, i: nat, j: nat) {
    i < j <= |trace| && trace[i] == Event(id, StoreFlag) && forall m :: i < m < j ==> !Uses(trace[m], id)
  }

  /** After id's store and before its own test another call's disarm or guest took the flag. */
  ghost predicate TakenIn(trace: seq<Event>, id: Id) {
    exists i: nat, j: nat :: Stands(trace, id, i, j) && j < |trace| && Takes(trace[j], id)
  }

  /** id's store has been followed by no use and no taking. */
  ghost predicate WaitsIn(trace: seq<Event>, id: Id) {
    exists i: nat :: Stands(trace, id, i, |trace|) && forall m :: i < m < |trace| ==> !Takes(trace[m], id)
  }

  lemma {:induction false} TakenStep(before: seq<Event>, e: Event, id: Id)
    ensures TakenIn(before + [e], id) <==> TakenIn(before, id) || (Takes(e, id) && WaitsIn(before, id))
  {
    var trace := before + [e];
    if TakenIn(trace, id) {
      var i: nat, j: nat :| Stands(trace, id, i, j) && j < |trace| && Takes(trace[j], id);
      assert forall m :: 0 <= m < |before| ==> trace[m] == before[m];
      assert Stands(before, id, i, j);
      if j == |before| && !WaitsIn(before, id) {
        var m :| i < m < |before| && Takes(before[m], id);
        assert Stands(before, id, i, m);
      }
    }
    if TakenIn(before, id) {
      var i: nat, j: nat :| Stands(before, id, i, j) && j < |before| && Takes(before[j], id);
      assert Stands(trace, id, i, j);
    }
    if Takes(e, id) && WaitsIn(before, id) {
      var i: nat :| Stands(before, id, i, |before|);
      assert Stands(trace, id, i, |before|) && trace[|before|] == e;
    }
  }

  lemma {:induction false} WaitsStep(before: seq<Event>, e: Event, id: Id)
    ensures WaitsIn(before + [e], id) <==>
      e == Event(id, StoreFlag) || (WaitsIn(before, id) && !Uses(e, id) && !Takes(e, id))
  {
    var trace := before + [e];
    if WaitsIn(trace, id) && e != Event(id, StoreFlag) {
      var i: nat :| Stands(trace, id, i, |trace|) && forall m :: i < m < |trace| ==> !Takes(trace[m], id);
      assert trace[|before|] == e;
      assert forall m :: 0 <= m < |before| ==> trace[m] == before[m];
      assert Stands(before, id, i, |before|);
    }
    if e == Event(id, StoreFlag) {
      assert Stands(trace, id, |before|, |trace|);
    } else if WaitsIn(before, id) && !Uses(e, id) && !Takes(e, id) {
      var i: nat :| Stands(before, id, i, |before|) && forall m :: i < m < |before| ==> !Takes(before[m], id);
      assert Stands(trace, id, i, |trace|);
    }
  }

  lemma {:induction false} NoStoreNoFate(trace: seq<Event>, id: Id)
    requires Event(id, StoreFlag) !in trace
    ensures !TakenIn(trace, id) && !WaitsIn(trace, id)
  {
  }

  /** In every interleaving a call's interrupt is lost to its guest exactly when another call's
      disarm or guest took the flag after the store and before its own guest tested it; until
      then, or its own test or end, the flag stays set for it. */
  lemma {:induction false} TakenExact(trace: seq<Event>, id: Id)
    requires After(trace) != None && id in After(trace).value.calls
    ensures After(trace).value.calls[id].lost <==> TakenIn(trace, id)
    ensures Pending(After(trace).value.calls[id]) <==> WaitsIn(trace, id)
    ensures WaitsIn(trace, id) ==> After(trace).value.flag == 1
  {
    hide CallStep, Marked, Next, CallAfter, CallOk, Stored, Open, Pending, TakenIn, WaitsIn;
    var before, e := trace[..|trace| - 1], trace[|trace| - 1];
    assert trace == before + [e];
    AlwaysInv(before);
    AlwaysInv(trace);
    var s := After(before).value;
    NextOf(s, e);
    NewCallOk(e);
    TakenStep(before, e, id);
    WaitsStep(before, e, id);
    if id in s.calls {
      TakenExact(before, id);
      CallMoves(s.calls[id], id == e.id, e.act, s.flag);
    } else {
      StoresAreCounted(before, id);
      NoStoreNoFate(before, id);
    }
  }

  // ---- when an armed call's interrupt is safe --------------------------------------------------

  /** A call that can still test or clear the flag. */
  predicate Threat(c: Call) {
    || (c.pc == Entered && !c.cancelled) || c.pc == Arming || c.pc == Running || c.pc == Clearing
    || ((c.pc == Disarming || c.pc == Waiting) && c.watch != SendingFalse && !(c.watch == Exited && c.fired == Some(false)))
  }

  /** No other call can. */
  predicate Alone(s: State, id: Id) {
    forall k :: k in s.calls && k != id ==> !Threat(s.calls[k])
  }

  /** Inside its invoke, its watchdog watching. */
  predicate IsArmed(s: State, id: Id) {
    id in s.calls && s.calls[id].pc == Running && s.calls[id].cancellable && s.calls[id].watch == Selecting
  }

  /** No call begins before id has ended. */
  predicate NoneBegins(trace: seq<Event>, more: seq<Event>, id: Id) {
    forall i :: 0 <= i < |more| ==> BeginsAfter(trace, more, i, id)
  }

  predicate BeginsAfter(trace: seq<Event>, more: seq<Event>, i: nat, id: Id)
    requires i < |more|
  {
    more[i].act.Enter? && After(trace + more[..i]) != None ==> Finished(After(trace + more[..i]).value, id)
  }

  lemma {:induction false} NoneBeginsBefore(trace: seq<Event>, more: seq<Event>, id: Id)
    requires NoneBegins(trace, more, id) && more != []
    ensures NoneBegins(trace, more[..|more| - 1], id)
  {
    var less := more[..|more| - 1];
    forall i | 0 <= i < |less| ensures BeginsAfter(trace, less, i, id) {
      assert BeginsAfter(trace, more, i, id) && less[..i] == more[..i] && less[i] == more[i];
    }
  }

  predicate Lost(s: State, id: Id) {
    id in s.calls && s.calls[id].lost
  }

  lemma {:induction false} Harmless(c: Call, own: bool, act: Act, flag: nat)
    requires CallOk(c) && !Threat(c) && CallAfter(c, own, act, flag) != None
    ensures !Threat(CallAfter(c, own, act, flag).value) && !(own && (act == ClearFlag || act == GuestTest))
  {
    hide Stored;
  }

  lemma {:induction false} AloneStep(s: State, e: Event, id: Id)
    requires Inv(s) && id in s.calls && !Lost(s, id) && Next(s, e) != None
    requires Finished(s, id) || (Alone(s, id) && !e.act.Enter?)
    ensures var t := Next(s, e).value; id in t.calls && !Lost(t, id) && (Finished(t, id) || Alone(t, id))
  {
    hide CallStep, Marked, Next, CallAfter, CallOk, Stored, Pending, Threat, Open;
    NextOf(s, e);
    CallMoves(s.calls[id], id == e.id, e.act, s.flag);
    if Finished(s, id) {
      FinishedStays(s, e, id);
      NotPending(s.calls[id]);
    } else {
      var t := Next(s, e).value;
      forall k | k in s.calls && k != id ensures !Threat(t.calls[k]) && (k == e.id ==> e.act != ClearFlag && e.act != GuestTest) {
        Harmless(s.calls[k], k == e.id, e.act, s.flag);
      }
    }
  }

  lemma {:induction false} NotPending(c: Call)
    ensures !Open(c) ==> !Pending(c)
  {
  }

  /** With no other call able to take the flag and none beginning before id ends, id's interrupt is
      never lost. */
  lemma {:induction false} AloneIsSafe(trace: seq<Event>, more: seq<Event>, id: Id)
    requires After(trace) != None && id in After(trace).value.calls && !Lost(After(trace).value, id) && Alone(After(trace).value, id)
    requires After(trace + more) != None && NoneBegins(trace, more, id)
    ensures id in After(trace + more).value.calls && !Lost(After(trace + more).value, id)
    ensures Finished(After(trace + more).value, id) || Alone(After(trace + more).value, id)
  {
    hide Next, Inv, Finished, Alone, Lost;
    if more == [] {
      assert trace + more == trace;
    } else {
      var less, e := more[..|more| - 1], more[|more| - 1];
      assert (trace + more)[..|trace + more| - 1] == trace + less;
      NoneBeginsBefore(trace, more, id);
      assert BeginsAfter(trace, more, |less|, id);
      AloneIsSafe(trace, less, id);
      AlwaysInv(trace + less);
      assert more[..|less|] == less;
      AloneStep(After(trace + less).value, e, id);
    }
  }

  /** The next step of a threat on its way to a test or a clear, and how many there are. */
  function NextAct(c: Call): Act {
    if c.pc == Entered then CheckErr
    else if c.pc == Arming then Arm
    else if c.pc == Disarming then CloseStop
    else if c.fired != None then Receive
    else if c.watch == Selecting then (if c.cancelled then ChooseDone else Cancel)
    else if c.watch == Storing then StoreFlag
    else SendTrue
  }

  function StepsToTake(c: Call): nat {
    match c.pc
    case Entered => 2
    case Arming => 1
    case Disarming => 7
    case Waiting =>
      (match c.watch
       case Selecting => if c.cancelled then 4 else 5
       case Storing => 3
       case SendingTrue => 2
       case _ => 1)
    case _ => 0
  }

  predicate CanTake(c: Call) {
    c.pc == Running || c.pc == Clearing
  }

  lemma {:induction false} ApproachStep(c: Call)
    requires CallOk(c) && Threat(c) && !CanTake(c)
    ensures Plain(NextAct(c)) && CallStep(c, NextAct(c)) != None
    ensures var d := CallStep(c, NextAct(c)).value; CallOk(d) && Threat(d) && StepsToTake(d) < StepsToTake(c)
  {
    CallStepKeeps(c, NextAct(c));
  }

  predicate NoEnter(more: seq<Event>) {
    forall i :: 0 <= i < |more| ==> !more[i].act.Enter?
  }

  /** A threat can get as far as testing or clearing the flag by steps of its own. */
  lemma {:induction false} Approaches(trace: seq<Event>, s: State, k: Id) returns (more: seq<Event>, d: Call, flag: nat)
    requires After(trace) == Some(s) && k in s.calls && CallOk(s.calls[k]) && Threat(s.calls[k])
    ensures NoEnter(more) && CanTake(d) && CallOk(d) && After(trace + more) == Some(State(s.calls[k := d], flag))
    decreases StepsToTake(s.calls[k])
  {
    hide After, CallStep, CallOk, Threat, FlagAfter, StepsToTake, NextAct;
    var c := s.calls[k];
    if CanTake(c) {
      more, d, flag := [], c, s.flag;
      assert trace + [] == trace && s.calls[k := c] == s.calls;
    } else {
      ApproachStep(c);
      var e, c2 := Event(k, NextAct(c)), CallStep(c, NextAct(c)).value;
      Stepped(trace, s, e, c2);
      var s2 := State(s.calls[k := c2], FlagAfter(s.flag, e.act));
      var rest;
      rest, d, flag := Approaches(trace + [e], s2, k);
      more := [e] + rest;
      assert trace + [e] + rest == trace + more;
      assert s2.calls[k := d] == s.calls[k := d];
    }
  }

  /** So any other call that is a threat can take an armed call's interrupt, with id still in its
      invoke. */
  lemma {:induction false} ThreatTakes(trace: seq<Event>, id: Id, k: Id) returns (more: seq<Event>)
    requires After(trace) != None && IsArmed(After(trace).value, id)
    requires k != id && k in After(trace).value.calls && Threat(After(trace).value.calls[k])
    ensures NoEnter(more) && After(trace + more) != None && Lost(After(trace + more).value, id)
    ensures After(trace + more).value.flag == 0 && After(trace + more).value.calls[id].pc == Running
  {
    hide After, CallStep, CallOk, Threat, Next, Marked, FiredTrace;
    AlwaysInv(trace);
    var s := After(trace).value;
    InvCall(s, k);
    InvCall(s, id);
    var way, d, flag := Approaches(trace, s, k);
    var s1 := State(s.calls[k := d], flag);
    Fired(trace + way, s1, id);
    var c := s.calls[id].(cancelled := true, watch := SendingTrue);
    var s2 := State(s1.calls[id := c], 1);
    var e := Event(k, if d.pc == Running then GuestTest else ClearFlag);
    TakeNow(trace + way + FiredTrace(id), s2, id, e);
    more := way + FiredTrace(id) + [e];
    assert trace + way + FiredTrace(id) + [e] == trace + more;
    FiredEntersNone(id);
  }

  lemma {:induction false} FiredEntersNone(id: Id)
    ensures NoEnter(FiredTrace(id))
  {
  }

  lemma {:induction false} TakeNow(trace: seq<Event>, s: State, id: Id, e: Event)
    requires After(trace) == Some(s) && id in s.calls && e.id in s.calls && e.id != id && s.flag == 1
    requires s.calls[id].pc == Running && s.calls[id].watch == SendingTrue && !s.calls[id].seen && !s.calls[id].lost
    requires (s.calls[e.id].pc == Running && e.act == GuestTest) || (s.calls[e.id].pc == Clearing && e.act == ClearFlag)
    ensures var t := After(trace + [e]); t != None && Lost(t.value, id) && t.value.flag == 0 && t.value.calls[id].pc == Running
  {
    assert (trace + [e])[..|trace|] == trace;
    NextOf(s, e);
  }

  /** An armed call's interrupt is safe in every continuation in which no call begins before it
      ends if and only if no other call can still test or clear the flag. */
  lemma {:induction false} SafeExact(trace: seq<Event>, id: Id)
    requires After(trace) != None && IsArmed(After(trace).value, id)
    ensures Alone(After(trace).value, id) <==>
      forall more :: After(trace + more) != None && NoneBegins(trace, more, id) ==> !Lost(After(trace + more).value, id)
  {
    hide After, CallOk, Threat, Lost;
    var s := After(trace).value;
    if Alone(s, id) {
      AlwaysInv(trace);
      InvCall(s, id);
      ArmedNotLost(s, id);
      forall more | After(trace + more) != None && NoneBegins(trace, more, id) ensures !Lost(After(trace + more).value, id) {
        AloneIsSafe(trace, more, id);
      }
    } else {
      var k :| k in s.calls && k != id && Threat(s.calls[k]);
      var more := ThreatTakes(trace, id, k);
      forall i | 0 <= i < |more| ensures BeginsAfter(trace, more, i, id) {
        assert !more[i].act.Enter?;
      }
    }
  }

  lemma {:induction false} ArmedNotLost(s: State, id: Id)
    requires IsArmed(s, id) && CallOk(s.calls[id])
    ensures !Lost(s, id)
  {
  }

  /** And a call that begins before it ends can always take it, cancellable or not. */
  lemma {:induction false} NewCallTakes(trace: seq<Event>, id: Id, k: Id, cancellable: bool) returns (more: seq<Event>)
    requires After(trace) != None && IsArmed(After(trace).value, id) && k !in After(trace).value.calls
    ensures |more| > 0 && more[0] == Event(k, Enter(cancellable)) && NoEnter(more[1..])
    ensures After(trace + more) != None && Lost(After(trace + more).value, id) && After(trace + more).value.calls[id].pc == Running
  {
    hide CallStep, Lost, NoEnter;
    var e := Event(k, Enter(cancellable));
    assert (trace + [e])[..|trace|] == trace;
    hide After;
    var rest := ThreatTakes(trace + [e], id, k);
    more := [e] + rest;
    assert trace + [e] + rest == trace + more && more[1..] == rest;
  }

  // ---- disarm never waits forever -----------------------------------------------------------

  /** Own steps a waiting call can still take, its watchdog's included. */
  function Left(c: Call): nat {
    if !c.pc.Waiting? && !c.pc.Clearing? then 0 else
    (if c.pc == Clearing then 1 else 2)
    + match c.watch
      case Selecting => 3
      case Storing => 2
      case SendingTrue => 1
      case SendingFalse => 1
      case _ => 0
  }

  predicate InDisarm(s: State, id: Id) {
    id in s.calls && (s.calls[id].pc == Waiting || s.calls[id].pc == Clearing)
  }

  /** Steps of id and its watchdog, other than its context being cancelled. */
  function OwnSteps(trace: seq<Event>, id: Id): nat {
    if trace == [] then 0 else
    OwnSteps(trace[..|trace| - 1], id) + if trace[|trace| - 1].id == id && trace[|trace| - 1].act != Cancel then 1 else 0
  }

  /** Inside disarm some own step is always enabled, whatever the others do. */
  lemma {:induction false} DisarmCanStep(trace: seq<Event>, id: Id)
    requires After(trace) != None && InDisarm(After(trace).value, id)
    ensures exists act :: act != Cancel && Next(After(trace).value, Event(id, act)) != None
  {
    hide Inv, CallStep, CallOk;
    AlwaysInv(trace);
    var s := After(trace).value;
    InvCall(s, id);
    var act := OwnEnabled(s.calls[id]);
    assert Next(s, Event(id, act)) != None;
  }

  lemma {:induction false} OwnEnabled(c: Call) returns (act: Act)
    requires CallOk(c) && (c.pc == Waiting || c.pc == Clearing)
    ensures act != Cancel && !act.Enter? && CallStep(c, act) != None
  {
    act := if c.pc == Clearing then ClearFlag
           else if c.fired != None then Receive
           else if c.watch == Selecting then ChooseStop
           else if c.watch == Storing then StoreFlag
           else if c.watch == SendingTrue then SendTrue
           else SendFalse;
  }

  lemma {:induction false} LeftFalls(s: State, e: Event, id: Id)
    requires Inv(s) && InDisarm(s, id) && Next(s, e) != None
    ensures var t := Next(s, e).value;
      id in t.calls && (InDisarm(t, id) || Finished(t, id))
      && Left(t.calls[id]) + (if e.id == id && e.act != Cancel then 1 else 0) <= Left(s.calls[id])
  {
    hide Next, Inv;
    NextOf(s, e);
    assert CallOk(s.calls[id]) by { InvCall(s, id); }
  }

  lemma {:induction false} InvCall(s: State, id: Id)
    requires Inv(s) && id in s.calls
    ensures CallOk(s.calls[id])
  {
  }

  /** And every one of them brings the return closer: at most five are left in all. */
  lemma {:induction false} DisarmEnds(trace: seq<Event>, more: seq<Event>, id: Id)
    requires After(trace) != None && InDisarm(After(trace).value, id) && After(trace + more) != None
    ensures id in After(trace + more).value.calls
    ensures InDisarm(After(trace + more).value, id) || Finished(After(trace + more).value, id)
    ensures OwnSteps(more, id) + Left(After(trace + more).value.calls[id]) <= Left(After(trace).value.calls[id]) <= 5
  {
    hide Next, Inv;
    if more == [] {
      assert trace + more == trace;
    } else {
      var less, e := more[..|more| - 1], more[|more| - 1];
      assert (trace + more)[..|trace + more| - 1] == trace + less;
      DisarmEnds(trace, less, id);
      AlwaysInv(trace + less);
      var s := After(trace + less).value;
      if InDisarm(s, id) {
        LeftFalls(s, e, id);
      } else {
        FinishedStays(s, e, id);
      }
    }
  }

  /** A send finds its channel empty, and a returned call has left no watchdog behind. */
  lemma {:induction false} WatchdogsEnd(trace: seq<Event>, id: Id)
    requires After(trace) != None && id in After(trace).value.calls
    ensures var c := After(trace).value.calls[id];
      && (c.watch == SendingTrue ==> CallStep(c, SendTrue) != None)
      && (c.watch == SendingFalse ==> CallStep(c, SendFalse) != None)
      && (!Open(c) ==> c.watch == NoWatchdog || c.watch == Exited)
  {
    hide Next, Inv;
    AlwaysInv(trace);
    InvCall(After(trace).value, id);
  }
}
