/**
 * The life of a member opened for output: allocation, serialization, open, writes and close,
 * with every system service free to fail at every call.
 */
module Bpam {

  // --------------------------------------------------------------- services

  /** What a service answers: a return code, whether the DCB abend exit was driven, whether the DCB is left open. */
  datatype Reply = Reply(rc: int, abend: bool, open: bool)

  datatype Service =
    | AllocDd | FreeDd
    | ObtainIoc | ReleaseIoc
    | ObtainExit | ReleaseExit
    | ObtainBuffer | ReleaseBuffer
    | ObtainData | ReleaseData
    | Rdjfcb | Enq | Deq | Reserve | DeqReserve
    | OpenDcb | WriteBlock | Bldl | GetUser | Stow | CloseDcb

  /** One call and its answer. */
  datatype Event = Event(service: Service, reply: Reply)

  /** What is held on behalf of the run. */
  datatype Held = Held(dd: bool, ioc: bool, exit: bool, enq: bool, reserve: bool, buffer: bool, data: bool)

  const NOTHING := Held(false, false, false, false, false, false, false)

  /**
   * The discipline: nothing is obtained twice, nothing is released that is not held, the reserve
   * goes before the ENQ it lies under, the control block outlives everything hung from it, and no
   * service that needs the control block is called without one. None is a violation.
   */
  function Allowed(h: Held, e: Event): Verdict {
    var ok := e.reply.rc == 0;
    match e.service
    case AllocDd => if h == NOTHING then Now(h.(dd := ok)) else Violation
    case FreeDd => if h.dd && h == NOTHING.(dd := true) then Now(NOTHING) else Violation
    case ObtainIoc => if h == NOTHING.(dd := true) then Now(h.(ioc := true)) else Violation
    case ReleaseIoc => if h == NOTHING.(dd := true, ioc := true) then Now(h.(ioc := false)) else Violation
    case ObtainExit => if h.ioc && !h.exit then Now(h.(exit := true)) else Violation
    case ReleaseExit => if h.ioc && h.exit then Now(h.(exit := false)) else Violation
    case ObtainBuffer => if h.ioc && !h.buffer then Now(h.(buffer := true)) else Violation
    case ReleaseBuffer => if h.ioc && h.buffer then Now(h.(buffer := false)) else Violation
    case ObtainData => if h.ioc && !h.data then Now(h.(data := true)) else Violation
    case ReleaseData => if h.data then Now(h.(data := false)) else Violation
    case Enq => if h.ioc && !h.enq then Now(h.(enq := ok)) else Violation
    case Deq => if h.ioc && h.enq && !h.reserve then Now(h.(enq := false)) else Violation
    case Reserve => if h.ioc && h.enq && !h.reserve then Now(h.(reserve := ok)) else Violation
    case DeqReserve => if h.ioc && h.reserve then Now(h.(reserve := false)) else Violation
    case WriteBlock => if h.ioc && h.buffer then Now(h) else Violation
    case _ => if h.ioc && h.exit then Now(h) else Violation
  }

  datatype Verdict = Violation | Now(held: Held)

  /** The discipline over a whole log. */
  function Audit(log: seq<Event>): Verdict {
    if log == [] then Now(NOTHING) else
      var before := Audit(log[..|log| - 1]);
      if before.Violation? then Violation else Allowed(before.held, log[|log| - 1])
  }

  lemma {:induction false} AuditNext(log: seq<Event>, e: Event)
    ensures Audit(log + [e]) == if Audit(log).Violation? then Violation else Allowed(Audit(log).held, e)
  {
    assert (log + [e])[..|log|] == log;
  }

  // --------------------------------------------- what a clean log says in numbers

  function Count(log: seq<Event>, s: Service, successful: bool): nat {
    if log == [] then 0 else
      var e := log[|log| - 1];
      Count(log[..|log| - 1], s, successful) + if e.service == s && (successful ==> e.reply.rc == 0) then 1 else 0
  }

  /** The things a run has to give back. */
  datatype Resource = Dd | ControlBlock | ExitStorage | Buffer | DataCopy | EnqLock | ReserveLock

  function Obtains(r: Resource): Service {
    match r
    case Dd => AllocDd case ControlBlock => ObtainIoc case ExitStorage => ObtainExit
    case Buffer => ObtainBuffer case DataCopy => ObtainData case EnqLock => Enq case ReserveLock => Reserve
  }

  function Releases(r: Resource): Service {
    match r
    case Dd => FreeDd case ControlBlock => ReleaseIoc case ExitStorage => ReleaseExit
    case Buffer => ReleaseBuffer case DataCopy => ReleaseData case EnqLock => Deq case ReserveLock => DeqReserve
  }

  /** Storage requests cannot fail; the others obtain something only with return code 0. */
  predicate MayFail(r: Resource) {
    r.Dd? || r.EnqLock? || r.ReserveLock?
  }

  predicate IsHeld(h: Held, r: Resource) {
    match r
    case Dd => h.dd case ControlBlock => h.ioc case ExitStorage => h.exit
    case Buffer => h.buffer case DataCopy => h.data case EnqLock => h.enq case ReserveLock => h.reserve
  }

  function One(b: bool): nat {
    if b then 1 else 0
  }

  lemma {:induction false} AllowedCounts(h: Held, e: Event, r: Resource)
    requires Allowed(h, e).Now?
    ensures One(IsHeld(h, r)) + One(e.service == Obtains(r) && (MayFail(r) ==> e.reply.rc == 0))
         == One(IsHeld(Allowed(h, e).held, r)) + One(e.service == Releases(r))
  {
  }

  /** In a log without violation every obtained resource is held once or has had exactly one release call. */
  lemma {:induction false} EveryObtainHasOneRelease(log: seq<Event>, r: Resource)
    requires Audit(log).Now?
    ensures Count(log, Obtains(r), MayFail(r)) == Count(log, Releases(r), false) + One(IsHeld(Audit(log).held, r))
  {
    if log != [] {
      var before := log[..|log| - 1];
      EveryObtainHasOneRelease(before, r);
      AllowedCounts(Audit(before).held, log[|log| - 1], r);
      hide Allowed, Obtains, Releases, IsHeld, MayFail;
    }
  }

  // ------------------------------------------------------------ return codes

  const SUCCESS := 0
  const WARNING := 1
  const FAILURE := -1
  const BLDL_WARNING := 4

  /** The code a call contributes; 0 if it does not count as failed. */
  function Code(e: Event, abended: bool): int {
    match e.service
    case AllocDd => if e.reply.rc != 0 then FAILURE else 0
    case Rdjfcb => if e.reply.rc != 0 then FAILURE else 0
    case Enq => if e.reply.rc != 0 then FAILURE else 0
    case Reserve => if e.reply.rc != 0 then FAILURE else 0
    case OpenDcb => if e.reply.rc != 0 || abended || !e.reply.open then FAILURE else 0
    case WriteBlock => if abended || e.reply.rc != 0 then FAILURE else 0
    case Bldl => if e.reply.rc == BLDL_WARNING then 0 else e.reply.rc
    case GetUser => if e.reply.rc != 0 then FAILURE else 0
    case CloseDcb => if abended then FAILURE else e.reply.rc
    case Stow => e.reply.rc
    case DeqReserve => e.reply.rc
    case Deq => e.reply.rc
    case _ => 0
  }

  /** The DCB abend mark, once made, stays. */
  function Abended(before: bool, log: seq<Event>): bool {
    if log == [] then before else Abended(before, log[..|log| - 1]) || DcbAbend(log[|log| - 1])
  }

  predicate DcbAbend(e: Event) {
    e.reply.abend && (e.service == WriteBlock || e.service == OpenDcb || e.service == CloseDcb)
  }

  /** The code of the first call that failed. */
  function FirstFailure(before: bool, log: seq<Event>): int {
    if log == [] then 0 else
      var first := FirstFailure(before, log[..|log| - 1]);
      if first != 0 then first else Code(log[|log| - 1], Abended(before, log))
  }

  lemma {:induction false} FirstFailureNext(before: bool, log: seq<Event>, e: Event)
    ensures Abended(before, log + [e]) == (Abended(before, log) || DcbAbend(e))
    ensures FirstFailure(before, log + [e])
         == if FirstFailure(before, log) != 0 then FirstFailure(before, log) else Code(e, Abended(before, log + [e]))
  {
    assert (log + [e])[..|log|] == log;
  }

  /** Failures of a log in two parts: the first part's, else the second's. */
  lemma {:induction false} FirstFailureJoins(before: bool, x: seq<Event>, y: seq<Event>)
    ensures Abended(before, x + y) == Abended(Abended(before, x), y)
    ensures FirstFailure(before, x + y)
         == if FirstFailure(before, x) != 0 then FirstFailure(before, x) else FirstFailure(Abended(before, x), y)
    decreases |y|
  {
    if y == [] {
      assert x + y == x;
    } else {
      var y', e := y[..|y| - 1], y[|y| - 1];
      FirstFailureJoins(before, x, y');
      FirstFailureNext(before, x + y', e);
      FirstFailureNext(Abended(before, x), y', e);
      hide FirstFailure, Abended, Code;
      assert x + y == x + y' + [e] && y == y' + [e];
    }
  }

  lemma {:induction false} OneCall(before: bool, e: Event)
    ensures Abended(before, [e]) == (before || DcbAbend(e))
    ensures FirstFailure(before, [e]) == Code(e, before || DcbAbend(e))
    ensures Abended(before, []) == before && FirstFailure(before, []) == 0
  {
    assert [e][..0] == [];
  }

  /** No call has failed so far. */
  ghost predicate Unmarred(log: seq<Event>) {
    FirstFailure(false, log) == 0 && !Abended(false, log)
  }

  // ---------------------------------------------------------------- the code

  /** Everything outside the program: the answers to come and the calls made. */
  class System {
    const oracle: nat -> Reply
    var log: seq<Event>

    constructor (oracle: nat -> Reply)
      ensures this.oracle == oracle && log == []
    {
      this.oracle := oracle;
      log := [];
    }

    method Call(s: Service) returns (r: Reply)
      modifies this
      ensures r == oracle(old(|log|)) && log == old(log) + [Event(s, r)]
    {
      r := oracle(|log|);
      log := log + [Event(s, r)];
    }
  }

  /** Data-dependent checks on the way: JFCB, UCB lookup and DCB attributes; RECFM=U has no statistics. */
  datatype Facts = Facts(jfcbOk: bool, ucbFound: bool, attributesOk: bool, undefined: bool) {
    /** Nothing stands against opening the member. */
    predicate Fine() { jfcbOk && ucbFound && attributesOk }
  }

  /** What a record does to the buffer: whether it completes a block, and what stays buffered. */
  datatype Load = Load(fills: bool, left: nat, leftOnFailure: nat)

  // ------------------------------------------------------------ what is called

  function Services(log: seq<Event>): seq<Service> {
    if log == [] then [] else Services(log[..|log| - 1]) + [log[|log| - 1].service]
  }

  /** The services called since. */
  ghost predicate Called(before: seq<Event>, after: seq<Event>, steps: seq<Service>) {
    Services(after) == Services(before) + steps
  }

  lemma {:induction false} CalledOne(before: seq<Event>, e: Event)
    ensures Called(before, before + [e], [e.service])
  {
    assert (before + [e])[..|before|] == before;
  }

  lemma {:induction false} CalledNone(log: seq<Event>)
    ensures Called(log, log, [])
  {
  }

  lemma {:induction false} CalledBoth(a: seq<Event>, b: seq<Event>, c: seq<Event>, x: seq<Service>, y: seq<Service>)
    requires Called(a, b, x) && Called(b, c, y)
    ensures Called(a, c, x + y)
  {
    hide Services;
    assert Services(a) + x + y == Services(a) + (x + y);
  }

  /** The services a record calls, all of them in any case. */
  function RecordCalls(load: Load): seq<Service> {
    [ObtainData] + (if load.fills then [WriteBlock] else []) + [ReleaseData]
  }

  function AllRecordCalls(records: seq<Load>): seq<Service> {
    if records == [] then [] else AllRecordCalls(records[..|records| - 1]) + RecordCalls(records[|records| - 1])
  }

  /** What stays in the buffer after the records. */
  function LeftAfter(records: seq<Load>): nat {
    if records == [] then 0 else records[|records| - 1].left
  }

  /** A successful open, from the allocation on. */
  const OPEN_CALLS: seq<Service> :=
    [AllocDd, ObtainIoc, ObtainExit, Rdjfcb, Enq, Reserve, OpenDcb, ObtainBuffer]

  /** The statistics succeed: no statistics for undefined records, else BLDL and the user have to answer well. */
  predicate StatisticsOk(undefined: bool, bldl: Reply, user: Reply) {
    undefined || ((bldl.rc == 0 || bldl.rc == BLDL_WARNING) && user.rc == 0)
  }

  function StatisticsCalls(undefined: bool, bldl: Reply): seq<Service> {
    if undefined then [] else if bldl.rc == 0 || bldl.rc == BLDL_WARNING then [Bldl, GetUser] else [Bldl]
  }

  /** The end of an open DCB: the member is entered exactly if its statistics succeeded, and the DCB closed. */
  function FinalCalls(undefined: bool, bldl: Reply, user: Reply): seq<Service> {
    StatisticsCalls(undefined, bldl) + (if StatisticsOk(undefined, bldl, user) then [Stow] else []) + [CloseDcb]
  }

  const RELEASE_CALLS: seq<Service> :=
    [Service.ReleaseBuffer, DeqReserve, Deq, ReleaseExit, ReleaseIoc]

  /** A close in which nothing fails. */
  function CloseCalls(undefined: bool, left: nat): seq<Service> {
    (if left > 0 then [WriteBlock] else [])
    + ((if undefined then [] else [Bldl, GetUser]) + [Stow, CloseDcb])
    + RELEASE_CALLS
  }

  /** A call the discipline allows in the present situation, whatever the answer. */
  method Make(sys: System, s: Service) returns (r: Reply)
    requires Audit(sys.log).Now? && forall reply :: Allowed(Audit(sys.log).held, Event(s, reply)).Now?
    modifies sys
    ensures sys.log == old(sys.log) + [Event(s, r)] && r == sys.oracle(|old(sys.log)|)
    ensures Audit(sys.log) == Allowed(old(Audit(sys.log).held), Event(s, r)) && Audit(sys.log).Now?
    ensures Next(old(sys.log), sys.log, Event(s, r)) && Called(old(sys.log), sys.log, [s])
    ensures old(Answered(sys.log, sys.oracle)) ==> Answered(sys.log, sys.oracle)
  {
    hide Audit, Allowed, FirstFailure, Abended, Code, Called;
    r := sys.Call(s);
    CalledOne(old(sys.log), Event(s, r));
    AuditNext(old(sys.log), Event(s, r));
    FirstFailureNext(false, old(sys.log), Event(s, r));
  }

  /** The answers in the log are those the outside gave. */
  ghost predicate Answered(log: seq<Event>, oracle: nat -> Reply) {
    forall k :: 0 <= k < |log| ==> log[k].reply == oracle(k)
  }

  /** If every service does as it is asked, no call fails. */
  lemma {:induction false} SmoothNeverFails(log: seq<Event>, oracle: nat -> Reply)
    requires Answered(log, oracle) && Smooth(oracle)
    ensures Unmarred(log)
    decreases |log|
  {
    if log != [] {
      var before, last := log[..|log| - 1], log[|log| - 1];
      SmoothNeverFails(before, oracle);
      FirstFailureNext(false, before, last);
      assert log == before + [last];
    }
  }

  /** What one more call does to the failures so far. */
  ghost predicate Next(before: seq<Event>, after: seq<Event>, e: Event) {
    && Abended(false, after) == (Abended(false, before) || DcbAbend(e))
    && FirstFailure(false, after)
       == if FirstFailure(false, before) != 0 then FirstFailure(false, before) else Code(e, Abended(false, after))
  }

  const GOOD := Reply(0, false, true)

  /** Every service does as it is asked. */
  ghost predicate Smooth(oracle: nat -> Reply) {
    forall n :: oracle(n) == GOOD
  }

  /** The control block fields that steer the protocol. */
  class IoCtrl {
    var hasEnq: bool
    var hasReserve: bool
    var hasBuffer: bool
    var hasExit: bool
    var dcbOpen: bool
    var dcbAbend: bool
    var bytesInBuffer: nat

    constructor ()
      ensures !hasEnq && !hasReserve && !hasBuffer && !hasExit && !dcbOpen && !dcbAbend && bytesInBuffer == 0
    {
      hasEnq, hasReserve, hasBuffer, hasExit, dcbOpen, dcbAbend := false, false, false, false, false, false;
      bytesInBuffer := 0;
    }

    /** What the control block says is held. */
    ghost function Holding(): Held
      reads this
    {
      Held(true, true, hasExit, hasEnq, hasReserve, hasBuffer, false)
    }

    ghost predicate HoldsAll()
      reads this
    {
      hasExit && hasEnq && hasReserve && hasBuffer
    }

    /** It says so truly; bytes and an open DCB have what they hang from. */
    ghost predicate Agrees(sys: System)
      reads this, sys
    {
      && Audit(sys.log) == Now(Holding()) && Answered(sys.log, sys.oracle)
      && (hasReserve ==> hasEnq) && (dcbOpen ==> hasExit) && (bytesInBuffer > 0 ==> hasBuffer)
    }

    /** The code tells the first failure of the whole run. */
    ghost predicate Told(sys: System, rc: int)
      reads this, sys
    {
      rc == FirstFailure(false, sys.log) && (rc == SUCCESS ==> Unmarred(sys.log) && !dcbAbend)
    }

    // ---------------------------------------------------------------- open path

    method ReadJfcb(sys: System) returns (rc: int)
      requires Agrees(sys) && !hasExit
      modifies this`hasExit, sys
      ensures Agrees(sys) && hasExit
      ensures old(Unmarred(sys.log)) && !dcbAbend ==> Told(sys, if rc == 0 then SUCCESS else FAILURE)
      ensures Smooth(sys.oracle) ==> rc == 0
      ensures Called(old(sys.log), sys.log, [ObtainExit, Rdjfcb])
    {
      hide Audit, FirstFailure, Abended, Called, Answered;
      var r := Make(sys, ObtainExit);
      hasExit := true;
      ghost var mid := sys.log;
      r := Make(sys, Rdjfcb);
      CalledBoth(old(sys.log), mid, sys.log, [ObtainExit], [Rdjfcb]);
      assert [ObtainExit] + [Rdjfcb] == [ObtainExit, Rdjfcb];
      rc := r.rc;
    }

    method EnqDataSet(sys: System) returns (rc: int)
      requires Agrees(sys) && hasExit && !hasEnq
      modifies this`hasEnq, sys
      ensures Agrees(sys) && (rc == SUCCESS || rc == FAILURE) && (rc == SUCCESS <==> hasEnq)
      ensures old(Unmarred(sys.log)) && !dcbAbend ==> Told(sys, rc)
      ensures Smooth(sys.oracle) ==> rc == SUCCESS
      ensures Called(old(sys.log), sys.log, [Enq])
    {
      hide Audit, FirstFailure, Abended, Called, Answered;
      var r := Make(sys, Enq);
      if r.rc != 0 { return FAILURE; }
      hasEnq := true;
      return SUCCESS;
    }

    method ReserveDataSet(sys: System) returns (rc: int)
      requires Agrees(sys) && hasEnq && !hasReserve
      modifies this`hasReserve, sys
      ensures Agrees(sys) && (rc == SUCCESS || rc == FAILURE) && (rc == SUCCESS <==> hasReserve)
      ensures old(Unmarred(sys.log)) && !dcbAbend ==> Told(sys, rc)
      ensures Smooth(sys.oracle) ==> rc == SUCCESS
      ensures Called(old(sys.log), sys.log, [Reserve])
    {
      hide Audit, FirstFailure, Abended, Called, Answered;
      var r := Make(sys, Reserve);
      if r.rc != 0 { return FAILURE; }
      hasReserve := true;
      return SUCCESS;
    }

    method OpenDataSet(sys: System) returns (rc: int)
      requires Agrees(sys) && hasExit
      modifies this`dcbOpen, this`dcbAbend, sys
      ensures Agrees(sys) && (rc == SUCCESS || rc == FAILURE) && (rc == SUCCESS ==> dcbOpen && !dcbAbend)
      ensures old(Unmarred(sys.log) && !dcbAbend) ==> Told(sys, rc)
      ensures Smooth(sys.oracle) && !old(dcbAbend) ==> rc == SUCCESS
      ensures Called(old(sys.log), sys.log, [OpenDcb])
    {
      hide Audit, FirstFailure, Abended, Called, Answered;
      var r := Make(sys, OpenDcb);
      dcbOpen := r.open;
      dcbAbend := dcbAbend || r.abend;
      if r.rc != 0 { return FAILURE; }
      if dcbAbend { return FAILURE; }
      if !dcbOpen { return FAILURE; }
      return SUCCESS;
    }

    method ObtainBlockBuffer(sys: System)
      requires Agrees(sys) && !hasBuffer && bytesInBuffer == 0
      modifies this`hasBuffer, sys
      ensures Agrees(sys) && hasBuffer
      ensures old(Unmarred(sys.log)) ==> Unmarred(sys.log)
      ensures Called(old(sys.log), sys.log, [Service.ObtainBuffer])
    {
      hide Audit, FirstFailure, Abended, Called, Answered;
      var r := Make(sys, Service.ObtainBuffer);
      hasBuffer := true;
    }

    // --------------------------------------------------------------- write path

    /** A record copied below the line, and the block it may complete. */
    method WriteRecord(sys: System, load: Load) returns (rc: int)
      requires Agrees(sys) && hasBuffer
      modifies this`dcbOpen, this`dcbAbend, this`bytesInBuffer, sys
      ensures Agrees(sys) && hasBuffer && (rc == SUCCESS || rc == FAILURE)
      ensures old(Unmarred(sys.log) && !dcbAbend) ==> Told(sys, rc)
      ensures Smooth(sys.oracle) && !old(dcbAbend) ==> rc == SUCCESS && !dcbAbend
      ensures Called(old(sys.log), sys.log, RecordCalls(load))
      ensures rc == SUCCESS ==> dcbOpen == old(dcbOpen) && bytesInBuffer == load.left
    {
      hide Audit, FirstFailure, Abended, Called, Answered;
      var r := Make(sys, ObtainData);
      rc := SUCCESS;
      ghost var start, mid := sys.log, sys.log;
      CalledNone(sys.log);
      if load.fills {
        r := Make(sys, WriteBlock);
        mid := sys.log;
        dcbAbend := dcbAbend || r.abend;
        if r.abend { dcbOpen := dcbOpen && r.open; }
        if dcbAbend || r.rc != 0 { rc := FAILURE; }
      }
      bytesInBuffer := if rc == SUCCESS then load.left else load.leftOnFailure;
      r := Make(sys, ReleaseData);
      ghost var block := if load.fills then [WriteBlock] else [];
      CalledBoth(old(sys.log), start, mid, [ObtainData], block);
      CalledBoth(old(sys.log), mid, sys.log, [ObtainData] + block, [ReleaseData]);
    }

    // --------------------------------------------------------------- close path

    /** The calls made since `start`, their first failure, and the abend mark they leave. */
    ghost predicate Reports(sys: System, start: seq<Event>, marked: bool, rc: int)
      reads this, sys
    {
      && start <= sys.log
      && rc == FirstFailure(marked, sys.log[|start|..])
      && dcbAbend == Abended(marked, sys.log[|start|..])
    }

    method WriteFlush(sys: System) returns (rc: int)
      requires Agrees(sys)
      modifies this, sys
      ensures Agrees(sys) && SameHolding() && Reports(sys, old(sys.log), old(dcbAbend), rc)
      ensures Called(old(sys.log), sys.log, if old(dcbOpen && bytesInBuffer > 0) then [WriteBlock] else [])
      ensures rc == SUCCESS ==> dcbOpen == old(dcbOpen)
    {
      hide Audit, Code, Called, Answered;
      NoCalls(sys.log, dcbAbend);
      CalledNone(sys.log);
      if dcbOpen && bytesInBuffer > 0 {
        var r := Make(sys, WriteBlock);
        OneMore(old(sys.log), sys.log, dcbAbend);
        dcbAbend := dcbAbend || r.abend;
        if r.abend { dcbOpen := dcbOpen && r.open; }
        WriteCode(Event(WriteBlock, r), dcbAbend);
        if dcbAbend { return FAILURE; }
        if r.rc != 0 { return FAILURE; }
        bytesInBuffer := 0;
      }
      return SUCCESS;
    }

    /** Nothing obtained or released. */
    twostate predicate SameHolding()
      reads this
    {
      hasEnq == old(hasEnq) && hasReserve == old(hasReserve) && hasBuffer == old(hasBuffer) && hasExit == old(hasExit)
    }

    method UpdateStatistics(sys: System, facts: Facts) returns (rc: int)
      requires Agrees(sys) && dcbOpen
      modifies sys
      ensures Agrees(sys) && Reports(sys, old(sys.log), dcbAbend, rc)
      ensures var bldl, user := sys.oracle(old(|sys.log|)), sys.oracle(old(|sys.log|) + 1);
              && (rc == SUCCESS <==> StatisticsOk(facts.undefined, bldl, user))
              && Called(old(sys.log), sys.log, StatisticsCalls(facts.undefined, bldl))
    {
      hide Audit, FirstFailure, Abended, Called, Answered;
      NoCalls(sys.log, dcbAbend);
      CalledNone(sys.log);
      if facts.undefined { return SUCCESS; }
      var r := Make(sys, Bldl);
      OneMore(old(sys.log), sys.log, dcbAbend);
      if r.rc != 0 && r.rc != BLDL_WARNING { return r.rc; }
      ghost var mid := sys.log;
      r := Make(sys, GetUser);
      OneMore(mid, sys.log, dcbAbend);
      Both(old(sys.log), mid, sys.log, dcbAbend);
      CalledBoth(old(sys.log), mid, sys.log, [Bldl], [GetUser]);
      assert [Bldl] + [GetUser] == [Bldl, GetUser];
      if r.rc != 0 { return FAILURE; }
      return SUCCESS;
    }

    method StowDataSet(sys: System) returns (rc: int)
      requires Agrees(sys) && dcbOpen
      modifies sys
      ensures Agrees(sys) && Reports(sys, old(sys.log), dcbAbend, rc)
      ensures Called(old(sys.log), sys.log, [Stow])
    {
      hide Audit, FirstFailure, Abended, Called, Answered;
      var r := Make(sys, Stow);
      OneMore(old(sys.log), sys.log, dcbAbend);
      rc := r.rc;
    }

    method CloseDataSet(sys: System) returns (rc: int)
      requires Agrees(sys) && dcbOpen
      modifies this, sys
      ensures Agrees(sys) && SameHolding() && Reports(sys, old(sys.log), old(dcbAbend), rc)
      ensures Called(old(sys.log), sys.log, [CloseDcb])
    {
      hide Audit, FirstFailure, Abended, Called, Answered;
      var r := Make(sys, CloseDcb);
      OneMore(old(sys.log), sys.log, dcbAbend);
      dcbAbend := dcbAbend || r.abend;
      dcbOpen := dcbOpen && r.open;
      if dcbAbend { return FAILURE; }
      return r.rc;
    }

    /** Statistics, then STOW unless they failed, then CLOSE in any case. */
    method FinalizeDcb(sys: System, facts: Facts) returns (firstRc: int)
      requires Agrees(sys) && dcbOpen
      modifies this, sys
      ensures Agrees(sys) && SameHolding() && Reports(sys, old(sys.log), old(dcbAbend), firstRc)
      ensures var bldl, user := sys.oracle(old(|sys.log|)), sys.oracle(old(|sys.log|) + 1);
              && Called(old(sys.log), sys.log, FinalCalls(facts.undefined, bldl, user))
              && (firstRc == SUCCESS ==> StatisticsOk(facts.undefined, bldl, user))
    {
      hide Audit, FirstFailure, Abended, Called, Answered;
      firstRc := 0;
      var rc := UpdateStatistics(sys, facts);
      if rc != 0 { firstRc := rc; }
      ghost var steps := StatisticsCalls(facts.undefined, sys.oracle(old(|sys.log|)));
      ghost var mid, stow := sys.log, [];
      CalledNone(sys.log);
      if rc == 0 {
        rc := StowDataSet(sys);
        stow := [Stow];
        Both(old(sys.log), mid, sys.log, old(dcbAbend));
        if rc != 0 && firstRc == 0 { firstRc := rc; }
      }
      CalledBoth(old(sys.log), mid, sys.log, steps, stow);
      mid := sys.log;
      rc := CloseDataSet(sys);
      Both(old(sys.log), mid, sys.log, old(dcbAbend));
      CalledBoth(old(sys.log), mid, sys.log, steps + stow, [CloseDcb]);
      if rc != 0 && firstRc == 0 { firstRc := rc; }
    }

    method ReleaseBlockBuffer(sys: System)
      requires Agrees(sys)
      modifies this, sys
      ensures Agrees(sys) && !hasBuffer && Reports(sys, old(sys.log), old(dcbAbend), 0)
      ensures hasReserve == old(hasReserve) && hasEnq == old(hasEnq) && hasExit == old(hasExit)
      ensures Called(old(sys.log), sys.log, if old(hasBuffer) then [Service.ReleaseBuffer] else [])
    {
      hide Audit, FirstFailure, Abended, Called, Answered;
      NoCalls(sys.log, dcbAbend);
      CalledNone(sys.log);
      bytesInBuffer := 0;
      if hasBuffer {
        var r := Make(sys, Service.ReleaseBuffer);
        OneMore(old(sys.log), sys.log, dcbAbend);
        hasBuffer := false;
      }
    }

    method DeqReserveDataSet(sys: System) returns (rc: int)
      requires Agrees(sys)
      modifies this, sys
      ensures Agrees(sys) && !hasReserve && Reports(sys, old(sys.log), old(dcbAbend), rc)
      ensures hasBuffer == old(hasBuffer) && hasEnq == old(hasEnq) && hasExit == old(hasExit)
      ensures Called(old(sys.log), sys.log, if old(hasReserve) then [DeqReserve] else [])
    {
      hide Audit, FirstFailure, Abended, Called, Answered;
      NoCalls(sys.log, dcbAbend);
      CalledNone(sys.log);
      rc := 0;
      if hasReserve {
        var r := Make(sys, DeqReserve);
        OneMore(old(sys.log), sys.log, dcbAbend);
        hasReserve := false;
        rc := r.rc;
      }
    }

    method DeqDataSet(sys: System) returns (rc: int)
      requires Agrees(sys) && !hasReserve
      modifies this, sys
      ensures Agrees(sys) && !hasEnq && Reports(sys, old(sys.log), old(dcbAbend), rc)
      ensures hasReserve == old(hasReserve) && hasBuffer == old(hasBuffer) && hasExit == old(hasExit)
      ensures Called(old(sys.log), sys.log, if old(hasEnq) then [Deq] else [])
    {
      hide Audit, FirstFailure, Abended, Called, Answered;
      NoCalls(sys.log, dcbAbend);
      CalledNone(sys.log);
      rc := 0;
      if hasEnq {
        var r := Make(sys, Deq);
        OneMore(old(sys.log), sys.log, dcbAbend);
        hasEnq := false;
        rc := r.rc;
      }
    }

    /** The exit storage and then the control block itself. */
    method ReleaseStorage(sys: System)
      requires Agrees(sys) && !hasBuffer && !hasEnq && !hasReserve
      modifies this, sys
      ensures Audit(sys.log) == Now(NOTHING.(dd := true)) && Answered(sys.log, sys.oracle)
      ensures Reports(sys, old(sys.log), old(dcbAbend), 0)
      ensures old(hasExit) ==> Called(old(sys.log), sys.log, [ReleaseExit, ReleaseIoc])
    {
      hide Audit, FirstFailure, Abended, Called, Answered;
      NoCalls(sys.log, dcbAbend);
      dcbOpen := false;
      if hasExit {
        var r := Make(sys, ReleaseExit);
        OneMore(old(sys.log), sys.log, dcbAbend);
        hasExit := false;
      }
      ghost var mid := sys.log;
      var r := Make(sys, ReleaseIoc);
      OneMore(mid, sys.log, dcbAbend);
      Both(old(sys.log), mid, sys.log, dcbAbend);
      if old(hasExit) { CalledBoth(old(sys.log), mid, sys.log, [ReleaseExit], [ReleaseIoc]); }
      assert [ReleaseExit] + [ReleaseIoc] == [ReleaseExit, ReleaseIoc];
    }

    /** Buffer, reserve, ENQ and storage, in this order. */
    method ReleaseAll(sys: System) returns (firstRc: int)
      requires Agrees(sys)
      modifies this, sys
      ensures Audit(sys.log) == Now(NOTHING.(dd := true)) && Answered(sys.log, sys.oracle)
      ensures Reports(sys, old(sys.log), old(dcbAbend), firstRc)
      ensures old(HoldsAll()) ==> Called(old(sys.log), sys.log, RELEASE_CALLS)
    {
      hide Audit, FirstFailure, Abended, Allowed, Code, Called, Answered;
      ghost var start, marked, all := sys.log, dcbAbend, HoldsAll();
      ReleaseBlockBuffer(sys);
      ghost var a := sys.log;
      firstRc := DeqReserveDataSet(sys);
      Both(start, a, sys.log, marked);
      ghost var b := sys.log;
      var rc := DeqDataSet(sys);
      Both(start, b, sys.log, marked);
      if rc != 0 && firstRc == 0 { firstRc := rc; }
      ghost var c := sys.log;
      ReleaseStorage(sys);
      Both(start, c, sys.log, marked);
      if all { FourCalled(start, a, b, c, sys.log); }
    }

    /** Close, from any point the open path can have reached. */
    method CloseOutput(sys: System, facts: Facts) returns (firstRc: int)
      requires Agrees(sys)
      modifies this, sys
      ensures Audit(sys.log) == Now(NOTHING.(dd := true)) && Answered(sys.log, sys.oracle)
      ensures old(sys.log) <= sys.log && firstRc == FirstFailure(old(dcbAbend), sys.log[|old(sys.log)|..])
      ensures firstRc == SUCCESS && old(dcbOpen && HoldsAll()) ==>
                Called(old(sys.log), sys.log, CloseCalls(facts.undefined, old(bytesInBuffer)))
    {
      hide Audit, FirstFailure, Abended, Allowed, Code, Called, Services, Answered;
      ghost var start, marked, open, left := sys.log, dcbAbend, dcbOpen && HoldsAll(), bytesInBuffer;
      firstRc := WriteFlush(sys);
      ghost var a := sys.log;
      if dcbOpen {
        var rc := FinalizeDcb(sys, facts);
        Both(start, a, sys.log, marked);
        if rc == 0 { FinalWhenOk(facts.undefined, sys.oracle(|a|), sys.oracle(|a| + 1)); }
        if rc != 0 && firstRc == 0 { firstRc := rc; }
      }
      ghost var b := sys.log;
      var rc := ReleaseAll(sys);
      Both(start, b, sys.log, marked);
      if rc != 0 && firstRc == 0 { firstRc := rc; }
      if firstRc == 0 && open { CloseCalled(start, a, b, sys.log, facts.undefined, left); }
    }
  }

  lemma {:induction false} FourCalled(start: seq<Event>, a: seq<Event>, b: seq<Event>, c: seq<Event>, end: seq<Event>)
    requires Called(start, a, [Service.ReleaseBuffer]) && Called(a, b, [DeqReserve]) && Called(b, c, [Deq])
    requires Called(c, end, [ReleaseExit, ReleaseIoc])
    ensures Called(start, end, RELEASE_CALLS)
  {
    hide Services;
  }

  lemma {:induction false} CloseCalled(
      start: seq<Event>, a: seq<Event>, b: seq<Event>, end: seq<Event>, undefined: bool, left: nat)
    requires Called(start, a, if left > 0 then [WriteBlock] else [])
    requires Called(a, b, (if undefined then [] else [Bldl, GetUser]) + [Stow, CloseDcb])
    requires Called(b, end, RELEASE_CALLS)
    ensures Called(start, end, CloseCalls(undefined, left))
  {
    hide Called;
    var x, y := if left > 0 then [WriteBlock] else [], (if undefined then [] else [Bldl, GetUser]) + [Stow, CloseDcb];
    CalledBoth(start, a, b, x, y);
    CalledBoth(start, b, end, x + y, RELEASE_CALLS);
  }

  lemma {:induction false} FinalWhenOk(undefined: bool, bldl: Reply, user: Reply)
    requires StatisticsOk(undefined, bldl, user)
    ensures FinalCalls(undefined, bldl, user) == (if undefined then [] else [Bldl, GetUser]) + [Stow, CloseDcb]
  {
  }

  /** Two stretches of calls, one after the other. */
  lemma {:induction false} Both(start: seq<Event>, mid: seq<Event>, end: seq<Event>, marked: bool)
    requires start <= mid <= end
    ensures
      var x, y, all := mid[|start|..], end[|mid|..], end[|start|..];
      && Abended(marked, all) == Abended(Abended(marked, x), y)
      && FirstFailure(marked, all)
         == if FirstFailure(marked, x) != 0 then FirstFailure(marked, x) else FirstFailure(Abended(marked, x), y)
  {
    var x, y := mid[|start|..], end[|mid|..];
    FirstFailureJoins(marked, x, y);
    assert end[|start|..] == x + y;
  }

  lemma {:induction false} OneMore(start: seq<Event>, end: seq<Event>, marked: bool)
    requires |end| == |start| + 1 && start <= end
    ensures
      var e := end[|start|];
      && Abended(marked, end[|start|..]) == (marked || DcbAbend(e))
      && FirstFailure(marked, end[|start|..]) == Code(e, marked || DcbAbend(e))
  {
    OneCall(marked, end[|start|]);
    assert end[|start|..] == [end[|start|]];
  }

  lemma {:induction false} NoCalls(log: seq<Event>, marked: bool)
    ensures Abended(marked, log[|log|..]) == marked && FirstFailure(marked, log[|log|..]) == 0
  {
  }

  lemma {:induction false} WriteCode(e: Event, abended: bool)
    requires e.service == WriteBlock
    ensures Code(e, abended) == if abended || e.reply.rc != 0 then FAILURE else 0
  {
  }

  // ------------------------------------------------------------------ open

  /** The access-method open. A failure leaves the control block as far as it got. */
  method OpenOutput(sys: System, facts: Facts) returns (rc: int, ioc: IoCtrl)
    requires Audit(sys.log) == Now(NOTHING.(dd := true)) && Answered(sys.log, sys.oracle)
    modifies sys
    ensures fresh(ioc) && ioc.Agrees(sys) && ioc.bytesInBuffer == 0
    ensures rc == SUCCESS ==> ioc.HoldsAll() && ioc.dcbOpen
    ensures rc == SUCCESS ==> facts.Fine()
    ensures old(Unmarred(sys.log)) && facts.Fine() ==> ioc.Told(sys, rc)
    ensures Smooth(sys.oracle) && facts.Fine() ==> rc == SUCCESS && !ioc.dcbAbend
    ensures rc == SUCCESS ==> Called(old(sys.log), sys.log, OPEN_CALLS[1..])
  {
    hide Audit, Allowed, FirstFailure, Abended, Code, Unmarred, Called, Answered;
    ghost var start := sys.log;
    ioc := NewIoCtrl(sys);
    ghost var a := sys.log;
    rc := ioc.ReadJfcb(sys);
    if rc != 0 { return FAILURE, ioc; }
    if !facts.jfcbOk { return FAILURE, ioc; }
    ghost var b := sys.log;
    rc := ioc.EnqDataSet(sys);
    ghost var c := sys.log;
    if rc != 0 { return rc, ioc; }
    if !facts.ucbFound { return FAILURE, ioc; }
    rc := ioc.ReserveDataSet(sys);
    ghost var d := sys.log;
    if rc != 0 { return rc, ioc; }
    rc := ioc.OpenDataSet(sys);
    ghost var e := sys.log;
    if rc != 0 { return rc, ioc; }
    if !facts.attributesOk { return FAILURE, ioc; }
    ioc.ObtainBlockBuffer(sys);
    OpenCalled(start, a, b, c, d, e, sys.log);
    NoFailure(sys.log);
    return rc, ioc;
  }

  lemma {:induction false} OpenCalled(start: seq<Event>, a: seq<Event>, b: seq<Event>, c: seq<Event>,
                                      d: seq<Event>, e: seq<Event>, end: seq<Event>)
    requires Called(start, a, [ObtainIoc]) && Called(a, b, [ObtainExit, Rdjfcb]) && Called(b, c, [Enq])
    requires Called(c, d, [Reserve]) && Called(d, e, [OpenDcb]) && Called(e, end, [Service.ObtainBuffer])
    ensures Called(start, end, OPEN_CALLS[1..])
  {
    hide Called;
    CalledBoth(start, a, b, [ObtainIoc], [ObtainExit, Rdjfcb]);
    CalledBoth(start, b, c, [ObtainIoc] + [ObtainExit, Rdjfcb], [Enq]);
    CalledBoth(c, d, e, [Reserve], [OpenDcb]);
    CalledBoth(c, e, end, [Reserve] + [OpenDcb], [Service.ObtainBuffer]);
    var x, y := [ObtainIoc] + [ObtainExit, Rdjfcb] + [Enq], [Reserve] + [OpenDcb] + [Service.ObtainBuffer];
    CalledBoth(start, c, end, x, y);
    assert x + y == OPEN_CALLS[1..];
  }

  method NewIoCtrl(sys: System) returns (ioc: IoCtrl)
    requires Audit(sys.log) == Now(NOTHING.(dd := true)) && Answered(sys.log, sys.oracle)
    modifies sys
    ensures fresh(ioc) && ioc.Agrees(sys)
    ensures !ioc.hasEnq && !ioc.hasReserve && !ioc.hasBuffer && !ioc.hasExit && !ioc.dcbOpen && ioc.bytesInBuffer == 0
    ensures !ioc.dcbAbend && (old(Unmarred(sys.log)) ==> Unmarred(sys.log))
    ensures Called(old(sys.log), sys.log, [ObtainIoc])
  {
    hide Audit, FirstFailure, Abended, Called, Answered;
    var r := Make(sys, ObtainIoc);
    ioc := new IoCtrl();
  }

  // -------------------------------------------------------------- the callers

  /** Allocation and open; on failure everything is already given back. */
  method OpenMember(sys: System, facts: Facts) returns (rc: int, ioc: IoCtrl?)
    requires Audit(sys.log) == Now(NOTHING) && Answered(sys.log, sys.oracle)
    modifies sys
    ensures rc == SUCCESS <==> ioc != null
    ensures ioc != null ==> fresh(ioc) && ioc.Agrees(sys) && ioc.HoldsAll() && ioc.dcbOpen && facts.Fine()
    ensures ioc == null ==> Audit(sys.log) == Now(NOTHING) && Answered(sys.log, sys.oracle)
    ensures old(Unmarred(sys.log)) && facts.Fine() ==>
              rc == FirstFailure(false, sys.log) && (ioc != null ==> ioc.Told(sys, rc))
    ensures Smooth(sys.oracle) && facts.Fine() ==> ioc != null && !ioc.dcbAbend
    ensures ioc != null ==> ioc.bytesInBuffer == 0 && Called(old(sys.log), sys.log, OPEN_CALLS)
  {
    hide Audit, FirstFailure, Abended, Called, Answered;
    var r := Make(sys, AllocDd);
    if r.rc != 0 { return FAILURE, null; }
    ghost var mid := sys.log;
    rc, ioc := OpenOutput(sys, facts);
    if rc == 0 { CalledBoth(old(sys.log), mid, sys.log, [AllocDd], OPEN_CALLS[1..]); }
    assert [AllocDd] + OPEN_CALLS[1..] == OPEN_CALLS;
    if rc != 0 {
      ghost var before := sys.log;
      var closeRc := ioc.CloseOutput(sys, facts);
      r := Make(sys, FreeDd);
      FailureStays(before, sys.log);
      ioc := null;
    }
  }

  /** Later calls do not change the first failure. */
  lemma {:induction false} FailureStays(before: seq<Event>, after: seq<Event>)
    requires before <= after
    ensures FirstFailure(false, before) != 0 ==> FirstFailure(false, after) == FirstFailure(false, before)
  {
    hide FirstFailure, Abended;
    FirstFailureJoins(false, before, after[|before|..]);
    assert before + after[|before|..] == after;
  }

  /** Close and FREE. The FREE's own failure changes no return code: the source keeps it in a shadowed variable. */
  method CloseMember(sys: System, ioc: IoCtrl, facts: Facts) returns (rc: int)
    requires ioc.Agrees(sys)
    modifies ioc, sys
    ensures Audit(sys.log) == Now(NOTHING) && Answered(sys.log, sys.oracle)
    ensures |old(sys.log)| < |sys.log| && old(sys.log) <= sys.log
    ensures rc == FirstFailure(old(ioc.dcbAbend), sys.log[|old(sys.log)|..|sys.log| - 1])
    ensures sys.log[|sys.log| - 1].service == FreeDd
    ensures rc == SUCCESS && old(ioc.dcbOpen && ioc.HoldsAll()) ==>
              Called(old(sys.log), sys.log, CloseCalls(facts.undefined, old(ioc.bytesInBuffer)) + [FreeDd])
  {
    hide Audit, FirstFailure, Called, CloseCalls, Answered;
    ghost var calls, open := CloseCalls(facts.undefined, ioc.bytesInBuffer), ioc.dcbOpen && ioc.HoldsAll();
    rc := ioc.CloseOutput(sys, facts);
    ghost var mid := sys.log;
    var r := Make(sys, FreeDd);
    if rc == SUCCESS && open { CalledBoth(old(sys.log), mid, sys.log, calls, [FreeDd]); }
    assert sys.log[..|mid|] == mid && sys.log[|old(sys.log)|..|mid|] == mid[|old(sys.log)|..];
  }

  /** The close of a run without failure so far tells the first failure of the whole run. */
  lemma {:induction false} CloseTells(before: seq<Event>, after: seq<Event>, rc: int)
    requires before <= after && |before| < |after| && after[|after| - 1].service == FreeDd
    requires Unmarred(before) && rc == FirstFailure(false, after[|before|..|after| - 1])
    ensures rc == FirstFailure(false, after)
  {
    hide FirstFailure, Abended;
    var close, last := after[|before|..|after| - 1], after[|after| - 1];
    FirstFailureJoins(false, before, close);
    FirstFailureNext(false, before + close, last);
    assert before + close + [last] == after;
  }

  // ------------------------------------------------------------ the whole-string run

  /**
   * The code of a run: that of the first call that failed, else a warning if lines were cut. If the
   * data set or the encoding stood in the way, some failure.
   */
  ghost predicate RunCode(rc: int, log: seq<Event>, fine: bool, truncated: bool) {
    if !fine then rc != SUCCESS
    else rc == if FirstFailure(false, log) != 0 then FirstFailure(false, log) else if truncated then WARNING
      else SUCCESS
  }

  /**
   * A whole member write, under any answers: open, records until one fails, close. The run leaves
   * nothing held, each thing obtained has had exactly one release call, and the code is that of the
   * first step that failed.
   */
  method WriteMember(oracle: nat -> Reply, facts: Facts, encodingOk: bool, records: seq<Load>, truncated: bool)
    returns (rc: int, log: seq<Event>)
    ensures Audit(log) == Now(NOTHING)
    ensures forall r: Resource :: Count(log, Obtains(r), MayFail(r)) == Count(log, Releases(r), false)
    ensures RunCode(rc, log, facts.Fine() && encodingOk, truncated)
    ensures Fulfilled(log, facts, encodingOk, records)
    ensures Smooth(oracle) && facts.Fine() && encodingOk ==> rc == if truncated then WARNING else SUCCESS
  {
    hide Fulfilled;
    var sys := new System(oracle);
    rc := RunMember(sys, facts, encodingOk, records, truncated);
    log := sys.log;
    AllReleased(log);
  }

  lemma {:induction false} AllReleased(log: seq<Event>)
    requires Audit(log) == Now(NOTHING)
    ensures forall r: Resource :: Count(log, Obtains(r), MayFail(r)) == Count(log, Releases(r), false)
  {
    hide Audit, Count, Obtains, Releases, MayFail, IsHeld;
    forall r: Resource ensures Count(log, Obtains(r), MayFail(r)) == Count(log, Releases(r), false) {
      EveryObtainHasOneRelease(log, r);
      NothingHeld(r);
    }
  }

  lemma {:induction false} NothingHeld(r: Resource)
    ensures !IsHeld(NOTHING, r)
  {
  }

  lemma {:induction false} NothingYet(oracle: nat -> Reply)
    ensures Audit([]) == Now(NOTHING) && Unmarred([]) && Answered([], oracle)
  {
  }

  method RunMember(sys: System, facts: Facts, encodingOk: bool, records: seq<Load>, truncated: bool) returns (rc: int)
    requires sys.log == []
    modifies sys
    ensures Audit(sys.log) == Now(NOTHING)
    ensures RunCode(rc, sys.log, facts.Fine() && encodingOk, truncated)
    ensures Fulfilled(sys.log, facts, encodingOk, records)
    ensures Smooth(sys.oracle) && facts.Fine() && encodingOk ==> rc == if truncated then WARNING else SUCCESS
  {
    hide Audit, Allowed, FirstFailure, Abended, Code, Called, CloseCalls;
    NothingYet(sys.oracle);
    var ioc: IoCtrl?;
    rc, ioc := OpenMember(sys, facts);
    if rc != SUCCESS { return rc; }
    if !encodingOk {
      var closeRc := CloseMember(sys, ioc, facts);
      return FAILURE;
    }
    ghost var a := sys.log;
    rc := WriteBatch(sys, ioc, Batch(records, true));
    ghost var b := sys.log;
    rc := EndRun(sys, ioc, facts, rc, truncated);
    if Smooth(sys.oracle) { SmoothNeverFails(sys.log, sys.oracle); }
    if FirstFailure(false, sys.log) == 0 { RunCalled(a, b, sys.log, facts.undefined, records); }
  }

  /** The services of a member write in which nothing fails, in order. */
  function MemberCalls(undefined: bool, records: seq<Load>): seq<Service> {
    OPEN_CALLS + AllRecordCalls(records) + CloseCalls(undefined, LeftAfter(records)) + [FreeDd]
  }

  /** A run that nothing stood against and in which no call failed has made exactly the calls a member needs. */
  ghost predicate Fulfilled(log: seq<Event>, facts: Facts, encodingOk: bool, records: seq<Load>) {
    facts.Fine() && encodingOk && FirstFailure(false, log) == 0 ==>
      Services(log) == MemberCalls(facts.undefined, records)
  }

  lemma {:induction false} RunCalled(
      a: seq<Event>, b: seq<Event>, end: seq<Event>, undefined: bool, records: seq<Load>)
    requires Called([], a, OPEN_CALLS) && Called(a, b, AllRecordCalls(records))
    requires Called(b, end, CloseCalls(undefined, LeftAfter(records)) + [FreeDd])
    ensures Services(end) == MemberCalls(undefined, records)
  {
    hide AllRecordCalls, CloseCalls, LeftAfter;
    var x, y, z := OPEN_CALLS, AllRecordCalls(records), CloseCalls(undefined, LeftAfter(records));
    assert [] + x == x && x + y + z + [FreeDd] == x + y + (z + [FreeDd]);
  }

  /** Some records, and whether the line after them can be encoded. */
  datatype Batch = Batch(records: seq<Load>, encodes: bool)

  method WriteBatch(sys: System, ioc: IoCtrl, batch: Batch) returns (rc: int)
    requires ioc.Agrees(sys) && ioc.HoldsAll()
    modifies ioc, sys
    ensures ioc.Agrees(sys) && ioc.HoldsAll()
    ensures rc == SUCCESS ==> batch.encodes
    ensures old(Unmarred(sys.log) && !ioc.dcbAbend) && (batch.encodes || rc == SUCCESS) ==> ioc.Told(sys, rc)
    ensures Smooth(sys.oracle) && !old(ioc.dcbAbend) && batch.encodes ==> rc == SUCCESS && !ioc.dcbAbend
    ensures rc == SUCCESS ==>
              && ioc.dcbOpen == old(ioc.dcbOpen) && Called(old(sys.log), sys.log, AllRecordCalls(batch.records))
              && ioc.bytesInBuffer == if batch.records == [] then old(ioc.bytesInBuffer) else LeftAfter(batch.records)
  {
    hide Audit, Allowed, FirstFailure, Abended, Code, Called, RecordCalls;
    var records := batch.records;
    NoFailure(sys.log);
    CalledNone(sys.log);
    for k := 0 to |records|
      invariant ioc.Agrees(sys) && ioc.HoldsAll()
      invariant old(Unmarred(sys.log) && !ioc.dcbAbend) ==> Unmarred(sys.log) && !ioc.dcbAbend
      invariant Smooth(sys.oracle) && !old(ioc.dcbAbend) ==> !ioc.dcbAbend
      invariant ioc.dcbOpen == old(ioc.dcbOpen) && Called(old(sys.log), sys.log, AllRecordCalls(records[..k]))
      invariant ioc.bytesInBuffer == if k == 0 then old(ioc.bytesInBuffer) else records[k - 1].left
    {
      ghost var mid := sys.log;
      rc := ioc.WriteRecord(sys, records[k]);
      if rc != SUCCESS { return rc; }
      CalledBoth(old(sys.log), mid, sys.log, AllRecordCalls(records[..k]), RecordCalls(records[k]));
      RecordCallsNext(records, k);
    }
    assert records[..|records|] == records;
    rc := if batch.encodes then SUCCESS else FAILURE;
  }

  lemma {:induction false} RecordCallsNext(records: seq<Load>, k: nat)
    requires k < |records|
    ensures AllRecordCalls(records[..k + 1]) == AllRecordCalls(records[..k]) + RecordCalls(records[k])
  {
    assert records[..k + 1][..k] == records[..k];
  }

  lemma {:induction false} NoFailure(log: seq<Event>)
    ensures Unmarred(log) ==> FirstFailure(false, log) == 0
  {
  }

  /** The end of a run: close in any case, then the code. */
  method EndRun(sys: System, ioc: IoCtrl, facts: Facts, writeRc: int, truncated: bool) returns (rc: int)
    requires ioc.Agrees(sys)
    modifies ioc, sys
    ensures Audit(sys.log) == Now(NOTHING) && Answered(sys.log, sys.oracle)
    ensures old(ioc.Told(sys, writeRc)) ==> RunCode(rc, sys.log, true, truncated)
    ensures writeRc != SUCCESS ==> rc == writeRc
    ensures old(ioc.Told(sys, writeRc)) && FirstFailure(false, sys.log) == 0 ==>
              writeRc == SUCCESS
              && (old(ioc.dcbOpen && ioc.HoldsAll()) ==>
                    Called(old(sys.log), sys.log, CloseCalls(facts.undefined, old(ioc.bytesInBuffer)) + [FreeDd]))
  {
    hide Audit, Allowed, FirstFailure, Abended, Code, Called, CloseCalls;
    ghost var before := sys.log;
    rc := CloseMember(sys, ioc, facts);
    FailureStays(before, sys.log);
    if writeRc != SUCCESS { return writeRc; }
    if old(ioc.Told(sys, writeRc)) { CloseTells(before, sys.log, rc); }
    if rc == SUCCESS && truncated { rc := WARNING; }
  }

  // --------------------------------------------------------------- the streamed run

  /** A chunk from the pipe: one whose decoding throws, or what its lines lead to. */
  datatype Chunk = Undecodable | Decoded(batch: Batch)

  const EVERYTHING := Held(true, true, true, true, true, true, false)

  /** The chunk is come to if nothing before it stops the run. */
  ghost predicate BadAt(chunks: seq<Chunk>, k: nat) {
    k < |chunks| && chunks[k].Undecodable? && forall j :: 0 <= j < k ==> chunks[j].Decoded? && chunks[j].batch.encodes
  }

  ghost predicate ComesToBad(chunks: seq<Chunk>) {
    exists k: nat :: BadAt(chunks, k)
  }

  /**
   * The streamed member write, under any answers. Decoding a chunk may throw, and the exception passes
   * the close by: the run then ends holding everything. It ends holding nothing in all other cases.
   * `met` counts the chunks looked at.
   */
  method RunStreamed(sys: System, facts: Facts, setupOk: bool, chunks: seq<Chunk>, tail: Batch, truncated: bool)
    returns (rc: int, met: nat, thrown: bool)
    requires sys.log == []
    modifies sys
    ensures met <= |chunks| && (thrown <==> exists k :: 0 <= k < met && chunks[k].Undecodable?)
    ensures Audit(sys.log) == Now(if thrown then EVERYTHING else NOTHING)
    ensures thrown ==> facts.Fine() && setupOk && ComesToBad(chunks)
    ensures Smooth(sys.oracle) && facts.Fine() && setupOk ==> (thrown <==> ComesToBad(chunks))
    ensures !thrown ==> RunCode(rc, sys.log, facts.Fine() && setupOk && AllEncode(chunks[..met], tail), truncated)
    ensures !thrown ==> Fulfilled(sys.log, facts, setupOk && AllEncode(chunks, tail), LoadsOf(chunks) + tail.records)
    ensures Smooth(sys.oracle) && facts.Fine() && setupOk && AllEncode(chunks, tail) ==>
              rc == if truncated then WARNING else SUCCESS
  {
    hide Audit, Allowed, FirstFailure, Abended, Code, Called, CloseCalls, Answered, LoadsOf, AllRecordCalls, LeftAfter;
    NothingYet(sys.oracle);
    NoLoads();
    met, thrown := 0, false;
    var ioc: IoCtrl?;
    rc, ioc := OpenMember(sys, facts);
    if rc != SUCCESS { return; }
    if !setupOk {
      var closeRc := CloseMember(sys, ioc, facts);
      rc := FAILURE;
      return;
    }
    ghost var a := sys.log;
    CalledNone(a);
    while met < |chunks|
      invariant met <= |chunks| && fresh(ioc) && ioc.Agrees(sys) && ioc.HoldsAll()
      invariant forall j :: 0 <= j < met ==> chunks[j].Decoded? && chunks[j].batch.encodes
      invariant Unmarred(sys.log) && !ioc.dcbAbend
      invariant ioc.dcbOpen && ioc.bytesInBuffer == LeftAfter(LoadsOf(chunks[..met]))
      invariant Called(a, sys.log, AllRecordCalls(LoadsOf(chunks[..met])))
    {
      ghost var mid, done := sys.log, LoadsOf(chunks[..met]);
      met := met + 1;
      if chunks[met - 1].Undecodable? {
        thrown := true;
        assert BadAt(chunks, met - 1);
        HoldingAll(ioc);
        return;
      }
      rc := WriteBatch(sys, ioc, chunks[met - 1].batch);
      if rc != SUCCESS {
        rc := EndRun(sys, ioc, facts, rc, truncated);
        if Smooth(sys.oracle) { SmoothNeverFails(sys.log, sys.oracle); }
        return;
      }
      LoadsNext(chunks, met - 1);
      MoreLoads(done, chunks[met - 1].batch.records);
      CalledBoth(a, mid, sys.log, AllRecordCalls(done), AllRecordCalls(chunks[met - 1].batch.records));
    }
    ghost var mid, done := sys.log, LoadsOf(chunks[..met]);
    assert chunks[..met] == chunks;
    rc := WriteBatch(sys, ioc, tail);
    ghost var b := sys.log;
    MoreLoads(done, tail.records);
    if rc == SUCCESS { CalledBoth(a, mid, b, AllRecordCalls(done), AllRecordCalls(tail.records)); }
    rc := EndRun(sys, ioc, facts, rc, truncated);
    if Smooth(sys.oracle) { SmoothNeverFails(sys.log, sys.oracle); }
    if FirstFailure(false, sys.log) == 0 && tail.encodes {
      RunCalled(a, b, sys.log, facts.undefined, done + tail.records);
    }
  }

  /** The records of the decoded chunks. */
  function LoadsOf(chunks: seq<Chunk>): seq<Load> {
    if chunks == [] then []
    else
      var last := chunks[|chunks| - 1];
      LoadsOf(chunks[..|chunks| - 1]) + if last.Decoded? then last.batch.records else []
  }

  lemma {:induction false} NoLoads()
    ensures LoadsOf([]) == [] && AllRecordCalls([]) == [] && LeftAfter([]) == 0
  {
  }

  lemma {:induction false} LoadsNext(chunks: seq<Chunk>, k: nat)
    requires k < |chunks| && chunks[k].Decoded?
    ensures LoadsOf(chunks[..k + 1]) == LoadsOf(chunks[..k]) + chunks[k].batch.records
  {
    assert chunks[..k + 1][..k] == chunks[..k];
  }

  lemma {:induction false} MoreLoads(done: seq<Load>, more: seq<Load>)
    ensures AllRecordCalls(done + more) == AllRecordCalls(done) + AllRecordCalls(more)
    ensures LeftAfter(done + more) == if more == [] then LeftAfter(done) else LeftAfter(more)
    decreases |more|
  {
    hide RecordCalls, AllRecordCalls;
    NoLoads();
    if more == [] {
      assert done + more == done && AllRecordCalls(done) + [] == AllRecordCalls(done);
    } else {
      var before, last := more[..|more| - 1], more[|more| - 1];
      assert more == before + [last] && done + more == done + before + [last];
      MoreLoads(done, before);
      LastLoad(before, last);
      LastLoad(done + before, last);
    }
  }

  lemma {:induction false} LastLoad(records: seq<Load>, last: Load)
    ensures AllRecordCalls(records + [last]) == AllRecordCalls(records) + RecordCalls(last)
  {
    hide RecordCalls;
    assert (records + [last])[..|records|] == records;
  }

  ghost predicate AllEncode(chunks: seq<Chunk>, tail: Batch) {
    tail.encodes && forall j :: 0 <= j < |chunks| ==> chunks[j].Decoded? && chunks[j].batch.encodes
  }

  lemma {:induction false} HoldingAll(ioc: IoCtrl)
    requires ioc.HoldsAll()
    ensures ioc.Holding() == EVERYTHING
  {
  }

  /** The streamed run in numbers: after an exception each lock, and all else held, lacks its one release. */
  method WriteMemberStreamed(oracle: nat -> Reply, facts: Facts, setupOk: bool, chunks: seq<Chunk>, tail: Batch,
      truncated: bool)
    returns (rc: int, log: seq<Event>, met: nat)
    ensures var thrown := exists k :: 0 <= k < met && k < |chunks| && chunks[k].Undecodable?;
            && Audit(log) == Now(if thrown then EVERYTHING else NOTHING)
            && forall r: Resource :: Count(log, Obtains(r), MayFail(r))
                                     == Count(log, Releases(r), false) + if thrown && !r.DataCopy? then 1 else 0
    ensures Smooth(oracle) && facts.Fine() && setupOk ==> (Audit(log) == Now(NOTHING) <==> !ComesToBad(chunks))
    ensures Audit(log) == Now(NOTHING) ==>
              Fulfilled(log, facts, setupOk && AllEncode(chunks, tail), LoadsOf(chunks) + tail.records)
  {
    var sys := new System(oracle);
    var thrown;
    rc, met, thrown := RunStreamed(sys, facts, setupOk, chunks, tail, truncated);
    log := sys.log;
    hide Audit, Count, Obtains, Releases, MayFail, IsHeld;
    forall r: Resource ensures Count(log, Obtains(r), MayFail(r))
                               == Count(log, Releases(r), false) + if thrown && !r.DataCopy? then 1 else 0 {
      EveryObtainHasOneRelease(log, r);
      HeldInTheEnd(r);
    }
  }

  lemma {:induction false} HeldInTheEnd(r: Resource)
    ensures !IsHeld(NOTHING, r) && (IsHeld(EVERYTHING, r) <==> !r.DataCopy?)
  {
  }

  /** One bad chunk, though every service does as it is asked: the ENQ and the RESERVE are never released. */
  method OneBadChunkExample() returns (log: seq<Event>)
    ensures Audit(log) == Now(EVERYTHING)
    ensures Count(log, Enq, true) == Count(log, Deq, false) + 1
    ensures Count(log, Reserve, true) == Count(log, DeqReserve, false) + 1
  {
    hide Audit, Count;
    var rc, met;
    var chunks := [Undecodable];
    assert BadAt(chunks, 0);
    rc, log, met := WriteMemberStreamed(_ => GOOD, Facts(true, true, true, false), true, chunks, Batch([], true),
      false);
    EveryObtainHasOneRelease(log, EnqLock);
    EveryObtainHasOneRelease(log, ReserveLock);
  }
}
