/** The host interface mailbox under its spinlock, as an interleaving of any number of harts and the host
    (abstract-machine/am/src/riscv/spike/htif.c, htif.h, atomic.h).

    One step is one access to shared memory. A mailbox word of 0 means empty. */
module Htif {

  const DEV: nat := 0x100_0000_0000_0000
  const CMD: nat := 0x1_0000_0000_0000
  const WORD64: nat := 0x1_0000_0000_0000_0000

  function Dev(v: nat): nat { v / DEV }

  function Cmd(v: nat): nat { v / CMD % 256 }

  function Data(v: nat): nat { v % CMD }

  /** TOHOST_CMD. */
  function Word(dev: nat, cmd: nat, data: nat): nat { DEV * dev + CMD * cmd + data }

  /** What a hart asks for: a system call and its wait for the reply (do_tohost_fromhost(0, 0, data)), a character to
      print, or a character to read. */
  datatype OpData = Call(data: nat) | Put(ch: nat) | Get
  {
    /** A call is with the address of its arguments: not null, and clear of the device and command fields. */
    predicate ByTheBook() { Call? ==> 0 < data < CMD }
  }

  type Op = o: OpData | (o.Call? ==> o.data < WORD64) && (o.Put? ==> o.ch < 256) witness Get

  function Posted(op: Op): nat
  {
    match op
    case Call(data) => Word(0, 0, data)
    case Put(ch) => Word(1, 1, ch)
    case Get => Word(1, 0, 0)
  }

  /** The host finds each field of a command where it was put. */
  lemma WordFields(dev: nat, cmd: nat, data: nat)
    requires dev < 256 && cmd < 256 && data < CMD
    ensures var v := Word(dev, cmd, data); v < WORD64 && Dev(v) == dev && Cmd(v) == cmd && Data(v) == data
  {
  }

  lemma Fields(op: Op)
    requires op.ByTheBook()
    ensures var v := Posted(op);
            && v != 0 && Dev(v) == (if op.Call? then 0 else 1) && Cmd(v) == (if op.Put? then 1 else 0)
            && Data(v) == match op case Call(data) => data case Put(ch) => ch case Get => 0
  {
    hide Dev, Cmd, Data;
    WordFields(if op.Call? then 0 else 1, if op.Put? then 1 else 0,
               match op case Call(data) => data case Put(ch) => ch case Get => 0);
  }

  /** Where __check_fromhost returns to. */
  datatype Return = ToSet | ToAwait | ToGet

  /** The next access a hart makes. */
  datatype Pc =
    | Idle
    | Spin(op: Op)                              // atomic_read of the lock
    | Swap(op: Op)                              // atomic_swap of the lock
    | Poll(op: Op)                              // while (tohost)
    | Check(op: Op, ret: Return)                // fh = fromhost in __check_fromhost
    | CheckClear(op: Op, ret: Return, fh: nat)  // fromhost = 0
    | Deliver(op: Op, ret: Return, fh: nat)     // the assertion and the switch
    | Post(op: Op)                              // tohost = ...
    | Await(op: Op)                             // fh = fromhost in do_tohost_fromhost
    | AwaitClear(op: Op, fh: nat)               // fromhost = 0
    | GetRead(op: Op)                           // ch = htif_console_buf
    | GetClear(op: Op)                          // htif_console_buf = -1
    | Unlock(op: Op)                            // lock = 0
    | Failed(op: Op)                            // an assertion fired
  {
    predicate Critical() { !Idle? && !Spin? && !Swap? }

    /** The command of the operation is still to be posted. */
    predicate ToPost() { Poll? || Post? || GetClear? || ((Check? || CheckClear? || Deliver?) && ret == ToSet) }

    /** A call has posted its command and not yet consumed the reply. */
    predicate Waiting() { Await? || AwaitClear? || ((Check? || CheckClear? || Deliver?) && ret == ToAwait) }
  }

  /** The console: a character is put into htif_console_buf, and htif_console_getchar reads its result. */
  datatype Event = Arrived(c: nat) | Got(r: int)

  /** Shared memory, the harts, the history of both mailboxes and of the console, and the operations that have set out
      to post a command: a call or a character when it gets the lock, a read when it has found a value. `unanswered`
      counts the calls the host has taken and not replied to. */
  datatype State = State(
    lock: int, tohost: nat, fromhost: nat, buf: int, harts: seq<Pc>, unanswered: nat,
    posted: seq<nat>, taken: seq<nat>, sent: seq<nat>, consumed: seq<nat>, log: seq<Event>, asked: seq<Op>)

  ghost predicate Init(s: State)
  {
    && s.lock == 0 && s.tohost == 0 && s.fromhost == 0 && s.buf == 0 && s.unanswered == 0
    && s.posted == [] && s.taken == [] && s.sent == [] && s.consumed == [] && s.log == [] && s.asked == []
    && forall i :: 0 <= i < |s.harts| ==> s.harts[i] == Idle
  }

  /** What a mailbox holds. */
  function Content(word: nat): seq<nat> { if word == 0 then [] else [word] }

  function Returned(op: Op, ret: Return): Pc
  {
    match ret
    case ToSet => Poll(op)
    case ToAwait => Await(op)
    case ToGet => GetRead(op)
  }

  /** One step of hart i; `next` is what it does if it is idle. */
  function HartStep(s: State, i: nat, next: Op): State
    requires i < |s.harts|
  {
    var at := (p: Pc) => s.harts[i := p];
    match s.harts[i]
    case Idle => s.(harts := at(Spin(next)))
    case Spin(op) => s.(harts := at(if s.lock != 0 then Spin(op) else Swap(op)))
    case Swap(op) =>
      if s.lock != 0 then s.(lock := -1, harts := at(Spin(op)))
      else if op.Get? then s.(lock := -1, harts := at(Check(op, ToGet)))
      else s.(lock := -1, asked := s.asked + [op], harts := at(Poll(op)))
    case Poll(op) => s.(harts := at(if s.tohost != 0 then Check(op, ToSet) else Post(op)))
    case Check(op, ret) =>
      s.(harts := at(if s.fromhost == 0 then Returned(op, ret) else CheckClear(op, ret, s.fromhost)))
    case CheckClear(op, ret, fh) => s.(fromhost := 0, consumed := s.consumed + [fh], harts := at(Deliver(op, ret, fh)))
    case Deliver(op, ret, fh) =>
      if Dev(fh) != 1 || Cmd(fh) > 1 then s.(harts := at(Failed(op)))
      else if Cmd(fh) == 1 then s.(harts := at(Returned(op, ret)))
      else
        var c := Data(fh) % 256;
        s.(buf := 1 + c, log := s.log + [Arrived(c)], harts := at(Returned(op, ret)))
    case Post(op) =>
      s.(tohost := Posted(op), posted := s.posted + Content(Posted(op)),
         harts := at(if op.Call? then Await(op) else Unlock(op)))
    case Await(op) =>
      s.(harts := at(if s.fromhost == 0 then Await(op)
                     else if Dev(s.fromhost) == 0 && Cmd(s.fromhost) == 0 then AwaitClear(op, s.fromhost)
                     else Check(op, ToAwait)))
    case AwaitClear(op, fh) => s.(fromhost := 0, consumed := s.consumed + [fh], harts := at(Unlock(op)))
    case GetRead(op) =>
      var got := s.log + [Got(s.buf - 1)];
      if s.buf < 0 then s.(log := got, harts := at(Unlock(op)))
      else s.(log := got, asked := s.asked + [op], harts := at(GetClear(op)))
    case GetClear(op) => s.(buf := -1, harts := at(Poll(op)))
    case Unlock(op) => s.(lock := 0, harts := at(Idle))
    case Failed(op) => s
  }

  /** The host takes and clears a command. */
  ghost predicate HostTakes(s: State, t: State)
  {
    && s.tohost != 0
    && t == s.(tohost := 0, taken := s.taken + [s.tohost],
               unanswered := s.unanswered + if Dev(s.tohost) == 0 then 1 else 0)
  }

  /** It fills an empty mailbox with any message. */
  ghost predicate HostSends(s: State, t: State, v: nat)
  {
    && s.fromhost == 0 && v != 0
    && t == s.(fromhost := v, sent := s.sent + [v],
               unanswered := if IsReply(v) && s.unanswered > 0 then s.unanswered - 1 else s.unanswered)
  }

  predicate IsReply(v: nat) { Dev(v) == 0 && Cmd(v) == 0 }

  ghost predicate Next(s: State, t: State)
  {
    || HostTakes(s, t)
    || (exists v: nat :: HostSends(s, t, v))
    || exists i: nat, op: Op :: i < |s.harts| && t == HartStep(s, i, op)
  }

  ghost predicate IsRun(run: seq<State>)
  {
    |run| > 0 && Init(run[0]) && forall i :: 0 < i < |run| ==> Next(run[i - 1], run[i])
  }

  // ----- the invariant -----

  /** The lock word tells whether a hart is in the critical section, and at most one is. */
  ghost predicate Mutex(s: State)
  {
    && (forall i :: 0 <= i < |s.harts| && s.harts[i].Critical() ==> s.lock == -1)
    && (forall i, j :: 0 <= i < j < |s.harts| && s.harts[i].Critical() ==> !s.harts[j].Critical())
    && (s.lock != 0 ==> exists i :: 0 <= i < |s.harts| && s.harts[i].Critical())
  }

  /** Nothing posted or sent is lost, repeated or reordered. */
  ghost predicate Conserved(s: State)
  {
    s.posted == s.taken + Content(s.tohost) && s.sent == s.consumed + Content(s.fromhost)
  }

  /** What a hart in the critical section has seen of the mailboxes is still so. */
  ghost predicate Sees(s: State, p: Pc)
  {
    && (p.Post? ==> s.tohost == 0)
    && ((p.CheckClear? || p.AwaitClear?) ==> p.fh == s.fromhost && p.fh != 0)
  }

  ghost predicate Inv(s: State)
  {
    && Mutex(s) && Conserved(s)
    && forall i :: 0 <= i < |s.harts| && s.harts[i].Critical() ==> Sees(s, s.harts[i])
  }

  /** Entering and leaving the critical section. */
  lemma MutexStep(s: State, i: nat, op: Op)
    requires Mutex(s) && i < |s.harts|
    ensures Mutex(HartStep(s, i, op))
    ensures s.harts[i].Critical() ==>
              forall j :: 0 <= j < |s.harts| && j != i ==> !HartStep(s, i, op).harts[j].Critical()
  {
    hide Dev, Cmd, Data, Posted;
    var t, p := HartStep(s, i, op), s.harts[i];
    if p.Critical() {
      forall j | 0 <= j < |s.harts| && j != i ensures !s.harts[j].Critical() {
      }
      assert p.Unlock? || t.harts[i].Critical();
    } else if p.Swap? && s.lock == 0 {
      assert forall j :: 0 <= j < |s.harts| ==> !s.harts[j].Critical();
      assert t.harts[i].Critical();
    } else if s.lock != 0 {
      var j :| 0 <= j < |s.harts| && s.harts[j].Critical();
      assert t.harts[j].Critical();
    }
  }

  lemma ConservedStep(s: State, i: nat, op: Op)
    requires Inv(s) && i < |s.harts|
    ensures Conserved(HartStep(s, i, op))
  {
    hide Dev, Cmd, Data, Posted, Mutex;
  }

  /** A hart step keeps the invariant. */
  lemma InvHart(s: State, i: nat, op: Op)
    requires Inv(s) && i < |s.harts|
    ensures Inv(HartStep(s, i, op))
  {
    hide Dev, Cmd, Data, Posted, Conserved, Mutex;
    var t := HartStep(s, i, op);
    MutexStep(s, i, op);
    ConservedStep(s, i, op);
    forall j | 0 <= j < |t.harts| && t.harts[j].Critical() ensures Sees(t, t.harts[j]) {
      if j != i { assert s.harts[j].Critical() && t.harts[j] == s.harts[j]; }
    }
  }

  lemma InvHost(s: State, t: State)
    requires Inv(s) && (HostTakes(s, t) || exists v: nat :: HostSends(s, t, v))
    ensures Inv(t)
  {
    hide Dev, Cmd, IsReply;
    forall i | 0 <= i < |t.harts| && t.harts[i].Critical() ensures Sees(t, t.harts[i]) {
      assert s.harts[i].Critical();
    }
  }

  lemma InvNext(s: State, t: State)
    requires Inv(s) && Next(s, t)
    ensures Inv(t)
  {
    hide Inv, HartStep, HostTakes, HostSends;
    if HostTakes(s, t) || exists v: nat :: HostSends(s, t, v) {
      InvHost(s, t);
    } else {
      var i: nat, op: Op :| i < |s.harts| && t == HartStep(s, i, op);
      InvHart(s, i, op);
    }
  }

  /** The invariant holds in every state of every run. */
  lemma {:induction false} InvRun(run: seq<State>, n: nat)
    requires IsRun(run) && n < |run|
    ensures Inv(run[n])
    decreases n
  {
    if n > 0 {
      InvRun(run, n - 1);
      InvNext(run[n - 1], run[n]);
    }
  }

  /** In every state of every run, whatever the host sends: at most one hart holds the lock, the host has taken what
      was posted, and the harts have consumed what was sent, in order and without loss, up to the one word that may
      still be in each mailbox. */
  lemma Safety(run: seq<State>, n: nat)
    requires IsRun(run) && n < |run|
    ensures var s := run[n];
            && (forall i, j :: 0 <= i < |s.harts| && 0 <= j < |s.harts| ==>
                  s.harts[i].Critical() && s.harts[j].Critical() ==> i == j)
            && s.posted == s.taken + Content(s.tohost)
            && s.sent == s.consumed + Content(s.fromhost)
  {
    InvRun(run, n);
  }

  /** No step of a hart writes over a command the host has not taken, or clears a message other than the one that
      hart has read. */
  lemma NothingOverwritten(run: seq<State>, n: nat, i: nat, op: Op)
    requires IsRun(run) && n < |run| && i < |run[n].harts|
    ensures var s, t, p := run[n], HartStep(run[n], i, op), run[n].harts[i];
            && (t.tohost != s.tohost ==> s.tohost == 0)
            && (t.fromhost != s.fromhost ==>
                  && t.fromhost == 0 && (p.CheckClear? || p.AwaitClear?) && p.fh == s.fromhost
                  && t.consumed == s.consumed + [s.fromhost])
  {
    InvRun(run, n);
    assert run[n].harts[i].Critical() ==> Sees(run[n], run[n].harts[i]);
  }

  // ----- with a host that keeps to the protocol -----

  /** The host sends messages of the console, and replies to calls it has taken. */
  predicate Polite(s: State, v: nat) { (Dev(v) == 1 && Cmd(v) <= 1) || (IsReply(v) && s.unanswered > 0) }

  ghost predicate PoliteStep(s: State, t: State)
  {
    && Next(s, t)
    && (|t.sent| > |s.sent| ==> Polite(s, t.fromhost))
    && forall i :: 0 <= i < |s.harts| && !s.harts[i].Idle? ==> s.harts[i].op.ByTheBook()
  }

  ghost predicate IsPoliteRun(run: seq<State>)
  {
    IsRun(run) && forall i :: 0 < i < |run| ==> PoliteStep(run[i - 1], run[i])
  }

  /** What a hart in the critical section then knows of the mailboxes. */
  ghost predicate Knows(s: State, p: Pc)
  {
    && (p.Check? && p.ret == ToAwait ==> s.fromhost != 0 && Dev(s.fromhost) == 1)
    && (p.CheckClear? && p.ret == ToAwait ==> Dev(p.fh) == 1)
    && (p.AwaitClear? ==> Dev(p.fh) == 0)
    && (p.Deliver? ==> Dev(p.fh) == 1 && Cmd(p.fh) <= 1)
    && (p.Waiting() ==> p.op.Call? && (s.tohost != 0 ==> Dev(s.tohost) == 0))
    && !p.Failed?
  }

  /** The calls on their way: posted, taken, or replied to and not consumed. */
  function CallsInFlight(s: State): nat
  {
    (if s.tohost != 0 && Dev(s.tohost) == 0 then 1 else 0) + s.unanswered
    + (if s.fromhost != 0 && Dev(s.fromhost) == 0 then 1 else 0)
  }

  ghost predicate Orderly(s: State)
  {
    && (s.fromhost != 0 ==> (Dev(s.fromhost) == 1 && Cmd(s.fromhost) <= 1) || IsReply(s.fromhost))
    && (s.lock == 0 ==> CallsInFlight(s) == 0)
    && forall i :: 0 <= i < |s.harts| && s.harts[i].Critical() ==>
         Knows(s, s.harts[i]) && CallsInFlight(s) == if s.harts[i].Waiting() then 1 else 0
  }

  /** What the hart itself knows afterwards. */
  lemma KnowsStep(s: State, i: nat, op: Op)
    requires Inv(s) && Orderly(s) && i < |s.harts| && s.harts[i].Critical() && s.harts[i].op.ByTheBook()
    ensures var t := HartStep(s, i, op); var q := t.harts[i];
            q.Critical() ==> Knows(t, q) && CallsInFlight(t) == if q.Waiting() then 1 else 0
    ensures s.harts[i].Unlock? ==> CallsInFlight(s) == 0
  {
    hide Dev, Cmd, Data, Posted, Mutex, Conserved;
    assert Sees(s, s.harts[i]);
    if s.harts[i].Post? { Fields(s.harts[i].op); }
  }

  lemma OrderlyHart(s: State, i: nat, op: Op)
    requires Inv(s) && Orderly(s) && i < |s.harts| && (s.harts[i].Critical() ==> s.harts[i].op.ByTheBook())
    ensures Orderly(HartStep(s, i, op))
  {
    hide Dev, Cmd, Data, Posted, Conserved;
    var t := HartStep(s, i, op);
    MutexStep(s, i, op);
    if s.harts[i].Critical() {
      KnowsStep(s, i, op);
    } else {
      EnterStep(s, i, op);
    }
  }

  /** A hart outside the critical section does not disturb the one inside. */
  lemma EnterStep(s: State, i: nat, op: Op)
    requires Mutex(s) && Orderly(s) && i < |s.harts| && !s.harts[i].Critical()
    ensures Orderly(HartStep(s, i, op))
  {
    hide Dev, Cmd, Data, Posted;
    var t := HartStep(s, i, op);
    forall j | 0 <= j < |t.harts| && t.harts[j].Critical()
      ensures Knows(t, t.harts[j]) && CallsInFlight(t) == if t.harts[j].Waiting() then 1 else 0
    {
      if j != i { assert s.harts[j].Critical() && t.harts[j] == s.harts[j]; }
    }
  }

  lemma OrderlyHost(s: State, t: State)
    requires Inv(s) && Orderly(s) && PoliteStep(s, t) && (HostTakes(s, t) || exists v: nat :: HostSends(s, t, v))
    ensures Orderly(t)
  {
    hide Dev, Cmd, Next;
    forall i | 0 <= i < |t.harts| && t.harts[i].Critical()
      ensures Knows(t, t.harts[i]) && CallsInFlight(t) == if t.harts[i].Waiting() then 1 else 0
    {
      assert s.harts[i].Critical();
    }
    if s.lock == 0 { assert CallsInFlight(t) == CallsInFlight(s); }
  }

  lemma OrderlyNext(s: State, t: State)
    requires Inv(s) && Orderly(s) && PoliteStep(s, t)
    ensures Orderly(t)
  {
    hide Inv, Orderly, HartStep, HostTakes, HostSends;
    if HostTakes(s, t) || exists v: nat :: HostSends(s, t, v) {
      OrderlyHost(s, t);
    } else {
      var i: nat, op: Op :| i < |s.harts| && t == HartStep(s, i, op);
      OrderlyHart(s, i, op);
    }
  }

  lemma {:induction false} OrderlyRun(run: seq<State>, n: nat)
    requires IsPoliteRun(run) && n < |run|
    ensures Orderly(run[n])
    decreases n
  {
    if n > 0 {
      OrderlyRun(run, n - 1);
      InvRun(run, n - 1);
      OrderlyNext(run[n - 1], run[n]);
    }
  }

  /** Then no assertion of __check_fromhost ever fires. */
  lemma NoAssertionFires(run: seq<State>, n: nat)
    requires IsPoliteRun(run) && n < |run|
    ensures forall i :: 0 <= i < |run[n].harts| ==> !run[n].harts[i].Failed?
  {
    OrderlyRun(run, n);
    forall i | 0 <= i < |run[n].harts| ensures !run[n].harts[i].Failed? {
      assert run[n].harts[i].Failed? ==> run[n].harts[i].Critical();
    }
  }

  /** And a call returns only with a reply to it: while it waits exactly one call is in flight, its own. */
  lemma CallGetsItsReply(run: seq<State>, n: nat, i: nat)
    requires IsPoliteRun(run) && n < |run| && i < |run[n].harts|
    ensures run[n].harts[i].Waiting() ==> CallsInFlight(run[n]) == 1
    ensures run[n].harts[i].AwaitClear? ==> IsReply(run[n].fromhost) && run[n].tohost == 0 && run[n].unanswered == 0
  {
    OrderlyRun(run, n);
    InvRun(run, n);
    assert run[n].harts[i].Waiting() ==> run[n].harts[i].Critical();
    assert run[n].harts[i].Critical() ==> Knows(run[n], run[n].harts[i]) && Sees(run[n], run[n].harts[i]);
  }
}
