/** What the console functions deliver in every run: the characters the host sends and the results of
    htif_console_getchar (abstract-machine/am/src/riscv/spike/htif.c). */
module HtifConsole {
  import opened Htif

  /** What the buffer holds after these events: 0 at first, 1 + c for the character c, -1 once read. */
  function Held(log: seq<Event>): (h: int)
    ensures h >= -1
  {
    if log == [] then 0
    else match log[|log| - 1]
      case Arrived(c) => 1 + c
      case Got(_) => -1
  }

  ghost predicate Answers(log: seq<Event>)
  {
    forall k :: 0 <= k < |log| && log[k].Got? ==> log[k].r == Held(log[..k]) - 1
  }

  function Arrivals(log: seq<Event>): seq<nat>
  {
    if log == [] then []
    else
      var n := |log| - 1;
      Arrivals(log[..n]) + if log[n].Arrived? then [log[n].c] else []
  }

  /** The character a message carries, if it is one from the keyboard. */
  function CharOf(v: nat): seq<nat> { if Dev(v) == 1 && Cmd(v) == 0 then [Data(v) % 256] else [] }

  function Chars(messages: seq<nat>): seq<nat>
  {
    if messages == [] then [] else Chars(messages[..|messages| - 1]) + CharOf(messages[|messages| - 1])
  }

  /** The commands of these operations, in order. */
  function Commands(ops: seq<Op>): seq<nat>
  {
    if ops == [] then [] else Commands(ops[..|ops| - 1]) + Content(Posted(ops[|ops| - 1]))
  }

  lemma CommandsStep(ops: seq<Op>, op: Op)
    ensures Commands(ops + [op]) == Commands(ops) + Content(Posted(op))
  {
    assert (ops + [op])[..|ops|] == ops;
  }

  lemma LogStep(log: seq<Event>, e: Event)
    requires Answers(log) && (e.Got? ==> e.r == Held(log) - 1)
    ensures Answers(log + [e]) && Arrivals(log + [e]) == Arrivals(log) + if e.Arrived? then [e.c] else []
    ensures Held(log + [e]) == if e.Arrived? then 1 + e.c else -1
  {
    var more, n := log + [e], |log|;
    assert more[..n] == log;
    forall k | 0 <= k < n ensures more[..k] == log[..k] {
    }
  }

  lemma CharsStep(messages: seq<nat>, v: nat)
    ensures Chars(messages + [v]) == Chars(messages) + CharOf(v)
  {
    assert (messages + [v])[..|messages|] == messages;
  }

  /** Which commands are posted, and which one the holder of the lock still has to post. */
  ghost predicate Owes(s: State, p: Pc)
  {
    !p.Failed? ==> Commands(s.asked) == s.posted + (if p.ToPost() then Content(Posted(p.op)) else [])
  }

  lemma OwesStep(s: State, i: nat, op: Op)
    requires i < |s.harts| && s.harts[i].Critical() && Owes(s, s.harts[i])
    ensures var t := HartStep(s, i, op); Owes(t, t.harts[i])
  {
    hide Dev, Cmd, Data, Posted, Commands, Content;
    if s.harts[i].GetRead? { CommandsStep(s.asked, s.harts[i].op); }
  }

  /** What the hart that holds the lock, or anyone while nobody does, finds in the buffer and has made of the messages
      it consumed. */
  ghost predicate Keeps(s: State, p: Pc)
  {
    && (if p.GetClear? then Held(s.log) == -1 else s.buf == Held(s.log))
    && Chars(s.consumed) == Arrivals(s.log) + (if p.Deliver? then CharOf(p.fh) else [])
    && Owes(s, p) && (p.AwaitClear? ==> IsReply(p.fh))
  }

  ghost predicate Console(s: State)
  {
    && Answers(s.log) && (s.lock == 0 ==> Keeps(s, Idle))
    && forall i :: 0 <= i < |s.harts| && s.harts[i].Critical() ==> Keeps(s, s.harts[i])
  }

  /** A step inside the critical section. */
  lemma KeepsStep(s: State, i: nat, op: Op)
    requires i < |s.harts| && s.harts[i].Critical() && Answers(s.log) && Keeps(s, s.harts[i])
    ensures var t := HartStep(s, i, op); Answers(t.log) && Keeps(t, t.harts[i])
  {
    hide Dev, Cmd, Data, Posted, Answers, Held, Arrivals, Chars, Owes, Content;
    OwesStep(s, i, op);
    var p := s.harts[i];
    match p
    case CheckClear(_, _, fh) => CharsStep(s.consumed, fh);
    case AwaitClear(_, fh) => CharsStep(s.consumed, fh);
    case Deliver(_, _, fh) => LogStep(s.log, Arrived(Data(fh) % 256));
    case GetRead(_) => LogStep(s.log, Got(s.buf - 1));
    case _ =>
  }

  lemma ConsoleHart(s: State, i: nat, op: Op)
    requires Mutex(s) && Console(s) && i < |s.harts|
    ensures Console(HartStep(s, i, op))
  {
    hide Dev, Cmd, Data, Posted, Answers, Held, Arrivals, Chars, CharOf, Commands, Content, IsReply;
    var t, p := HartStep(s, i, op), s.harts[i];
    MutexStep(s, i, op);
    if p.Critical() {
      KeepsStep(s, i, op);
    } else {
      EnterKeeps(s, i, op);
    }
  }

  /** A hart outside the critical section touches nothing but the lock. */
  lemma EnterKeeps(s: State, i: nat, op: Op)
    requires Mutex(s) && Console(s) && i < |s.harts| && !s.harts[i].Critical()
    ensures Console(HartStep(s, i, op))
  {
    hide Dev, Cmd, Data, Posted, Answers, Held, Arrivals, Chars, CharOf, Commands, Content, IsReply;
    var t := HartStep(s, i, op);
    if s.harts[i].Swap? { CommandsStep(s.asked, s.harts[i].op); }
    forall j | 0 <= j < |t.harts| && t.harts[j].Critical() ensures Keeps(t, t.harts[j]) {
      if j != i { assert s.harts[j].Critical() && t.harts[j] == s.harts[j]; }
    }
  }

  lemma ConsoleHost(s: State, t: State)
    requires Console(s) && (HostTakes(s, t) || exists v: nat :: HostSends(s, t, v))
    ensures Console(t)
  {
    forall i | 0 <= i < |t.harts| && t.harts[i].Critical() ensures Keeps(t, t.harts[i]) {
      assert s.harts[i].Critical();
    }
  }

  lemma {:induction false} ConsoleRun(run: seq<State>, n: nat)
    requires IsRun(run) && n < |run|
    ensures Console(run[n])
    decreases n
  {
    hide HartStep, HostTakes, HostSends, Mutex, Conserved;
    if n > 0 {
      ConsoleRun(run, n - 1);
      InvRun(run, n - 1);
      var s, t := run[n - 1], run[n];
      if HostTakes(s, t) || exists v: nat :: HostSends(s, t, v) {
        ConsoleHost(s, t);
      } else {
        var i: nat, op: Op :| i < |s.harts| && t == HartStep(s, i, op);
        ConsoleHart(s, i, op);
      }
    }
  }

  /** In every run the k-th console event, if it is a result of htif_console_getchar, is the character that arrived
      directly before; without one it is -1 the first time and -2 afterwards. */
  lemma GetcharExact(run: seq<State>, n: nat, k: nat)
    requires IsRun(run) && n < |run| && k < |run[n].log| && run[n].log[k].Got?
    ensures var log := run[n].log;
            log[k].r == if k == 0 then -1 else if log[k - 1].Arrived? then log[k - 1].c else -2
  {
    ConsoleRun(run, n);
    var before := run[n].log[..k];
    assert k > 0 ==> before[|before| - 1] == run[n].log[k - 1];
  }

  /** The characters that have arrived are those of the messages consumed, in order; at most the last is still on its
      way to the buffer, in the hands of the hart that holds the lock. */
  lemma CharactersArrive(run: seq<State>, n: nat)
    requires IsRun(run) && n < |run|
    ensures var s := run[n];
            && (s.lock == 0 ==> Arrivals(s.log) == Chars(s.consumed))
            && forall i :: 0 <= i < |s.harts| && s.harts[i].Critical() ==>
                 Arrivals(s.log) + (if s.harts[i].Deliver? then CharOf(s.harts[i].fh) else []) == Chars(s.consumed)
  {
    ConsoleRun(run, n);
  }

  /** Every operation that set out to post a command has posted exactly that command, in the order of the lock; only
      the last may still be to do, by the hart that holds the lock, if no assertion has stopped it. */
  lemma CommandsPosted(run: seq<State>, n: nat)
    requires IsRun(run) && n < |run|
    ensures var s := run[n];
            && (s.lock == 0 ==> s.posted == Commands(s.asked))
            && forall i :: 0 <= i < |s.harts| && s.harts[i].Critical() && !s.harts[i].Failed? ==>
                 s.posted + (if s.harts[i].ToPost() then Content(Posted(s.harts[i].op)) else []) == Commands(s.asked)
  {
    ConsoleRun(run, n);
  }
}
