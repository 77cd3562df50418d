/** The module from load to unload: whatever messages and system calls arrive, every
    answer is the one the command history determines, and the system call table comes
    back unchanged. */
module Sessions {
  import opened CTypes
  import opened LockTables
  import opened Whitelists
  import opened Commands
  import opened Policies
  import opened Histories
  import opened Runs
  import opened TableSets
  import opened Freezers
  import opened Netlink
  import GrowableArray

  /** What reaches the loaded module: a command that userland sends, or a hooked
      system call. */
  datatype Event = Send(cmd: NetlinkCmd, resourceData: Option<CText>) | Call(uid: uint32, call: Syscall)

  datatype Response = Replied(reply: int) | Answered(outcome: Outcome)

  /** The string leaves room for its NUL. */
  predicate Sendable(event: Event) {
    event.Send? ==> CMD_SIZE + |TextOf(event.resourceData)| < MAX_PAYLOAD
  }

  function Heard(event: Event): seq<Message> {
    if event.Send? then [Message(event.cmd, TextOf(event.resourceData))] else []
  }

  /** The commands received once the events have followed the commands `h`. */
  function Received(h: seq<Message>, events: seq<Event>): seq<Message>
    decreases |events|
  {
    if events == [] then h else Received(h + Heard(events[0]), events[1..])
  }

  lemma ReceivedNothing(h: seq<Message>)
    ensures Received(h, []) == h
  {
  }

  /** Every command that is sent is received, and nothing else. */
  lemma {:induction false} ReceivedOneMore(h: seq<Message>, events: seq<Event>, e: Event)
    ensures Received(h, events + [e]) ==
            Received(h, events) + if e.Send? then [Message(e.cmd, TextOf(e.resourceData))] else []
    decreases |events|
  {
    if events == [] {
      assert [e][1..] == [] && events + [e] == [e];
    } else {
      assert (events + [e])[1..] == events[1..] + [e];
      ReceivedOneMore(h + Heard(events[0]), events[1..], e);
    }
  }

  /** The answer that the commands received before it determine, in every state: passed
      calls reach the original entry. */
  ghost predicate AnsweredByHistory(h: seq<Message>, before: seq<Handler>, event: Event, response: Response)
    requires NR_OPENAT < |before|
  {
    match event
    case Send(cmd, _) => response == Replied(if Understood(cmd) then NLMSG_DONE else NLMSG_ERROR)
    case Call(u, call) => response == Answered(OutcomeOf(JudgeBy(h, u, call), call, OriginalOf(before, call)))
  }

  /** No bucket is given more strings than its array takes before the 32-bit capacity
      wraps; calls, and commands that store nothing, do not count. */
  ghost predicate BucketsFit(h: seq<Message>) {
    forall r: int32, u: uint32 | HasWhitelist(r) ::
      |TextsFor(UntilListFull(h, r), r, u)| <= GrowableArray.DEFAULT_LIMIT
  }

  /** The module's globals as the kernel zeroes them before `freezer_init`. */
  method Load(sysCallTable: array<Handler>) returns (freezer: Freezer)
    requires NR_OPENAT < sysCallTable.Length
    ensures freezer.Valid() && freezer.state == EMPTY && freezer.hooks.sysCallTable == sysCallTable
    ensures fresh(freezer) && fresh(freezer.Repr) && fresh(freezer.hooks)
  {
    var hooks := new SyscallHooks(sysCallTable);
    var locks := new LockSet();
    var lists := new WhitelistSet();
    assert fresh(locks.Footprint() + lists.Repr) && locks.Footprint() !! lists.Repr;
    freezer := new Freezer(locks, lists, hooks);
  }

  /** The hook that the system call table leads to. */
  method OnSyscall(freezer: Freezer, ghost before: seq<Handler>, uid: uint32, call: Syscall) returns (outcome: Outcome)
    requires freezer.Valid() && freezer.hooks.Installed(before)
    ensures outcome == OutcomeOf(Judge(PolicyOf(freezer.state), uid, call), call, OriginalOf(before, call))
    ensures outcome.Forwarded? ==> outcome.handler == before[NumberOf(call)]
    ensures outcome.Returned? ==> outcome.code == if call.Write? then 0 else if call.Openat? then 13 else -1
  {
    var origUid := AsSigned(uid);
    var handler := freezer.hooks.sysCallTable[NumberOf(call)];
    match handler {
      case HookedExecve =>
        assert call.Execve?;
        outcome := freezer.HookedExecve(origUid, call.name);
      case HookedConnect =>
        assert call.Connect?;
        outcome := freezer.HookedConnect(origUid, call.peer);
      case HookedWrite =>
        assert call.Write?;
        outcome := freezer.HookedWrite(origUid, call.path);
      case HookedOpenat =>
        assert call.Openat?;
        outcome := freezer.HookedOpenat(origUid, call.name);
      case NoHandler => assert false;
      case Kernel(_) => assert false;
    }
  }

  /** Every answer is the one determined by the commands received before it. */
  ghost predicate Faithful(before: seq<Handler>, h: seq<Message>, events: seq<Event>, log: seq<Response>)
    requires NR_OPENAT < |before|
    decreases |events|
  {
    |log| == |events| &&
    (events == [] ||
     (AnsweredByHistory(h, before, events[0], log[0]) &&
      Faithful(before, h + Heard(events[0]), events[1..], log[1..])))
  }

  lemma FaithfulCons(before: seq<Handler>, h: seq<Message>, events: seq<Event>, response: Response, log: seq<Response>)
    requires NR_OPENAT < |before| && events != []
    requires AnsweredByHistory(h, before, events[0], response)
    requires Faithful(before, h + Heard(events[0]), events[1..], log)
    ensures Faithful(before, h, events, [response] + log)
    ensures Received(h, events) == Received(h + Heard(events[0]), events[1..])
  {
    assert ([response] + log)[1..] == log;
  }

  /** The same, for the k-th event. */
  lemma {:induction false} FaithfulAt(before: seq<Handler>, h: seq<Message>, events: seq<Event>, log: seq<Response>,
                                      k: nat)
    requires NR_OPENAT < |before| && k < |events|
    requires Faithful(before, h, events, log)
    ensures |log| == |events| && AnsweredByHistory(Received(h, events[..k]), before, events[k], log[k])
    ensures match events[k]
            case Send(cmd, _) => log[k] == Replied(if Understood(cmd) then 3 else 2)
            case Call(u, call) =>
              match JudgeBy(Received(h, events[..k]), u, call)
              case Pass => log[k] == Answered(Forwarded(before[NumberOf(call)]))
              case Refuse => log[k] == Answered(Returned(if call.Write? then 0 else if call.Openat? then 13 else -1))
              case Fault => log[k] == Answered(Faulted)
    decreases k
  {
    if k > 0 {
      FaithfulAt(before, h + Heard(events[0]), events[1..], log[1..], k - 1);
      assert events[..k][1..] == events[1..][..k - 1];
    }
  }

  lemma {:induction false} TextsOneMore(h: seq<Message>, m: Message, r: int32, u: uint32)
    requires HasWhitelist(r)
    ensures |TextsFor(UntilListFull(h + [m], r), r, u)| ==
            |TextsFor(UntilListFull(h, r), r, u)| +
            if |Run(EMPTY, h).Listed(r)| < MAX_SIZE_ARRAY && m.cmd == NetlinkCmd(r, u, WHITELIST) then 1 else 0
  {
    BucketInEveryState(h, r, u);
    BucketInEveryState(h + [m], r, u);
    BucketOneMore(h, m, r, u);
  }

  lemma BucketRoomIff(h: seq<Message>, r: int32, u: uint32)
    requires HasWhitelist(r)
    ensures BucketHasRoom(Run(EMPTY, h).Listed(r), u) <==>
            (|Run(EMPTY, h).Listed(r)| < MAX_SIZE_ARRAY ==>
               |TextsFor(UntilListFull(h, r), r, u)| < GrowableArray.DEFAULT_LIMIT)
  {
    EmptyIsWellFormed();
    RunKeepsWellFormed(EMPTY, h);
    BucketInEveryState(h, r, u);
    var es := Run(EMPTY, h).Listed(r);
    var k := IndexOf(es, u);
    assert forall i | 0 <= i < |es| && es[i].uid == u :: i == k;
  }

  /** The bound on the history is no stronger than it must be: it admits one more command
      exactly when the push that the command makes, if any, stays in bounds. */
  lemma {:induction false} FitsOneMoreIff(h: seq<Message>, m: Message)
    requires BucketsFit(h)
    ensures BucketsFit(h + [m]) <==> HasRoom(Run(EMPTY, h).lists, m.cmd)
  {
    var r, u := m.cmd.resource, m.cmd.uid;
    forall q: int32, v: uint32 | HasWhitelist(q)
      ensures |TextsFor(UntilListFull(h + [m], q), q, v)| ==
              |TextsFor(UntilListFull(h, q), q, v)| +
              if |Run(EMPTY, h).Listed(q)| < MAX_SIZE_ARRAY && m.cmd == NetlinkCmd(q, v, WHITELIST) then 1 else 0
    {
      TextsOneMore(h, m, q, v);
    }
    if HasWhitelist(r) {
      BucketRoomIff(h, r, u);
    }
    assert Run(EMPTY, h).lists.Of(r) == Run(EMPTY, h).Listed(r);
  }

  lemma {:induction false} FitsBefore(h: seq<Message>, k: seq<Message>)
    requires BucketsFit(h + k)
    ensures BucketsFit(h)
  {
    forall r: int32, u: uint32 | HasWhitelist(r)
      ensures |TextsFor(UntilListFull(h, r), r, u)| <= GrowableArray.DEFAULT_LIMIT
    {
      TextsOnlyGrow(h, k, r, u);
    }
  }

  lemma {:induction false} ReceivedLater(h: seq<Message>, events: seq<Event>)
    ensures h <= Received(h, events)
    decreases |events|
  {
    if events != [] {
      ReceivedLater(h + Heard(events[0]), events[1..]);
    }
  }

  /** The commands received by then fit when the later ones do. */
  lemma {:induction false} ReceivedFits(h: seq<Message>, events: seq<Event>)
    requires BucketsFit(Received(h, events))
    ensures BucketsFit(h)
  {
    ReceivedLater(h, events);
    var all := Received(h, events);
    assert all == h + all[|h|..];
    FitsBefore(h, all[|h|..]);
  }

  /** A hooked call, after the commands `h`. */
  method AnswerCall(freezer: Freezer, ghost before: seq<Handler>, ghost h: seq<Message>, uid: uint32, call: Syscall)
    returns (response: Response)
    requires freezer.Valid() && freezer.state == Run(EMPTY, h) && freezer.hooks.Installed(before)
    ensures AnsweredByHistory(h, before, Call(uid, call), response)
  {
    var outcome := OnSyscall(freezer, before, uid, call);
    response := Answered(outcome);
    VerdictByHistory(h, uid, call);
  }

  /** A command from userland to the kernel's tables, after the commands `h`. */
  method AnswerSend(freezer: Freezer, ghost h: seq<Message>, cmd: NetlinkCmd, resourceData: Option<CText>)
    returns (reply: int)
    requires freezer.Valid() && freezer.state == Run(EMPTY, h)
    requires Sendable(Send(cmd, resourceData)) && BucketsFit(h + [Message(cmd, TextOf(resourceData))])
    modifies freezer.Repr
    ensures freezer.Valid() && fresh(freezer.Repr - old(freezer.Repr))
    ensures freezer.state == Run(EMPTY, h + [Message(cmd, TextOf(resourceData))])
    ensures reply == if Understood(cmd) then NLMSG_DONE else NLMSG_ERROR
  {
    ghost var m := Message(cmd, TextOf(resourceData));
    FitsBefore(h, [m]);
    FitsOneMoreIff(h, m);
    RunAppend(EMPTY, h, [m]);
    RunOne(Run(EMPTY, h), m);
    reply := SendAndReceive(freezer, cmd, resourceData);
  }

  /** One event, after the commands `h`. */
  method Answer(freezer: Freezer, ghost before: seq<Handler>, ghost h: seq<Message>, event: Event)
    returns (response: Response)
    requires freezer.Valid() && freezer.state == Run(EMPTY, h) && freezer.hooks.Installed(before)
    requires Sendable(event) && BucketsFit(h + Heard(event))
    modifies freezer.Repr
    ensures freezer.Valid() && fresh(freezer.Repr - old(freezer.Repr)) && freezer.hooks.Installed(before)
    ensures freezer.state == Run(EMPTY, h + Heard(event))
    ensures AnsweredByHistory(h, before, event, response)
  {
    if event.Send? {
      var reply := AnswerSend(freezer, h, event.cmd, event.resourceData);
      response := Replied(reply);
    } else {
      assert h + [] == h;
      response := AnswerCall(freezer, before, h, event.uid, event.call);
    }
  }

  /** Any number of events, after the commands `h`. */
  method Serve(freezer: Freezer, ghost before: seq<Handler>, ghost h: seq<Message>, events: seq<Event>)
    returns (log: seq<Response>)
    requires freezer.Valid() && freezer.state == Run(EMPTY, h) && freezer.hooks.Installed(before)
    requires forall k | 0 <= k < |events| :: Sendable(events[k])
    requires BucketsFit(Received(h, events))
    modifies freezer.Repr
    ensures freezer.Valid() && freezer.hooks.Installed(before)
    ensures freezer.state == Run(EMPTY, Received(h, events))
    ensures Faithful(before, h, events, log)
    decreases |events|
  {
    if events == [] {
      return [];
    }
    ReceivedFits(h + Heard(events[0]), events[1..]);
    var response := Answer(freezer, before, h, events[0]);
    log := Serve(freezer, before, h + Heard(events[0]), events[1..]);
    FaithfulCons(before, h, events, response, log);
    log := [response] + log;
  }

  /** Load, serve, unload. Loading is refused, and changes nothing, when one of the five
      saved entries is missing; otherwise the system call table ends as it began. */
  method Lifetime(freezer: Freezer, events: seq<Event>)
    returns (res: int, log: seq<Response>, freed: seq<object>)
    requires freezer.Valid() && freezer.state == EMPTY
    requires (forall k | 0 <= k < |events| :: Sendable(events[k])) && BucketsFit(Received([], events))
    modifies freezer.Repr, freezer.hooks, freezer.hooks.sysCallTable
    ensures freezer.hooks.sysCallTable[..] == old(freezer.hooks.sysCallTable[..])
    ensures res == if Complete(old(freezer.hooks.sysCallTable[..])) then 0 else -1
    ensures res == 0 ==> Faithful(old(freezer.hooks.sysCallTable[..]), [], events, log)
    ensures NoRepeats(freed)
    ensures res == 0 ==> freezer.Valid() && freezer.state == Run(EMPTY, Received([], events)) &&
                         freed == freezer.lists.AllStorage()
    ensures res == 0 ==> forall o: object :: o in freed <==>
              freezer.lists.networks.Allocated(o) || freezer.lists.files.Allocated(o) ||
              freezer.lists.processes.Allocated(o)
    ensures res != 0 ==> log == [] && freed == []
  {
    ghost var before := freezer.hooks.sysCallTable[..];
    log, freed := [], [];
    res := freezer.InitSyscalls();
    if res == 0 {
      log := Serve(freezer, before, [], events);
      freed := freezer.ResetSyscalls(before);
    }
  }

  /** The same from a bare system call table: whatever it held, it is back in the end. */
  method LoadServeUnload(sysCallTable: array<Handler>, events: seq<Event>)
    returns (res: int, log: seq<Response>, freezer: Freezer, freed: seq<object>)
    requires NR_OPENAT < sysCallTable.Length
    requires (forall k | 0 <= k < |events| :: Sendable(events[k])) && BucketsFit(Received([], events))
    modifies sysCallTable
    ensures sysCallTable[..] == old(sysCallTable[..])
    ensures res == if Complete(old(sysCallTable[..])) then 0 else -1
    ensures res == 0 ==> Faithful(old(sysCallTable[..]), [], events, log)
    ensures NoRepeats(freed)
    ensures res == 0 ==> freezer.Valid() && freezer.state == Run(EMPTY, Received([], events)) &&
                         freed == freezer.lists.AllStorage()
    ensures res == 0 ==> forall o: object :: o in freed <==>
              freezer.lists.networks.Allocated(o) || freezer.lists.files.Allocated(o) ||
              freezer.lists.processes.Allocated(o)
    ensures res != 0 ==> log == [] && freed == []
  {
    freezer := Load(sysCallTable);
    res, log, freed := Lifetime(freezer, events);
  }
}
