/** What the tables mean: who is frozen for which resource and who may use what, which
    system calls that refuses, and how far the bounded tables follow it. */
module Policies {
  import opened CTypes
  import opened LockTables
  import opened Whitelists
  import opened Commands

  /** The unbounded policy: frozen (resource, uid) pairs and whitelisted
      (resource, uid, string) triples, without order or capacity. */
  datatype Policy = Policy(frozen: iset<(int32, uint32)>, allowed: iset<(int32, uint32, CText)>)

  ghost const NOTHING := Policy(iset{}, iset{})

  ghost function PolicyOf(t: Tables): Policy {
    Policy(iset p: (int32, uint32) | AsSigned(p.1) in t.Locked(p.0),
           iset p: (int32, uint32, CText) | Holds(t.Listed(p.0), p.1, p.2))
  }

  ghost function PolicyStep(p: Policy, m: Message): Policy {
    var cmd := m.cmd;
    if !Understood(cmd) then p
    else if cmd.action == LOCK then p.(frozen := p.frozen + iset{(cmd.resource, cmd.uid)})
    else if cmd.action == UNLOCK then p.(frozen := p.frozen - iset{(cmd.resource, cmd.uid)})
    else p.(allowed := p.allowed + iset{(cmd.resource, cmd.uid, m.text)})
  }

  ghost function PolicyRun(p: Policy, h: seq<Message>): Policy {
    if h == [] then p else PolicyStep(PolicyRun(p, h[..|h| - 1]), h[|h| - 1])
  }

  /// System calls

  /** The address a `connect` names, once it is copied from user memory. */
  datatype Peer = Unreadable | OtherFamily | Inet(address: CText)

  /** A hooked call with the argument its hook looks at. `None` is the null pointer: a name
      that could not be copied from user memory, or a descriptor without a path. */
  datatype Syscall =
    | Execve(name: Option<CText>)
    | Connect(peer: Peer)
    | Write(path: Option<CText>)
    | Openat(name: Option<CText>)

  /** "/etc/passwd" */
  const PASSWD_FILE: CText := [47, 101, 116, 99, 47, 112, 97, 115, 115, 119, 100]

  const EACCES := 13

  /** The value a hook returns for a refused call. */
  function RefusalCode(call: Syscall): int {
    match call
    case Execve(_) => -1
    case Connect(_) => -1
    case Write(_) => 0
    case Openat(_) => EACCES
  }

  ghost predicate Frozen(p: Policy, r: int32, u: uint32) {
    (r, u) in p.frozen
  }

  /** Some string whitelisted for the user has the requested one as a prefix. */
  ghost predicate Permits(p: Policy, r: int32, u: uint32, requested: CText) {
    exists text: CText :: (r, u, text) in p.allowed && requested <= text
  }

  ghost predicate Blocked(p: Policy, r: int32, u: uint32, requested: CText) {
    Frozen(p, r, u) && !Permits(p, r, u, requested)
  }

  /** What a hook does with a call. `Fault` is a null pointer handed to `strlen`. */
  datatype Judgement = Pass | Refuse | Fault

  /** The whole policy of the four hooks. */
  ghost function Judge(p: Policy, u: uint32, call: Syscall): Judgement {
    match call
    case Execve(None) => Pass
    case Execve(Some(name)) => if Blocked(p, PROCESS, u, name) then Refuse else Pass
    case Connect(Inet(address)) => if Blocked(p, NETWORK, u, address) then Refuse else Pass
    case Connect(_) => Pass
    case Write(None) => if !Frozen(p, FILE, u) then Pass else if Permits(p, FILE, u, []) then Fault else Refuse
    case Write(Some(path)) => if Blocked(p, FILE, u, path) then Refuse else Pass
    case Openat(None) => Pass
    case Openat(Some(name)) =>
      if Frozen(p, SESSIONS, u) && name <= PASSWD_FILE then Refuse
      else if Blocked(p, FILE, u, name) then Refuse
      else Pass
  }

  /** The resources whose tables a hook looks at. */
  function Consults(call: Syscall): set<int32> {
    match call
    case Execve(_) => {PROCESS}
    case Connect(_) => {NETWORK}
    case Write(_) => {FILE}
    case Openat(_) => {FILE, SESSIONS}
  }

  /** Two policies say the same about user `u` and the resources `rs`. */
  ghost predicate Agree(p: Policy, q: Policy, rs: set<int32>, u: uint32) {
    && (forall r | r in rs :: Frozen(p, r, u) <==> Frozen(q, r, u))
    && (forall r, text: CText | r in rs :: (r, u, text) in p.allowed <==> (r, u, text) in q.allowed)
  }

  lemma SamePermits(p: Policy, q: Policy, r: int32, u: uint32, s: CText)
    requires forall text: CText :: (r, u, text) in p.allowed <==> (r, u, text) in q.allowed
    ensures Permits(p, r, u, s) <==> Permits(q, r, u, s)
  {
  }

  /** A verdict depends on nothing but what the policy says about the caller and the
      consulted resources. */
  lemma VerdictDependsOnlyOn(p: Policy, q: Policy, u: uint32, call: Syscall)
    requires Agree(p, q, Consults(call), u)
    ensures Judge(p, u, call) == Judge(q, u, call)
  {
    forall r, s: CText | r in Consults(call)
      ensures Permits(p, r, u, s) <==> Permits(q, r, u, s)
    {
      SamePermits(p, q, r, u, s);
    }
  }

  predicate SameKind(call: Syscall, other: Syscall) {
    && (call.Execve? <==> other.Execve?) && (call.Connect? <==> other.Connect?)
    && (call.Write? <==> other.Write?) && (call.Openat? <==> other.Openat?)
  }

  ghost predicate DifferOnlyAt(p: Policy, q: Policy, r: int32) {
    && (forall s: int32, u: uint32 | s != r :: (s, u) in p.frozen <==> (s, u) in q.frozen)
    && (forall s: int32, u: uint32, text: CText | s != r :: (s, u, text) in p.allowed <==> (s, u, text) in q.allowed)
  }

  /** Of two policies that differ only at a resource, a hook's verdict can depend on which
      holds. */
  ghost predicate Matters(call: Syscall, r: int32) {
    exists other: Syscall, p: Policy, q: Policy, u: uint32 ::
      SameKind(call, other) && DifferOnlyAt(p, q, r) && Judge(p, u, other) != Judge(q, u, other)
  }

  /** A hook consults exactly the resources that matter to some call of its kind. */
  lemma ConsultsWhatMatters(call: Syscall, r: int32)
    ensures r in Consults(call) <==> Matters(call, r)
  {
    if r in Consults(call) {
      var other := match call
        case Execve(_) => Execve(Some([]))
        case Connect(_) => Connect(Inet([]))
        case Write(_) => Write(Some([]))
        case Openat(_) => Openat(Some([]));
      var frozen := Policy(iset{(r, 0)}, iset{});
      assert Judge(NOTHING, 0, other) == Pass;
      assert Judge(frozen, 0, other) == Refuse;
      assert DifferOnlyAt(NOTHING, frozen, r) && SameKind(call, other);
    } else if Matters(call, r) {
      var other: Syscall, p: Policy, q: Policy, u: uint32 :|
        SameKind(call, other) && DifferOnlyAt(p, q, r) && Judge(p, u, other) != Judge(q, u, other);
      assert r !in Consults(other);
      VerdictDependsOnlyOn(p, q, u, other);
    }
  }

  predicate Spells(name: CText, text: string) {
    |name| == |text| && forall i | 0 <= i < |name| :: name[i] == text[i] as int
  }

  /** Under a session freeze that nothing else adds to, "/etc/passwd" is refused and so is every
      start of it; "/etc/shadow" and "/etc/passwd-" are not. */
  lemma SessionFreezeGuards(p: Policy, u: uint32, name: CText)
    requires Frozen(p, SESSIONS, u) && !Blocked(p, FILE, u, name)
    ensures Judge(p, u, Openat(Some(name))) == Refuse <==>
            |name| <= 11 && forall i | 0 <= i < |name| :: name[i] == "/etc/passwd"[i] as int
    ensures Spells(name, "/etc/passwd") ==> Judge(p, u, Openat(Some(name))) == Refuse
    ensures Spells(name, "/etc/shadow") || Spells(name, "/etc/passwd-") ==> Judge(p, u, Openat(Some(name))) == Pass
  {
    assert Spells(PASSWD_FILE, "/etc/passwd");
    if Spells(name, "/etc/shadow") {
      assert name[5] == 115;
    }
  }

  /** A lookup is the exact membership test, in any state, if and only if the name is
      whitelisted itself or stops short inside no whitelisted string. */
  lemma LookupIsExactIff(p: Policy, r: int32, u: uint32, s: CText)
    ensures (Permits(p, r, u, s) <==> (r, u, s) in p.allowed) <==>
            ((r, u, s) in p.allowed || forall text: CText | (r, u, text) in p.allowed :: !(s < text))
  {
    if Permits(p, r, u, s) && (r, u, s) !in p.allowed {
      var text: CText :| (r, u, text) in p.allowed && s <= text;
      PrefixIsProper(s, text);
    }
  }

  /// Tables against policy

  lemma StoredAfter(es: seq<Entry<CText>>, uid: uint32, item: CText)
    ensures |es| < MAX_SIZE_ARRAY ==> forall u: uint32, text: CText ::
              Holds(Store(es, uid, item), u, text) <==> Holds(es, u, text) || (u == uid && text == item)
    ensures |es| >= MAX_SIZE_ARRAY ==> Store(es, uid, item) == es
  {
    if |es| < MAX_SIZE_ARRAY {
      forall u: uint32, text: CText
        ensures Holds(Store(es, uid, item), u, text) <==> Holds(es, u, text) || (u == uid && text == item)
      {
        StoredAfterFor(es, uid, item, u, text);
      }
    }
  }

  lemma StoredAfterFor(es: seq<Entry<CText>>, uid: uint32, item: CText, u: uint32, text: CText)
    requires |es| < MAX_SIZE_ARRAY
    ensures Holds(Store(es, uid, item), u, text) <==> Holds(es, u, text) || (u == uid && text == item)
  {
    var after := Store(es, uid, item);
    var k := IndexOf(es, uid);
    assert after[k].uid == uid && item in after[k].items;
    if Holds(es, u, text) {
      var i :| 0 <= i < |es| && es[i].uid == u && text in es[i].items;
      assert after[i].uid == u && text in after[i].items;
    }
    if Holds(after, u, text) && (u != uid || text != item) {
      var i :| 0 <= i < |after| && after[i].uid == u && text in after[i].items;
      assert i < |es| && es[i].uid == u && text in es[i].items;
    }
  }

  /** The table a command is for is full, and the command would have changed
      what the table means. */
  ghost predicate Dropped(t: Tables, m: Message) {
    var cmd := m.cmd;
    if cmd.action == WHITELIST then
      |t.Listed(cmd.resource)| >= MAX_SIZE_ARRAY && !Holds(t.Listed(cmd.resource), cmd.uid, m.text)
    else
      && Understood(cmd) && |t.Locked(cmd.resource)| >= MAX_SIZE_ARRAY
      && (cmd.action == LOCK <==> AsSigned(cmd.uid) !in t.Locked(cmd.resource))
  }

  /** What one command does to one frozen pair. */
  lemma FrozenAfterStep(t: Tables, m: Message, r: int32, u: uint32)
    requires WellFormed(t) && (|t.Locked(r)| < MAX_SIZE_ARRAY || !Dropped(t, m))
    ensures Frozen(PolicyOf(Step(t, m)), r, u) <==> Frozen(PolicyStep(PolicyOf(t), m), r, u)
  {
    if HasLockTable(r) && m.cmd.resource == r {
      SignedUnsignedInverse(AsSigned(u), m.cmd.uid);
      AddedIsExact(t.Locked(r), AsSigned(m.cmd.uid));
      RemovedIsExact(t.Locked(r), AsSigned(m.cmd.uid));
    }
  }

  /** What one command does to one allowed triple. */
  lemma AllowedAfterStep(t: Tables, m: Message, r: int32, u: uint32, text: CText)
    requires |t.Listed(r)| < MAX_SIZE_ARRAY || !Dropped(t, m)
    ensures (r, u, text) in PolicyOf(Step(t, m)).allowed <==> (r, u, text) in PolicyStep(PolicyOf(t), m).allowed
  {
    if HasWhitelist(r) && m.cmd.resource == r && m.cmd.action == WHITELIST {
      StoredAfter(t.Listed(r), m.cmd.uid, m.text);
    }
  }

  /** Refinement of one command, exactly: the tables follow the policy unless the
      command is dropped for lack of room. */
  lemma StepFollowsPolicy(t: Tables, m: Message)
    requires WellFormed(t)
    ensures PolicyOf(Step(t, m)) == PolicyStep(PolicyOf(t), m) <==> !Dropped(t, m)
  {
    var now, want := PolicyOf(Step(t, m)), PolicyStep(PolicyOf(t), m);
    var cmd := m.cmd;
    if Dropped(t, m) {
      StoredAfter(t.Listed(cmd.resource), cmd.uid, m.text);
      if cmd.action == WHITELIST {
        assert (cmd.resource, cmd.uid, m.text) in want.allowed;
        assert (cmd.resource, cmd.uid, m.text) !in now.allowed;
      } else {
        assert Frozen(want, cmd.resource, cmd.uid) <==> cmd.action == LOCK;
        assert Frozen(now, cmd.resource, cmd.uid) <==> cmd.action != LOCK;
      }
    } else {
      forall p: (int32, uint32)
        ensures p in now.frozen <==> p in want.frozen
      {
        FrozenAfterStep(t, m, p.0, p.1);
      }
      forall p: (int32, uint32, CText)
        ensures p in now.allowed <==> p in want.allowed
      {
        AllowedAfterStep(t, m, p.0, p.1, p.2);
      }
    }
  }

  /** Refinement of whole runs, table by table: up to and including the command that takes
      its last slot, a lock table holds what the policy has frozen. */
  lemma {:induction false} LocksFollowPolicy(t: Tables, h: seq<Message>, r: int32, u: uint32)
    requires WellFormed(t) && (h != [] ==> |Run(t, h[..|h| - 1]).Locked(r)| < MAX_SIZE_ARRAY)
    ensures Frozen(PolicyOf(Run(t, h)), r, u) <==> Frozen(PolicyRun(PolicyOf(t), h), r, u)
    decreases |h|
  {
    if h != [] {
      var front, last := h[..|h| - 1], h[|h| - 1];
      if front != [] {
        RoomBefore(t, front, r);
      }
      LocksFollowPolicy(t, front, r, u);
      RunKeepsWellFormed(t, front);
      FrozenAfterStep(Run(t, front), last, r, u);
    }
  }

  /** Up to and including the command that opens its last bucket, a whitelist holds what the
      policy allows. */
  lemma {:induction false} ListsFollowPolicy(t: Tables, h: seq<Message>, r: int32, u: uint32, text: CText)
    requires h != [] ==> |Run(t, h[..|h| - 1]).Listed(r)| < MAX_SIZE_ARRAY
    ensures (r, u, text) in PolicyOf(Run(t, h)).allowed <==> (r, u, text) in PolicyRun(PolicyOf(t), h).allowed
    decreases |h|
  {
    if h != [] {
      var front, last := h[..|h| - 1], h[|h| - 1];
      if front != [] {
        RoomBefore(t, front, r);
      }
      ListsFollowPolicy(t, front, r, u, text);
      AllowedAfterStep(Run(t, front), last, r, u, text);
    }
  }

  lemma RunFollowsPolicy(t: Tables, h: seq<Message>, rs: set<int32>, u: uint32)
    requires WellFormed(t) && Open(Run(t, h), rs)
    ensures Agree(PolicyOf(Run(t, h)), PolicyRun(PolicyOf(t), h), rs, u)
  {
    forall r | r in rs
      ensures Frozen(PolicyOf(Run(t, h)), r, u) <==> Frozen(PolicyRun(PolicyOf(t), h), r, u)
    {
      if h != [] {
        RoomBefore(t, h, r);
      }
      LocksFollowPolicy(t, h, r, u);
    }
    forall r, text: CText | r in rs
      ensures (r, u, text) in PolicyOf(Run(t, h)).allowed <==> (r, u, text) in PolicyRun(PolicyOf(t), h).allowed
    {
      if h != [] {
        RoomBefore(t, h, r);
      }
      ListsFollowPolicy(t, h, r, u, text);
    }
  }
}
