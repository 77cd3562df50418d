/** Whole runs of commands: what every later system call sees of them. */
module Runs {
  import opened CTypes
  import opened LockTables
  import opened Whitelists
  import opened Commands
  import opened Policies
  import opened Histories

  /// The policy read off the command history

  ghost predicate FrozenBy(h: seq<Message>, r: int32, u: uint32) {
    LastIsLock(UntilLocksFull(h, r), r, u)
  }

  ghost predicate PermittedBy(h: seq<Message>, r: int32, u: uint32, requested: CText) {
    WhitelistedEver(UntilListFull(h, r), r, u, requested)
  }

  ghost predicate BlockedBy(h: seq<Message>, r: int32, u: uint32, requested: CText) {
    FrozenBy(h, r, u) && !PermittedBy(h, r, u, requested)
  }

  /** The verdict on a call as the history of commands determines it, in every state. */
  ghost function JudgeBy(h: seq<Message>, u: uint32, call: Syscall): Judgement {
    match call
    case Execve(None) => Pass
    case Execve(Some(name)) => if BlockedBy(h, PROCESS, u, name) then Refuse else Pass
    case Connect(Inet(address)) => if BlockedBy(h, NETWORK, u, address) then Refuse else Pass
    case Connect(_) => Pass
    case Write(None) =>
      if !FrozenBy(h, FILE, u) then Pass else if PermittedBy(h, FILE, u, []) then Fault else Refuse
    case Write(Some(path)) => if BlockedBy(h, FILE, u, path) then Refuse else Pass
    case Openat(None) => Pass
    case Openat(Some(name)) =>
      if FrozenBy(h, SESSIONS, u) && name <= PASSWD_FILE then Refuse
      else if BlockedBy(h, FILE, u, name) then Refuse
      else Pass
  }

  /** From the loaded module on, in every state: the hook sees a uid as frozen exactly when
      the last command about it, among those received until the table was full, was a LOCK. */
  lemma {:induction false} FrozenInEveryState(h: seq<Message>, r: int32, u: uint32)
    ensures Frozen(PolicyOf(Run(EMPTY, h)), r, u) <==> FrozenBy(h, r, u)
  {
    var k := UntilLocksFull(h, r);
    EmptyIsWellFormed();
    LocksStopWhenFull(h, r);
    LocksFollowPolicy(EMPTY, k, r, u);
    PolicyFrozenByHistory(k, r, u);
  }

  /** In every state: a lookup succeeds exactly when a WHITELIST, among those received until
      the table was full, carried a string that starts with the requested one. */
  lemma {:induction false} PermittedInEveryState(h: seq<Message>, r: int32, u: uint32, requested: CText)
    ensures Permits(PolicyOf(Run(EMPTY, h)), r, u, requested) <==> PermittedBy(h, r, u, requested)
  {
    var k := UntilListFull(h, r);
    EmptyIsWellFormed();
    ListStopsWhenFull(h, r);
    forall text: CText
      ensures (r, u, text) in PolicyOf(Run(EMPTY, h)).allowed <==> (r, u, text) in PolicyRun(NOTHING, k).allowed
    {
      ListsFollowPolicy(EMPTY, k, r, u, text);
    }
    PolicyPermitsByHistory(k, r, u, requested);
    SamePermits(PolicyOf(Run(EMPTY, h)), PolicyRun(NOTHING, k), r, u, requested);
  }

  lemma {:induction false} BlockedInEveryState(h: seq<Message>, r: int32, u: uint32, requested: CText)
    ensures Frozen(PolicyOf(Run(EMPTY, h)), r, u) <==> FrozenBy(h, r, u)
    ensures Permits(PolicyOf(Run(EMPTY, h)), r, u, requested) <==> PermittedBy(h, r, u, requested)
  {
    FrozenInEveryState(h, r, u);
    PermittedInEveryState(h, r, u, requested);
  }

  /** While the table is not full: the last command about a uid wins. */
  lemma LastCommandWins(h: seq<Message>, r: int32, u: uint32)
    requires |Run(EMPTY, h).Locked(r)| < MAX_SIZE_ARRAY
    ensures AsSigned(u) in Run(EMPTY, h).Locked(r) <==> LastIsLock(h, r, u)
  {
    LocksStopWhenFull(h, r);
    FrozenInEveryState(h, r, u);
  }

  /** While the whitelist is not full: a lookup succeeds exactly when an earlier
      WHITELIST carried a string that starts with the requested one. */
  lemma LookupMeansWhitelisted(h: seq<Message>, r: int32, u: uint32, requested: CText)
    requires |Run(EMPTY, h).Listed(r)| < MAX_SIZE_ARRAY
    ensures Permits(PolicyOf(Run(EMPTY, h)), r, u, requested) <==> WhitelistedEver(h, r, u, requested)
  {
    ListStopsWhenFull(h, r);
    PermittedInEveryState(h, r, u, requested);
  }

  /** Acceptance is closed under prefixes, in every state. */
  lemma AcceptanceIsPrefixClosed(p: Policy, r: int32, u: uint32, s: CText, longer: CText)
    requires s <= longer && Permits(p, r, u, longer)
    ensures Permits(p, r, u, s)
  {
  }

  /** The verdict of every hook on every call of every user, in every state, is the one
      the command history determines. */
  lemma {:induction false} VerdictByHistory(h: seq<Message>, u: uint32, call: Syscall)
    ensures Judge(PolicyOf(Run(EMPTY, h)), u, call) == JudgeBy(h, u, call)
  {
    match call
    case Execve(None) =>
    case Execve(Some(name)) => BlockedInEveryState(h, PROCESS, u, name);
    case Connect(Inet(address)) => BlockedInEveryState(h, NETWORK, u, address);
    case Connect(_) =>
    case Write(path) => BlockedInEveryState(h, FILE, u, TextOf(path));
    case Openat(None) =>
    case Openat(Some(name)) =>
      FrozenInEveryState(h, SESSIONS, u);
      BlockedInEveryState(h, FILE, u, name);
  }

  /** While the consulted tables have room, that is the whole history. */
  lemma {:induction false} NothingCutShort(h: seq<Message>, rs: set<int32>)
    requires Open(Run(EMPTY, h), rs)
    ensures forall r | r in rs :: UntilLocksFull(h, r) == h && UntilListFull(h, r) == h
  {
    forall r | r in rs
      ensures UntilLocksFull(h, r) == h && UntilListFull(h, r) == h
    {
      LocksStopWhenFull(h, r);
      ListStopsWhenFull(h, r);
    }
  }

  lemma FewUidsKeepTablesOpen(h: seq<Message>, rs: set<int32>)
    requires forall r | r in rs ::
               |LockedUids(h, r)| < MAX_SIZE_ARRAY && |WhitelistedUids(h, r)| < MAX_SIZE_ARRAY
    ensures Open(Run(EMPTY, h), rs)
  {
    forall r | r in rs
      ensures |Run(EMPTY, h).Locked(r)| < MAX_SIZE_ARRAY && |Run(EMPTY, h).Listed(r)| < MAX_SIZE_ARRAY
    {
      FewLockedUidsKeepOpen(h, r);
      FewWhitelistedUidsKeepOpen(h, r);
    }
  }

  /** Over any run whose LOCK commands for the resource name at most 1023 distinct uids, the
      last command about a uid wins. */
  lemma LastCommandWinsForFewUids(h: seq<Message>, r: int32, u: uint32)
    requires |LockedUids(h, r)| < MAX_SIZE_ARRAY
    ensures AsSigned(u) in Run(EMPTY, h).Locked(r) <==> LastIsLock(h, r, u)
  {
    FewLockedUidsKeepOpen(h, r);
    LastCommandWins(h, r, u);
  }

  /** Over any run whose WHITELIST commands for the resource name at most 1023 distinct uids,
      a lookup means that a string with that prefix was whitelisted. */
  lemma LookupForFewUids(h: seq<Message>, r: int32, u: uint32, requested: CText)
    requires |WhitelistedUids(h, r)| < MAX_SIZE_ARRAY
    ensures Permits(PolicyOf(Run(EMPTY, h)), r, u, requested) <==> WhitelistedEver(h, r, u, requested)
  {
    FewWhitelistedUidsKeepOpen(h, r);
    LookupMeansWhitelisted(h, r, u, requested);
  }

  /** A string longer than every string of every bucket. */
  function Longer(es: seq<Entry<CText>>): (text: CText)
    ensures forall i | 0 <= i < |es| :: text !in es[i].items
    ensures forall i, k | 0 <= i < |es| && 0 <= k < |es[i].items| :: |es[i].items[k]| < |text|
  {
    if es == [] then [1]
    else
      var front, last := Longer(es[..|es| - 1]), LongerThanAll(es[|es| - 1].items);
      front + last
  }

  function LongerThanAll(texts: seq<CText>): (text: CText)
    ensures forall k | 0 <= k < |texts| :: |texts[k]| < |text|
  {
    if texts == [] then [1]
    else LongerThanAll(texts[..|texts| - 1]) + texts[|texts| - 1] + [1]
  }

  lemma WholePolicy(h: seq<Message>)
    requires Open(Run(EMPTY, h), RESOURCES)
    ensures PolicyOf(Run(EMPTY, h)) == PolicyRun(NOTHING, h)
  {
    EmptyIsWellFormed();
    var now, want := PolicyOf(Run(EMPTY, h)), PolicyRun(NOTHING, h);
    forall p: (int32, uint32)
      ensures p in now.frozen <==> p in want.frozen
    {
      if h != [] {
        RoomBefore(EMPTY, h, p.0);
      }
      LocksFollowPolicy(EMPTY, h, p.0, p.1);
    }
    forall p: (int32, uint32, CText)
      ensures p in now.allowed <==> p in want.allowed
    {
      if h != [] {
        RoomBefore(EMPTY, h, p.0);
      }
      ListsFollowPolicy(EMPTY, h, p.0, p.1, p.2);
    }
  }

  /** A full table always has a next command that it gets wrong. */
  lemma SomeUnfaithful(t: Tables, p: Policy) returns (m: Message)
    requires WellFormed(t) && !Open(t, RESOURCES)
    ensures PolicyOf(Step(t, m)) != PolicyStep(p, m)
  {
    if PolicyOf(t) != p {
      m := Message(NetlinkCmd(0, 0, 0), []);
      assert Step(t, m) == t;
    } else if r :| r in RESOURCES && |t.Locked(r)| >= MAX_SIZE_ARRAY {
      var x := t.Locked(r)[0];
      SignedUnsignedInverse(x, 0);
      m := Message(NetlinkCmd(r, AsUnsigned(x), UNLOCK), []);
      assert AsSigned(m.cmd.uid) in t.Locked(r);
      StepFollowsPolicy(t, m);
    } else {
      var r: int32 :| r in RESOURCES && |t.Listed(r)| >= MAX_SIZE_ARRAY;
      m := Message(NetlinkCmd(r, 0, WHITELIST), Longer(t.Listed(r)));
      StepFollowsPolicy(t, m);
    }
  }

  ghost predicate FaithfulAfter(h: seq<Message>, m: Message) {
    PolicyOf(Run(EMPTY, h + [m])) == PolicyRun(NOTHING, h + [m])
  }

  lemma FaithfulOneMore(h: seq<Message>, m: Message)
    ensures FaithfulAfter(h, m) <==> PolicyOf(Step(Run(EMPTY, h), m)) == PolicyStep(PolicyRun(NOTHING, h), m)
  {
    assert (h + [m])[..|h + [m]| - 1] == h;
  }

  lemma OpenIsFaithful(h: seq<Message>, m: Message)
    requires Open(Run(EMPTY, h), RESOURCES)
    ensures FaithfulAfter(h, m)
  {
    EmptyIsWellFormed();
    RunKeepsWellFormed(EMPTY, h);
    WholePolicy(h);
    StepFollowsPolicy(Run(EMPTY, h), m);
    FaithfulOneMore(h, m);
  }

  /** Exactly how far the unbounded promise reaches: after a run, every possible next command
      still leaves the tables meaning what the whole history says if and only if no
      table is full. */
  lemma FaithfulIffOpen(h: seq<Message>)
    ensures (forall m: Message :: FaithfulAfter(h, m)) <==> Open(Run(EMPTY, h), RESOURCES)
  {
    if Open(Run(EMPTY, h), RESOURCES) {
      forall m: Message
        ensures FaithfulAfter(h, m)
      {
        OpenIsFaithful(h, m);
      }
    } else {
      EmptyIsWellFormed();
      RunKeepsWellFormed(EMPTY, h);
      var m := SomeUnfaithful(Run(EMPTY, h), PolicyRun(NOTHING, h));
      FaithfulOneMore(h, m);
    }
  }

  /// What the documentation suggests

  ghost predicate WhitelistedExactly(h: seq<Message>, r: int32, u: uint32, name: CText) {
    HasWhitelist(r) && Message(NetlinkCmd(r, u, WHITELIST), name) in h
  }

  /** The name itself was never whitelisted, but stops short inside one that was. */
  ghost predicate StopsShort(h: seq<Message>, r: int32, u: uint32, name: CText) {
    && !WhitelistedExactly(h, r, u, name)
    && HasWhitelist(r)
    && exists i | 0 <= i < |h| :: h[i].cmd == NetlinkCmd(r, u, WHITELIST) && name < h[i].text
  }

  ghost predicate ForbiddenBy(h: seq<Message>, r: int32, u: uint32, name: CText) {
    LastIsLock(h, r, u) && !WhitelistedExactly(h, r, u, name)
  }

  /** The verdict if whitelisting a name admitted that name only, a descriptor without a path
      counted as not whitelisted, and a session freeze protected "/etc/passwd" only. */
  ghost function Documented(h: seq<Message>, u: uint32, call: Syscall): Judgement {
    match call
    case Execve(None) => Pass
    case Execve(Some(name)) => if ForbiddenBy(h, PROCESS, u, name) then Refuse else Pass
    case Connect(Inet(address)) => if ForbiddenBy(h, NETWORK, u, address) then Refuse else Pass
    case Connect(_) => Pass
    case Write(None) => if LastIsLock(h, FILE, u) then Refuse else Pass
    case Write(Some(path)) => if ForbiddenBy(h, FILE, u, path) then Refuse else Pass
    case Openat(None) => Pass
    case Openat(Some(name)) =>
      if LastIsLock(h, SESSIONS, u) && name == PASSWD_FILE then Refuse
      else if ForbiddenBy(h, FILE, u, name) then Refuse
      else Pass
  }

  /** When the hooks depart from that: a frozen user's name that stops short inside a
      whitelisted one, a write without a path by a user with whitelisted files, and under a session
      freeze a proper prefix of "/etc/passwd" that nothing else forbids. */
  ghost predicate Departs(h: seq<Message>, u: uint32, call: Syscall) {
    match call
    case Execve(None) => false
    case Execve(Some(name)) => LastIsLock(h, PROCESS, u) && StopsShort(h, PROCESS, u, name)
    case Connect(Inet(address)) => LastIsLock(h, NETWORK, u) && StopsShort(h, NETWORK, u, address)
    case Connect(_) => false
    case Write(None) => LastIsLock(h, FILE, u) && WhitelistedEver(h, FILE, u, [])
    case Write(Some(path)) => LastIsLock(h, FILE, u) && StopsShort(h, FILE, u, path)
    case Openat(None) => false
    case Openat(Some(name)) =>
      if LastIsLock(h, SESSIONS, u) && name < PASSWD_FILE then !ForbiddenBy(h, FILE, u, name)
      else !(LastIsLock(h, SESSIONS, u) && name == PASSWD_FILE) &&
           LastIsLock(h, FILE, u) && StopsShort(h, FILE, u, name)
  }

  lemma WhitelistedOrShort(h: seq<Message>, r: int32, u: uint32, name: CText)
    ensures WhitelistedEver(h, r, u, name) <==> WhitelistedExactly(h, r, u, name) || StopsShort(h, r, u, name)
  {
    if WhitelistedExactly(h, r, u, name) {
      var i :| 0 <= i < |h| && h[i] == Message(NetlinkCmd(r, u, WHITELIST), name);
      assert name <= h[i].text;
    } else if WhitelistedEver(h, r, u, name) {
      var i :| 0 <= i < |h| && h[i].cmd == NetlinkCmd(r, u, WHITELIST) && name <= h[i].text;
      assert h[i] == Message(NetlinkCmd(r, u, WHITELIST), h[i].text) && h[i] in h;
      PrefixIsProper(name, h[i].text);
    }
  }

  /** The hooks do what the documentation suggests, on every call after every history that
      has filled no consulted table, if and only if the call is not one of those. */
  lemma {:induction false} VerdictIsDocumentedIff(h: seq<Message>, u: uint32, call: Syscall)
    requires Open(Run(EMPTY, h), Consults(call))
    ensures Judge(PolicyOf(Run(EMPTY, h)), u, call) == Documented(h, u, call) <==> !Departs(h, u, call)
  {
    NothingCutShort(h, Consults(call));
    VerdictByHistory(h, u, call);
    match call
    case Execve(None) =>
    case Execve(Some(name)) => WhitelistedOrShort(h, PROCESS, u, name);
    case Connect(Inet(address)) => WhitelistedOrShort(h, NETWORK, u, address);
    case Connect(_) =>
    case Write(None) =>
    case Write(Some(path)) => WhitelistedOrShort(h, FILE, u, path);
    case Openat(None) =>
    case Openat(Some(name)) =>
      WhitelistedOrShort(h, FILE, u, name);
      if name <= PASSWD_FILE {
        PrefixIsProper(name, PASSWD_FILE);
      }
  }

  /** "1.1.1.1" and "1.1.1.10" */
  const SHORT_ADDRESS: CText := [49, 46, 49, 46, 49, 46, 49]
  const LONG_ADDRESS: CText := [49, 46, 49, 46, 49, 46, 49, 48]

  lemma OneUserKeepsOpen(h: seq<Message>, u: uint32)
    requires forall i | 0 <= i < |h| :: h[i].cmd.uid == u
    ensures Open(Run(EMPTY, h), RESOURCES)
  {
    forall r: int32
      ensures |LockedUids(h, r)| <= 1 && |WhitelistedUids(h, r)| <= 1
    {
      SubsetOfOne(LockedUids(h, r), u);
      SubsetOfOne(WhitelistedUids(h, r), u);
    }
    FewUidsKeepTablesOpen(h, RESOURCES);
  }

  /** An input that departs: the shorter address connects although only the longer one was
      whitelisted. */
  lemma ShorterAddressConnects(u: uint32, h: seq<Message>)
    requires h == [Message(NetlinkCmd(NETWORK, u, WHITELIST), LONG_ADDRESS), Message(NetlinkCmd(NETWORK, u, LOCK), [])]
    ensures Judge(PolicyOf(Run(EMPTY, h)), u, Connect(Inet(SHORT_ADDRESS))) == Pass
    ensures Documented(h, u, Connect(Inet(SHORT_ADDRESS))) == Refuse
  {
    OneUserKeepsOpen(h, u);
    assert LastIsLock(h, NETWORK, u) by {
      assert h[1].cmd == NetlinkCmd(NETWORK, u, LOCK);
    }
    LookupMeansWhitelisted(h, NETWORK, u, SHORT_ADDRESS);
    assert WhitelistedEver(h, NETWORK, u, SHORT_ADDRESS) by {
      assert h[0].cmd == NetlinkCmd(NETWORK, u, WHITELIST) && SHORT_ADDRESS <= h[0].text;
    }
  }

  /** Another: "/" is refused under a session freeze. */
  lemma {:induction false} RootIsRefused(u: uint32, h: seq<Message>)
    requires h == [Message(NetlinkCmd(SESSIONS, u, LOCK), [])]
    ensures Judge(PolicyOf(Run(EMPTY, h)), u, Openat(Some([47]))) == Refuse
    ensures Documented(h, u, Openat(Some([47]))) == Pass
  {
    OneUserKeepsOpen(h, u);
    assert LastIsLock(h, SESSIONS, u) by {
      assert h[0].cmd == NetlinkCmd(SESSIONS, u, LOCK);
    }
    LastCommandWins(h, SESSIONS, u);
    assert [47] <= PASSWD_FILE;
  }

  /** A third: a write to a descriptor without a path faults once the user has a whitelisted
      file. */
  lemma {:induction false} PathlessWriteFaults(u: uint32, path: CText, h: seq<Message>)
    requires h == [Message(NetlinkCmd(FILE, u, WHITELIST), path), Message(NetlinkCmd(FILE, u, LOCK), [])]
    ensures Judge(PolicyOf(Run(EMPTY, h)), u, Write(None)) == Fault
    ensures Documented(h, u, Write(None)) == Refuse
  {
    OneUserKeepsOpen(h, u);
    assert LastIsLock(h, FILE, u) by {
      assert h[1].cmd == NetlinkCmd(FILE, u, LOCK);
    }
    LastCommandWins(h, FILE, u);
    LookupMeansWhitelisted(h, FILE, u, []);
    assert WhitelistedEver(h, FILE, u, []) by {
      assert h[0].cmd == NetlinkCmd(FILE, u, WHITELIST) && [] <= h[0].text;
    }
  }

  /** `path` is all that was ever whitelisted for the user. */
  ghost predicate OnlyWhitelisted(h: seq<Message>, r: int32, u: uint32, path: CText) {
    && WhitelistedExactly(h, r, u, path)
    && forall m | m in h && m.cmd == NetlinkCmd(r, u, WHITELIST) :: m.text == path
  }

  lemma OneWhitelisted(h: seq<Message>, r: int32, u: uint32, path: CText, requested: CText)
    requires OnlyWhitelisted(h, r, u, path)
    ensures WhitelistedEver(h, r, u, requested) <==> requested <= path
  {
    var i :| 0 <= i < |h| && h[i] == Message(NetlinkCmd(r, u, WHITELIST), path);
    assert requested <= path ==> requested <= h[i].text;
    if WhitelistedEver(h, r, u, requested) {
      var k :| 0 <= k < |h| && h[k].cmd == NetlinkCmd(r, u, WHITELIST) && requested <= h[k].text;
      assert h[k] in h;
    }
  }

  /** What a single whitelisted file admits after any history: itself and its prefixes, and
      no other path, in particular nothing below it. */
  lemma WhitelistedFileAdmitsItsPrefixes(h: seq<Message>, u: uint32, path: CText, requested: CText)
    requires Open(Run(EMPTY, h), {FILE}) && LastIsLock(h, FILE, u) && OnlyWhitelisted(h, FILE, u, path)
    ensures Judge(PolicyOf(Run(EMPTY, h)), u, Write(Some(requested))) == if requested <= path then Pass else Refuse
  {
    NothingCutShort(h, {FILE});
    VerdictByHistory(h, u, Write(Some(requested)));
    OneWhitelisted(h, FILE, u, path, requested);
  }

  /// Users and resources do not interfere

  ghost predicate Concerns(m: Message, rs: set<int32>, u: uint32) {
    m.cmd.uid == u && m.cmd.resource in rs
  }

  lemma UnconcernedStep(t: Tables, m: Message, rs: set<int32>, u: uint32)
    requires WellFormed(t) && !Concerns(m, rs, u)
    ensures Agree(PolicyOf(Step(t, m)), PolicyOf(t), rs, u)
  {
    forall r | r in rs
      ensures Frozen(PolicyOf(Step(t, m)), r, u) <==> Frozen(PolicyOf(t), r, u)
    {
      if |t.Locked(r)| < MAX_SIZE_ARRAY {
        FrozenAfterStep(t, m, r, u);
      }
    }
    forall r, text: CText | r in rs
      ensures (r, u, text) in PolicyOf(Step(t, m)).allowed <==> (r, u, text) in PolicyOf(t).allowed
    {
      if |t.Listed(r)| < MAX_SIZE_ARRAY {
        AllowedAfterStep(t, m, r, u, text);
      }
    }
  }

  /** Isolation, whether or not tables fill up: a run in which no command names both
      the caller and a resource the hook consults leaves the verdict as it was. */
  lemma {:induction false} Isolation(t: Tables, h: seq<Message>, u: uint32, call: Syscall)
    requires WellFormed(t) && forall i | 0 <= i < |h| :: !Concerns(h[i], Consults(call), u)
    ensures Judge(PolicyOf(Run(t, h)), u, call) == Judge(PolicyOf(t), u, call)
    decreases |h|
  {
    if h != [] {
      var front := h[..|h| - 1];
      Isolation(t, front, u, call);
      RunKeepsWellFormed(t, front);
      UnconcernedStep(Run(t, front), h[|h| - 1], Consults(call), u);
      VerdictDependsOnlyOn(PolicyOf(Run(t, h)), PolicyOf(Run(t, front)), u, call);
    }
  }

  /** The commands of `h` about user `u` and the resources `rs`. */
  ghost function Purged(h: seq<Message>, rs: set<int32>, u: uint32): (k: seq<Message>)
    ensures forall i | 0 <= i < |k| :: Concerns(k[i], rs, u)
  {
    if h == [] then []
    else
      var front, last := Purged(h[..|h| - 1], rs, u), h[|h| - 1];
      if Concerns(last, rs, u) then front + [last] else front
  }

  lemma AgreeingStep(p: Policy, q: Policy, m: Message, rs: set<int32>, u: uint32)
    requires Agree(p, q, rs, u)
    ensures Agree(PolicyStep(p, m), if Concerns(m, rs, u) then PolicyStep(q, m) else q, rs, u)
  {
  }

  lemma {:induction false} PurgedPolicy(p: Policy, h: seq<Message>, rs: set<int32>, u: uint32)
    ensures Agree(PolicyRun(p, h), PolicyRun(p, Purged(h, rs, u)), rs, u)
    decreases |h|
  {
    if h != [] {
      var front, last := h[..|h| - 1], h[|h| - 1];
      var k := Purged(front, rs, u);
      PurgedPolicy(p, front, rs, u);
      AgreeingStep(PolicyRun(p, front), PolicyRun(p, k), last, rs, u);
      assert (k + [last])[..|k|] == k;
    }
  }

  /** Noninterference: every other user's commands, and those for other resources, can be
      struck from the history without changing the verdict. */
  lemma Noninterference(h: seq<Message>, u: uint32, call: Syscall)
    requires Open(Run(EMPTY, h), Consults(call))
    ensures Judge(PolicyOf(Run(EMPTY, h)), u, call) ==
            Judge(PolicyOf(Run(EMPTY, Purged(h, Consults(call), u))), u, call)
  {
    EmptyIsWellFormed();
    var rs := Consults(call);
    var k := Purged(h, rs, u);
    forall r | r in rs
      ensures |LockedUids(k, r)| < MAX_SIZE_ARRAY && |WhitelistedUids(k, r)| < MAX_SIZE_ARRAY
    {
      SubsetOfOne(LockedUids(k, r), u);
      SubsetOfOne(WhitelistedUids(k, r), u);
    }
    FewUidsKeepTablesOpen(k, rs);
    RunFollowsPolicy(EMPTY, h, rs, u);
    RunFollowsPolicy(EMPTY, k, rs, u);
    PurgedPolicy(NOTHING, h, rs, u);
    VerdictDependsOnlyOn(PolicyOf(Run(EMPTY, h)), PolicyOf(Run(EMPTY, k)), u, call);
  }

  lemma SubsetOfOne(s: set<uint32>, u: uint32)
    requires s <= {u}
    ensures |s| <= 1
  {
    assert s == {} || s == {u};
  }

  /** Once a lookup succeeds it keeps succeeding, whatever commands follow and
      whether or not tables fill up. */
  lemma {:induction false} WhitelistingIsMonotone(t: Tables, h: seq<Message>, r: int32, u: uint32, requested: CText)
    requires Permits(PolicyOf(t), r, u, requested)
    ensures Permits(PolicyOf(Run(t, h)), r, u, requested)
    decreases |h|
  {
    if h != [] {
      var front, last := h[..|h| - 1], h[|h| - 1];
      WhitelistingIsMonotone(t, front, r, u, requested);
      var before := Run(t, front);
      var text: CText :| (r, u, text) in PolicyOf(before).allowed && requested <= text;
      if |before.Listed(r)| < MAX_SIZE_ARRAY {
        AllowedAfterStep(before, last, r, u, text);
      }
      assert (r, u, text) in PolicyOf(Run(t, h)).allowed;
    }
  }
}
