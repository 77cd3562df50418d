/** Whether the order of two commands is ever told, in every state. */
module Orders {
  import opened CTypes
  import opened LockTables
  import opened Whitelists
  import opened Commands
  import opened Policies
  import opened Observations
  import opened Swaps

  /** The user can open no file, and no later command changes that. */
  ghost predicate Barred(t: Tables, u: uint32) {
    && |t.Locked(FILE)| >= MAX_SIZE_ARRAY && AsSigned(u) in t.Locked(FILE)
    && |t.Listed(FILE)| >= MAX_SIZE_ARRAY && !HasBucket(t.Listed(FILE), u)
  }

  /** The locks clash, and not over the session freeze of two barred users. */
  ghost predicate LocksTell(t: Tables, a: Message, b: Message) {
    && LocksClash(t, a, b)
    && (a.cmd.resource == SESSIONS && a.cmd.action == LOCK && b.cmd.action == LOCK ==>
          !(Barred(t, a.cmd.uid) && Barred(t, b.cmd.uid)))
  }

  /** A command for the user is shut out when the other comes first and opens the last bucket. */
  predicate ShutOut(es: seq<Entry<CText>>, a: Message, b: Message, u: uint32) {
    (u == a.cmd.uid && !HasBucket(es, b.cmd.uid)) || (u == b.cmd.uid && !HasBucket(es, a.cmd.uid))
  }

  /** The lookups clash, and so for a user who is frozen or can still be. */
  ghost predicate LookupsTell(t: Tables, a: Message, b: Message) {
    var r := a.cmd.resource;
    && BothWhitelist(a, b) && LookupsClash(t.Listed(r), a, b)
    && exists u | u in {a.cmd.uid, b.cmd.uid} :: ShutOut(t.Listed(r), a, b, u) && CanBeFrozen(t, r, u)
  }

  /// Told orders

  lemma AlsoLater(t: Tables, t': Tables, m: Message)
    requires Distinguishable(Step(t, m), Step(t', m))
    ensures Distinguishable(t, t')
  {
    var k: seq<Message>, u: uint32, call: Syscall :| Tells(Step(t, m), Step(t', m), k, u, call);
    RunAppend(t, [m], k);
    RunAppend(t', [m], k);
    RunOne(t, m);
    RunOne(t', m);
    assert Tells(t, t', [m] + k, u, call);
  }

  /** 0, 1, ..., n */
  lemma {:induction false} UpTo(n: nat) returns (numbers: set<uint32>)
    requires n < TWO_TO_THE_32
    ensures |numbers| == n + 1 && forall u | u in numbers :: u <= n
  {
    if n == 0 {
      numbers := {0};
    } else {
      numbers := UpTo(n - 1);
      numbers := numbers + {n};
    }
  }

  lemma FreshUid(used: set<uint32>) returns (u: uint32)
    requires |used| < 0x1_0000
    ensures u !in used
  {
    var numbers := UpTo(|used|);
    if numbers <= used {
      SubsetCount(numbers, used);
    }
    u :| u in numbers && u !in used;
  }

  /** A user who is in none of the tables concerned. */
  lemma Newcomer(t: Tables, t': Tables) returns (u: uint32)
    requires WellFormed(t) && WellFormed(t')
    ensures AsSigned(u) !in t.Locked(SESSIONS) && AsSigned(u) !in t'.Locked(SESSIONS)
    ensures AsSigned(u) !in t.Locked(FILE) && AsSigned(u) !in t'.Locked(FILE)
  {
    UidCount(t.Locked(SESSIONS));
    UidCount(t'.Locked(SESSIONS));
    UidCount(t.Locked(FILE));
    UidCount(t'.Locked(FILE));
    var used := UidsOf(t.Locked(SESSIONS)) + UidsOf(t'.Locked(SESSIONS)) + UidsOf(t.Locked(FILE)) +
                UidsOf(t'.Locked(FILE));
    u := FreshUid(used);
    InUidsOf(t.Locked(SESSIONS), u);
    InUidsOf(t'.Locked(SESSIONS), u);
    InUidsOf(t.Locked(FILE), u);
    InUidsOf(t'.Locked(FILE), u);
  }

  lemma LockNewcomer(t: Tables, m: Message, u: uint32)
    requires WellFormed(t) && m.cmd == NetlinkCmd(SESSIONS, u, LOCK) && AsSigned(u) !in t.Locked(SESSIONS)
    ensures WellFormed(Step(t, m)) && Step(t, m).Locked(FILE) == t.Locked(FILE)
    ensures |Step(t, m).Locked(SESSIONS)| ==
            if |t.Locked(SESSIONS)| < MAX_SIZE_ARRAY then |t.Locked(SESSIONS)| + 1 else MAX_SIZE_ARRAY
    ensures AsSigned(u) in Step(t, m).Locked(SESSIONS) <==> |t.Locked(SESSIONS)| < MAX_SIZE_ARRAY
  {
    StepKeepsWellFormed(t, m);
  }

  /** Session tables of different sizes are told by locking newcomers until only one is full. */
  lemma {:induction false} FillingTells(t: Tables, t': Tables)
    requires WellFormed(t) && WellFormed(t')
    requires |t.Locked(SESSIONS)| != |t'.Locked(SESSIONS)|
    ensures Distinguishable(t, t')
    decreases MAX_SIZE_ARRAY - |t.Locked(SESSIONS)| + MAX_SIZE_ARRAY - |t'.Locked(SESSIONS)|
  {
    var u := Newcomer(t, t');
    var m := Message(NetlinkCmd(SESSIONS, u, LOCK), []);
    LockNewcomer(t, m, u);
    LockNewcomer(t', m, u);
    if |t.Locked(SESSIONS)| == MAX_SIZE_ARRAY || |t'.Locked(SESSIONS)| == MAX_SIZE_ARRAY {
      RunOne(t, m);
      RunOne(t', m);
      SessionShows(t, t', [m], u, PASSWD_FILE);
    } else {
      FillingTells(Step(t, m), Step(t', m));
      AlsoLater(t, t', m);
    }
  }

  /** A session freeze that differs is told by a user who is not barred. */
  lemma {:induction false} UnbarredTells(t: Tables, t': Tables, u: uint32)
    requires WellFormed(t) && WellFormed(t') && !Barred(t, u)
    requires t.Locked(FILE) == t'.Locked(FILE) && t.Listed(FILE) == t'.Listed(FILE)
    requires !(Frozen(PolicyOf(t), SESSIONS, u) <==> Frozen(PolicyOf(t'), SESSIONS, u))
    ensures Distinguishable(t, t')
  {
    if |t.Locked(FILE)| < MAX_SIZE_ARRAY {
      SessionAfterThaw(t, u);
      SessionAfterThaw(t', u);
      SessionShows(t, t', [Message(NetlinkCmd(FILE, u, UNLOCK), [])], u, PASSWD_FILE);
    } else if AsSigned(u) !in t.Locked(FILE) {
      SessionShows(t, t', [], u, PASSWD_FILE);
    } else if |t.Listed(FILE)| < MAX_SIZE_ARRAY {
      SessionAfterWhitelist(t, u);
      SessionAfterWhitelist(t', u);
      SessionShows(t, t', [Message(NetlinkCmd(FILE, u, WHITELIST), PASSWD_FILE)], u, PASSWD_FILE);
    } else {
      BucketAccepts(t, u);
      BucketAccepts(t', u);
      SessionShows(t, t', [], u, []);
    }
  }

  lemma SessionAfterWhitelist(t: Tables, u: uint32)
    requires |t.Listed(FILE)| < MAX_SIZE_ARRAY
    ensures var after := PolicyOf(Run(t, [Message(NetlinkCmd(FILE, u, WHITELIST), PASSWD_FILE)]));
            && Permits(after, FILE, u, PASSWD_FILE)
            && (Frozen(after, SESSIONS, u) <==> Frozen(PolicyOf(t), SESSIONS, u))
  {
    var m := Message(NetlinkCmd(FILE, u, WHITELIST), PASSWD_FILE);
    RunOne(t, m);
    AllowedAfterStep(t, m, FILE, u, PASSWD_FILE);
    assert Step(t, m).Locked(SESSIONS) == t.Locked(SESSIONS);
  }

  lemma BucketAccepts(t: Tables, u: uint32)
    requires WellFormed(t) && HasBucket(t.Listed(FILE), u)
    ensures Permits(PolicyOf(t), FILE, u, [])
  {
    assert u in BucketUids(t.Listed(FILE));
    BucketUidsAreAccepted(t.Listed(FILE), u);
    PermitsIsAccepts(t, FILE, u, []);
  }

  /** What a clash leaves behind in a uid table: full tables, each with one of two newcomers,
      or tables of different sizes. */
  lemma ClashInSize(s: seq<int32>, a: NetlinkCmd, b: NetlinkCmd)
    requires Distinct(s) && |s| <= MAX_SIZE_ARRAY && a.resource == b.resource && ClashInTable(s, a, b)
    requires HasLockTable(a.resource)
    ensures var r := a.resource;
            var sab, sba := NextLocked(NextLocked(s, r, a), r, b), NextLocked(NextLocked(s, r, b), r, a);
            if a.action == LOCK && b.action == LOCK then
              && |sab| == |sba| == MAX_SIZE_ARRAY
              && AsSigned(a.uid) in sab && AsSigned(a.uid) !in sba
              && AsSigned(b.uid) in sba && AsSigned(b.uid) !in sab
              && forall x: int32 | x != AsSigned(a.uid) && x != AsSigned(b.uid) :: x in sab <==> x in sba
            else |sab| != |sba|
  {
    var r := a.resource;
    var sa, sb := NextLocked(s, r, a), NextLocked(s, r, b);
    OneCommand(s, r, a);
    OneCommand(s, r, b);
    OneCommand(sa, r, b);
    OneCommand(sb, r, a);
    SignedUnsignedInverse(AsSigned(a.uid), b.uid);
  }

  lemma LocksTellDo(t: Tables, a: Message, b: Message)
    requires WellFormed(t) && LocksTell(t, a, b)
    ensures Distinguishable(Step(Step(t, a), b), Step(Step(t, b), a))
  {
    var r := a.cmd.resource;
    var ab, ba := Step(Step(t, a), b), Step(Step(t, b), a);
    WellFormedTwo(t, a, b);
    WellFormedTwo(t, b, a);
    if r != SESSIONS {
      ResourceSwapIff(t, a, b, r);
      FrozenIsMembership(ab, ba, r);
      var u: uint32 :| !(Frozen(PolicyOf(ab), r, u) <==> Frozen(PolicyOf(ba), r, u));
      FrozenShows(ab, ba, r, u);
    } else {
      SessionsTellDo(t, a, b);
    }
  }

  lemma SessionsTellDo(t: Tables, a: Message, b: Message)
    requires WellFormed(t) && LocksTell(t, a, b) && a.cmd.resource == SESSIONS
    ensures Distinguishable(Step(Step(t, a), b), Step(Step(t, b), a))
  {
    var ab, ba := Step(Step(t, a), b), Step(Step(t, b), a);
    WellFormedTwo(t, a, b);
    WellFormedTwo(t, b, a);
    ClashInSize(t.Locked(SESSIONS), a.cmd, b.cmd);
    assert ab.Locked(SESSIONS) == NextLocked(NextLocked(t.Locked(SESSIONS), SESSIONS, a.cmd), SESSIONS, b.cmd);
    assert ba.Locked(SESSIONS) == NextLocked(NextLocked(t.Locked(SESSIONS), SESSIONS, b.cmd), SESSIONS, a.cmd);
    if a.cmd.action == LOCK && b.cmd.action == LOCK {
      assert ab.Locked(FILE) == ba.Locked(FILE) == t.Locked(FILE);
      assert ab.Listed(FILE) == ba.Listed(FILE) == t.Listed(FILE);
      UnbarredTells(ab, ba, if Barred(t, a.cmd.uid) then b.cmd.uid else a.cmd.uid);
    } else {
      FillingTells(ab, ba);
    }
  }

  ghost predicate DifferFor(es: seq<Entry<CText>>, es': seq<Entry<CText>>, u: uint32) {
    exists s: CText :: !(Accepts(es, u, s) <==> Accepts(es', u, s))
  }

  /** Which users' lookups differ after a clash: those whose string the other command shuts
      out. */
  lemma ClashInLookups(es: seq<Entry<CText>>, a: Message, b: Message, u: uint32)
    requires LookupsClash(es, a, b)
    ensures var eab := Store(Store(es, a.cmd.uid, a.text), b.cmd.uid, b.text);
            var eba := Store(Store(es, b.cmd.uid, b.text), a.cmd.uid, a.text);
            |eab| == |eba| == MAX_SIZE_ARRAY && (DifferFor(eab, eba, u) <==> ShutOut(es, a, b, u))
  {
    var ea, eb := Store(es, a.cmd.uid, a.text), Store(es, b.cmd.uid, b.text);
    var eab, eba := Store(ea, b.cmd.uid, b.text), Store(eb, a.cmd.uid, a.text);
    OneString(es, a.cmd.uid, a.text);
    OneString(es, b.cmd.uid, b.text);
    OneString(ea, b.cmd.uid, b.text);
    OneString(eb, a.cmd.uid, a.text);
    StoreKeepsHolders(es, a.cmd.uid, a.text, b.cmd.uid);
    StoreKeepsHolders(es, b.cmd.uid, b.text, a.cmd.uid);
    forall s: CText
      ensures Accepts(eab, u, s) <==> Accepts(es, u, s) || (u == a.cmd.uid && s <= a.text) ||
                                      (|ea| < MAX_SIZE_ARRAY && u == b.cmd.uid && s <= b.text)
      ensures Accepts(eba, u, s) <==> Accepts(es, u, s) || (u == b.cmd.uid && s <= b.text) ||
                                      (|eb| < MAX_SIZE_ARRAY && u == a.cmd.uid && s <= a.text)
    {
      AcceptsAfterTwo(es, a, b, u, s);
      AcceptsAfterTwo(es, b, a, u, s);
    }
    assert a.text <= b.text && b.text <= a.text ==> a.text == b.text;
    assert Accepts(eab, u, a.text) || !Accepts(eab, u, a.text);
    assert Accepts(eab, u, b.text) || !Accepts(eab, u, b.text);
  }

  lemma StoreKeepsHolders(es: seq<Entry<CText>>, uid: uint32, item: CText, u: uint32)
    requires |es| < MAX_SIZE_ARRAY
    ensures HasBucket(Store(es, uid, item), u) <==> HasBucket(es, u) || u == uid
  {
    var after := Store(es, uid, item);
    StoreKeepsBuckets(es, uid, item);
    assert IndexOf(es, u) < |es| ==> after[IndexOf(es, u)].uid == u;
    assert after[IndexOf(es, uid)].uid == uid;
    assert IndexOf(after, u) < |after| ==> after[IndexOf(after, u)].uid == u;
  }

  lemma LookupsTellDo(t: Tables, a: Message, b: Message)
    requires WellFormed(t) && LookupsTell(t, a, b)
    ensures Distinguishable(Step(Step(t, a), b), Step(Step(t, b), a))
  {
    var r := a.cmd.resource;
    var ab, ba := Step(Step(t, a), b), Step(Step(t, b), a);
    var u :| u in {a.cmd.uid, b.cmd.uid} && ShutOut(t.Listed(r), a, b, u) && CanBeFrozen(t, r, u);
    ClashInLookups(t.Listed(r), a, b, u);
    assert ab.Listed(r) == Store(Store(t.Listed(r), a.cmd.uid, a.text), b.cmd.uid, b.text);
    assert ba.Listed(r) == Store(Store(t.Listed(r), b.cmd.uid, b.text), a.cmd.uid, a.text);
    assert DifferFor(ab.Listed(r), ba.Listed(r), u);
    var s: CText :| !(Accepts(ab.Listed(r), u, s) <==> Accepts(ba.Listed(r), u, s));
    PermitsIsAccepts(ab, r, u, s);
    PermitsIsAccepts(ba, r, u, s);
    WellFormedTwo(t, a, b);
    WellFormedTwo(t, b, a);
    assert ab.Locked(r) == ba.Locked(r) == t.Locked(r);
    LookupShows(ab, ba, r, u, s);
  }

  /// Orders nobody can tell

  /** Each table goes its own way. */
  lemma {:induction false} TablesAreIndependent(t: Tables, t': Tables, k: seq<Message>, r: int32)
    ensures t.Locked(r) == t'.Locked(r) ==> Run(t, k).Locked(r) == Run(t', k).Locked(r)
    ensures t.Listed(r) == t'.Listed(r) ==> Run(t, k).Listed(r) == Run(t', k).Listed(r)
    decreases |k|
  {
    if k != [] {
      TablesAreIndependent(t, t', k[..|k| - 1], r);
    }
  }

  /** The uid tables are the same and so are the whitelists, but for one that is full and
      answers the same for everyone in its full uid table. */
  ghost predicate DifferUnseen(t: Tables, t': Tables, r: int32) {
    && (forall q: int32 :: t.Locked(q) == t'.Locked(q))
    && (forall q: int32 | q != r :: t.Listed(q) == t'.Listed(q))
    && |t.Locked(r)| >= MAX_SIZE_ARRAY && |t.Listed(r)| >= MAX_SIZE_ARRAY && |t'.Listed(r)| >= MAX_SIZE_ARRAY
    && forall u: uint32, s: CText | AsSigned(u) in t.Locked(r) ::
         Accepts(t.Listed(r), u, s) <==> Accepts(t'.Listed(r), u, s)
  }

  lemma {:induction false} UnseenStaysSo(t: Tables, t': Tables, r: int32, k: seq<Message>)
    requires DifferUnseen(t, t', r)
    ensures DifferUnseen(Run(t, k), Run(t', k), r)
  {
    forall q: int32
      ensures Run(t, k).Locked(q) == Run(t', k).Locked(q)
      ensures q != r ==> Run(t, k).Listed(q) == Run(t', k).Listed(q)
    {
      TablesAreIndependent(t, t', k, q);
    }
    FullIsAbsorbing(t, k, r);
    FullIsAbsorbing(t', k, r);
  }

  lemma UnseenBlocks(t: Tables, t': Tables, r: int32, q: int32, u: uint32, s: CText)
    requires DifferUnseen(t, t', r)
    ensures Frozen(PolicyOf(t), q, u) <==> Frozen(PolicyOf(t'), q, u)
    ensures Frozen(PolicyOf(t), q, u) ==> (Permits(PolicyOf(t), q, u, s) <==> Permits(PolicyOf(t'), q, u, s))
  {
    assert t.Locked(q) == t'.Locked(q);
    PermitsIsAccepts(t, q, u, s);
    PermitsIsAccepts(t', q, u, s);
  }

  lemma UnseenVerdict(t: Tables, t': Tables, r: int32, u: uint32, call: Syscall)
    requires DifferUnseen(t, t', r)
    ensures Judge(PolicyOf(t), u, call) == Judge(PolicyOf(t'), u, call)
  {
    match call
    case Execve(None) =>
    case Execve(Some(name)) => UnseenBlocks(t, t', r, PROCESS, u, name);
    case Connect(Inet(address)) => UnseenBlocks(t, t', r, NETWORK, u, address);
    case Connect(_) =>
    case Write(path) => UnseenBlocks(t, t', r, FILE, u, TextOf(path));
    case Openat(None) =>
    case Openat(Some(name)) =>
      UnseenBlocks(t, t', r, SESSIONS, u, name);
      UnseenBlocks(t, t', r, FILE, u, name);
  }

  lemma {:induction false} UnseenIsNotTold(t: Tables, t': Tables, r: int32)
    requires DifferUnseen(t, t', r)
    ensures !Distinguishable(t, t')
  {
    forall k: seq<Message>, u: uint32, call: Syscall
      ensures !Tells(t, t', k, u, call)
    {
      UnseenStaysSo(t, t', r, k);
      UnseenVerdict(Run(t, k), Run(t', k), r, u, call);
    }
  }

  lemma LookupsUnseen(t: Tables, a: Message, b: Message)
    requires WellFormed(t) && BothWhitelist(a, b) && LookupsClash(t.Listed(a.cmd.resource), a, b)
    requires !LookupsTell(t, a, b)
    ensures DifferUnseen(Step(Step(t, a), b), Step(Step(t, b), a), a.cmd.resource)
  {
    var r := a.cmd.resource;
    var ab, ba := Step(Step(t, a), b), Step(Step(t, b), a);
    assert ab.Listed(r) == Store(Store(t.Listed(r), a.cmd.uid, a.text), b.cmd.uid, b.text);
    assert ba.Listed(r) == Store(Store(t.Listed(r), b.cmd.uid, b.text), a.cmd.uid, a.text);
    assert forall q: int32 :: ab.Locked(q) == t.Locked(q) && ba.Locked(q) == t.Locked(q);
    assert ShutOut(t.Listed(r), a, b, a.cmd.uid) || ShutOut(t.Listed(r), a, b, b.cmd.uid);
    assert |t.Locked(r)| >= MAX_SIZE_ARRAY;
    ClashInLookups(t.Listed(r), a, b, a.cmd.uid);
    forall u: uint32, s: CText | AsSigned(u) in t.Locked(r)
      ensures Accepts(ab.Listed(r), u, s) <==> Accepts(ba.Listed(r), u, s)
    {
      ClashInLookups(t.Listed(r), a, b, u);
      assert !(u in {a.cmd.uid, b.cmd.uid} && ShutOut(t.Listed(r), a, b, u));
      assert !DifferFor(ab.Listed(r), ba.Listed(r), u);
    }
  }

  /** All is the same but full session tables that differ for barred users only. */
  ghost predicate DifferForBarred(t: Tables, t': Tables) {
    && (forall q: int32 | q != SESSIONS :: t.Locked(q) == t'.Locked(q))
    && (forall q: int32 :: t.Listed(q) == t'.Listed(q))
    && |t.Locked(SESSIONS)| >= MAX_SIZE_ARRAY && |t'.Locked(SESSIONS)| >= MAX_SIZE_ARRAY
    && forall u: uint32 :: Barred(t, u) || (AsSigned(u) in t.Locked(SESSIONS) <==> AsSigned(u) in t'.Locked(SESSIONS))
  }

  lemma {:induction false} BarredStaysSo(t: Tables, t': Tables, k: seq<Message>)
    requires DifferForBarred(t, t')
    ensures DifferForBarred(Run(t, k), Run(t', k))
  {
    forall q: int32
      ensures q != SESSIONS ==> Run(t, k).Locked(q) == Run(t', k).Locked(q)
      ensures Run(t, k).Listed(q) == Run(t', k).Listed(q)
    {
      TablesAreIndependent(t, t', k, q);
    }
    FullIsAbsorbing(t, k, SESSIONS);
    FullIsAbsorbing(t', k, SESSIONS);
    FullIsAbsorbing(t, k, FILE);
  }

  lemma BarredIsBlocked(t: Tables, u: uint32, name: CText)
    requires Barred(t, u)
    ensures Blocked(PolicyOf(t), FILE, u, name)
  {
    PermitsIsAccepts(t, FILE, u, name);
  }

  lemma BarredVerdict(t: Tables, t': Tables, u: uint32, call: Syscall)
    requires DifferForBarred(t, t')
    ensures Judge(PolicyOf(t), u, call) == Judge(PolicyOf(t'), u, call)
  {
    forall q: int32, s: CText
      ensures Permits(PolicyOf(t), q, u, s) <==> Permits(PolicyOf(t'), q, u, s)
    {
      PermitsIsAccepts(t, q, u, s);
      PermitsIsAccepts(t', q, u, s);
    }
    if call.Openat? && call.name.Some? && Barred(t, u) {
      BarredIsBlocked(t, u, call.name.value);
    }
  }

  lemma {:induction false} BarredIsNotTold(t: Tables, t': Tables)
    requires DifferForBarred(t, t')
    ensures !Distinguishable(t, t')
  {
    forall k: seq<Message>, u: uint32, call: Syscall
      ensures !Tells(t, t', k, u, call)
    {
      BarredStaysSo(t, t', k);
      BarredVerdict(Run(t, k), Run(t', k), u, call);
    }
  }

  lemma LocksUnseen(t: Tables, a: Message, b: Message)
    requires WellFormed(t) && LocksClash(t, a, b) && !LocksTell(t, a, b)
    ensures DifferForBarred(Step(Step(t, a), b), Step(Step(t, b), a))
  {
    var ab, ba := Step(Step(t, a), b), Step(Step(t, b), a);
    ClashInSize(t.Locked(SESSIONS), a.cmd, b.cmd);
    assert ab.Locked(SESSIONS) == NextLocked(NextLocked(t.Locked(SESSIONS), SESSIONS, a.cmd), SESSIONS, b.cmd);
    assert ba.Locked(SESSIONS) == NextLocked(NextLocked(t.Locked(SESSIONS), SESSIONS, b.cmd), SESSIONS, a.cmd);
    assert forall q: int32 | q != SESSIONS :: ab.Locked(q) == t.Locked(q) && ba.Locked(q) == t.Locked(q);
    assert forall q: int32 :: ab.Listed(q) == t.Listed(q) && ba.Listed(q) == t.Listed(q);
    forall u: uint32
      ensures Barred(ab, u) || (AsSigned(u) in ab.Locked(SESSIONS) <==> AsSigned(u) in ba.Locked(SESSIONS))
    {
      SignedUnsignedInverse(AsSigned(u), a.cmd.uid);
      SignedUnsignedInverse(AsSigned(u), b.cmd.uid);
      assert Barred(t, u) ==> Barred(ab, u);
    }
  }

  /** Whether any call, at once or after any further run, tells the order of two commands, in
      every state: exactly when their locks or lookups clash where it can be seen. */
  lemma {:induction false} OrderIsToldIff(t: Tables, a: Message, b: Message)
    requires WellFormed(t)
    ensures Distinguishable(Step(Step(t, a), b), Step(Step(t, b), a)) <==> LocksTell(t, a, b) || LookupsTell(t, a, b)
  {
    var ab, ba := Step(Step(t, a), b), Step(Step(t, b), a);
    if LocksTell(t, a, b) {
      LocksTellDo(t, a, b);
    } else if LookupsTell(t, a, b) {
      LookupsTellDo(t, a, b);
    } else if LocksClash(t, a, b) {
      LocksUnseen(t, a, b);
      BarredIsNotTold(ab, ba);
    } else if AnswersClash(t, a, b) {
      LookupsUnseen(t, a, b);
      UnseenIsNotTold(ab, ba, a.cmd.resource);
    } else {
      AnswersSwapIff(t, a, b);
      WellFormedTwo(t, a, b);
      WellFormedTwo(t, b, a);
      SameAnswersSameVerdicts(ab, ba);
    }
  }
}
