/** The commands of freezer/lib/resource_com.h and what they do to the seven tables. */
module Commands {
  import opened CTypes
  import opened LockTables
  import opened Whitelists

  const FILE: int32 := 1
  const PROCESS: int32 := 2
  const NETWORK: int32 := 3
  const SESSIONS: int32 := 4

  const LOCK: int32 := 1
  const UNLOCK: int32 := 2
  const WHITELIST: int32 := 3

  datatype NetlinkCmd = NetlinkCmd(resource: int32, uid: uint32, action: int32)

  /** A received command with the string that came with it. */
  datatype Message = Message(cmd: NetlinkCmd, text: CText)

  predicate HasLockTable(resource: int32) {
    FILE <= resource <= SESSIONS
  }

  predicate HasWhitelist(resource: int32) {
    FILE <= resource <= NETWORK
  }

  /** The live prefixes of the four uid tables. */
  datatype Locks = Locks(files: seq<int32>, processes: seq<int32>, sockets: seq<int32>, sessions: seq<int32>) {
    function Of(resource: int32): seq<int32> {
      if resource == FILE then files
      else if resource == PROCESS then processes
      else if resource == NETWORK then sockets
      else if resource == SESSIONS then sessions
      else []
    }
  }

  /** The live buckets of the three whitelists. */
  datatype Lists = Lists(files: seq<Entry<CText>>, processes: seq<Entry<CText>>, networks: seq<Entry<CText>>) {
    function Of(resource: int32): seq<Entry<CText>> {
      if resource == FILE then files
      else if resource == PROCESS then processes
      else if resource == NETWORK then networks
      else []
    }
  }

  datatype Tables = Tables(locks: Locks, lists: Lists) {
    function Locked(resource: int32): seq<int32> {
      locks.Of(resource)
    }

    function Listed(resource: int32): seq<Entry<CText>> {
      lists.Of(resource)
    }
  }

  const EMPTY := Tables(Locks([], [], [], []), Lists([], [], []))

  function NextLocked(s: seq<int32>, resource: int32, cmd: NetlinkCmd): seq<int32> {
    if cmd.resource != resource then s
    else if cmd.action == LOCK then Added(s, AsSigned(cmd.uid))
    else if cmd.action == UNLOCK then Removed(s, AsSigned(cmd.uid))
    else s
  }

  function NextListed(es: seq<Entry<CText>>, resource: int32, m: Message): seq<Entry<CText>> {
    if m.cmd.resource == resource && m.cmd.action == WHITELIST then Store(es, m.cmd.uid, m.text) else es
  }

  function NextLocks(locks: Locks, cmd: NetlinkCmd): Locks {
    Locks(NextLocked(locks.files, FILE, cmd), NextLocked(locks.processes, PROCESS, cmd),
          NextLocked(locks.sockets, NETWORK, cmd), NextLocked(locks.sessions, SESSIONS, cmd))
  }

  function NextLists(lists: Lists, m: Message): Lists {
    Lists(NextListed(lists.files, FILE, m), NextListed(lists.processes, PROCESS, m),
          NextListed(lists.networks, NETWORK, m))
  }

  /** The tables after one command. */
  function Step(t: Tables, m: Message): Tables {
    Tables(NextLocks(t.locks, m.cmd), NextLists(t.lists, m))
  }

  /** Whether a command names an existing table; only this decides the reply. */
  predicate Understood(cmd: NetlinkCmd) {
    || ((cmd.action == LOCK || cmd.action == UNLOCK) && HasLockTable(cmd.resource))
    || (cmd.action == WHITELIST && HasWhitelist(cmd.resource))
  }

  function LockedByNumber(action: int32, s: seq<int32>, x: int32): seq<int32> {
    if action == 1 then Added(s, x) else if action == 2 then Removed(s, x) else s
  }

  function ListedByNumber(action: int32, es: seq<Entry<CText>>, uid: uint32, text: CText): seq<Entry<CText>> {
    if action == 3 then Store(es, uid, text) else es
  }

  /** The dispatcher by the numbers that commands carry: resource 1 to 4 for files, processes,
      connections and sessions, action 1 to 3 for LOCK, UNLOCK and WHITELIST. */
  lemma StepByNumber(t: Tables, m: Message)
    ensures var after, r, a, x := Step(t, m), m.cmd.resource, m.cmd.action, AsSigned(m.cmd.uid);
            && after.locks.files == (if r == 1 then LockedByNumber(a, t.locks.files, x) else t.locks.files)
            && after.locks.processes == (if r == 2 then LockedByNumber(a, t.locks.processes, x) else t.locks.processes)
            && after.locks.sockets == (if r == 3 then LockedByNumber(a, t.locks.sockets, x) else t.locks.sockets)
            && after.locks.sessions == (if r == 4 then LockedByNumber(a, t.locks.sessions, x) else t.locks.sessions)
    ensures var after, r, a, u := Step(t, m), m.cmd.resource, m.cmd.action, m.cmd.uid;
            && after.lists.files == (if r == 1 then ListedByNumber(a, t.lists.files, u, m.text) else t.lists.files)
            && after.lists.processes ==
               (if r == 2 then ListedByNumber(a, t.lists.processes, u, m.text) else t.lists.processes)
            && after.lists.networks ==
               (if r == 3 then ListedByNumber(a, t.lists.networks, u, m.text) else t.lists.networks)
  {
  }

  /** The tables after a whole run. */
  function Run(t: Tables, h: seq<Message>): Tables {
    if h == [] then t else Step(Run(t, h[..|h| - 1]), h[|h| - 1])
  }

  /** Every bucket holds a string. */
  ghost predicate Inhabited<T>(es: seq<Entry<T>>) {
    forall i | 0 <= i < |es| :: es[i].items != []
  }

  /** Well-formed tables: within bounds, no uid twice, one bucket per uid, none of them empty. */
  ghost predicate WellFormed(t: Tables) {
    && (forall r | HasLockTable(r) :: |t.Locked(r)| <= MAX_SIZE_ARRAY && Distinct(t.Locked(r)))
    && (forall r | HasWhitelist(r) ::
          |t.Listed(r)| <= MAX_SIZE_ARRAY && UniqueUids(t.Listed(r)) && Inhabited(t.Listed(r)))
  }

  function BucketUids<T>(es: seq<Entry<T>>): set<uint32> {
    set i | 0 <= i < |es| :: es[i].uid
  }

  lemma {:induction false} BucketUidCount<T>(es: seq<Entry<T>>)
    requires UniqueUids(es)
    ensures |BucketUids(es)| == |es|
  {
    if es != [] {
      var n := |es| - 1;
      BucketUidCount(es[..n]);
      assert forall i | 0 <= i < n :: es[..n][i] == es[i];
      assert BucketUids(es) == BucketUids(es[..n]) + {es[n].uid};
    }
  }

  /** The items of a uid's bucket; none without a bucket. */
  function StringsOf<T>(es: seq<Entry<T>>, uid: uint32): seq<T> {
    var k := IndexOf(es, uid);
    if k < |es| then es[k].items else []
  }

  lemma StringsAfterStore<T>(es: seq<Entry<T>>, uid: uint32, item: T, u: uint32)
    requires |es| < MAX_SIZE_ARRAY
    ensures StringsOf(Store(es, uid, item), u) == StringsOf(es, u) + if u == uid then [item] else []
  {
    var after := Store(es, uid, item);
    var k := IndexOf(es, u);
    StoreKeepsBuckets(es, uid, item);
    assert k < |es| ==> after[k].uid == u;
    assert u == uid ==> after[k].uid == u;
    assert IndexOf(after, u) == if k < |es| || u == uid then k else |after|;
  }

  const RESOURCES: set<int32> := {FILE, PROCESS, NETWORK, SESSIONS}

  /** No table of the resources `rs` is full. */
  ghost predicate Open(t: Tables, rs: set<int32>) {
    forall r | r in rs :: |t.Locked(r)| < MAX_SIZE_ARRAY && |t.Listed(r)| < MAX_SIZE_ARRAY
  }

  lemma {:induction false} RunAppend(t: Tables, h: seq<Message>, k: seq<Message>)
    ensures Run(t, h + k) == Run(Run(t, h), k)
    decreases |k|
  {
    if k == [] {
      assert h + k == h;
    } else {
      assert (h + k)[..|h + k| - 1] == h + k[..|k| - 1];
      RunAppend(t, h, k[..|k| - 1]);
    }
  }

  lemma RunOne(t: Tables, m: Message)
    ensures Run(t, [m]) == Step(t, m)
  {
  }

  lemma StoreKeepsUniqueUids<T>(es: seq<Entry<T>>, uid: uint32, item: T)
    requires UniqueUids(es) && Inhabited(es) && |es| <= MAX_SIZE_ARRAY
    ensures UniqueUids(Store(es, uid, item)) && Inhabited(Store(es, uid, item))
    ensures |es| <= |Store(es, uid, item)| <= MAX_SIZE_ARRAY
  {
  }

  /** Every command, understood or not, keeps the tables well formed. */
  lemma StepKeepsWellFormed(t: Tables, m: Message)
    requires WellFormed(t)
    ensures WellFormed(Step(t, m))
  {
    forall r | HasLockTable(r)
      ensures |Step(t, m).Locked(r)| <= MAX_SIZE_ARRAY && Distinct(Step(t, m).Locked(r))
    {
      AddedIsExact(t.Locked(r), AsSigned(m.cmd.uid));
      RemovedIsExact(t.Locked(r), AsSigned(m.cmd.uid));
    }
    forall r | HasWhitelist(r)
      ensures |Step(t, m).Listed(r)| <= MAX_SIZE_ARRAY
      ensures UniqueUids(Step(t, m).Listed(r)) && Inhabited(Step(t, m).Listed(r))
    {
      StoreKeepsUniqueUids(t.Listed(r), m.cmd.uid, m.text);
    }
  }

  lemma {:induction false} RunKeepsWellFormed(t: Tables, h: seq<Message>)
    requires WellFormed(t)
    ensures WellFormed(Run(t, h))
    decreases |h|
  {
    if h != [] {
      RunKeepsWellFormed(t, h[..|h| - 1]);
      StepKeepsWellFormed(Run(t, h[..|h| - 1]), h[|h| - 1]);
    }
  }

  /** Full is absorbing: no later command changes the contents of a full table. */
  lemma {:induction false} FullIsAbsorbing(t: Tables, h: seq<Message>, r: int32)
    ensures |t.Locked(r)| >= MAX_SIZE_ARRAY ==> Run(t, h).Locked(r) == t.Locked(r)
    ensures |t.Listed(r)| >= MAX_SIZE_ARRAY ==> Run(t, h).Listed(r) == t.Listed(r)
    decreases |h|
  {
    if h != [] {
      FullIsAbsorbing(t, h[..|h| - 1], r);
    }
  }

  /** A table with room after a run had room before the last command. */
  lemma RoomBefore(t: Tables, h: seq<Message>, r: int32)
    requires h != []
    ensures |Run(t, h).Locked(r)| < MAX_SIZE_ARRAY ==> |Run(t, h[..|h| - 1]).Locked(r)| < MAX_SIZE_ARRAY
    ensures |Run(t, h).Listed(r)| < MAX_SIZE_ARRAY ==> |Run(t, h[..|h| - 1]).Listed(r)| < MAX_SIZE_ARRAY
  {
    var before := Run(t, h[..|h| - 1]);
    FullIsAbsorbing(before, [h[|h| - 1]], r);
    RunOne(before, h[|h| - 1]);
  }

  /** So tables that are open at the end of a run were open all along. */
  lemma OpenAllAlong(t: Tables, h: seq<Message>, k: seq<Message>, rs: set<int32>)
    requires Open(Run(t, h + k), rs)
    ensures Open(Run(t, h), rs)
  {
    RunAppend(t, h, k);
    forall r | r in rs
      ensures |Run(t, h).Locked(r)| < MAX_SIZE_ARRAY && |Run(t, h).Listed(r)| < MAX_SIZE_ARRAY
    {
      FullIsAbsorbing(Run(t, h), k, r);
    }
  }
}
