/** What "everyone except one" does to the kernel's tables. */
module BroadcastEffects {
  import opened CTypes
  import opened LockTables
  import opened Whitelists
  import opened Commands
  import opened Policies
  import opened Runs
  import opened Observations
  import opened Broadcasts

  function Delivered(sent: seq<uint32>, resource: int32, action: int32, text: CText): (h: seq<Message>)
    ensures |h| == |sent| && forall k | 0 <= k < |h| :: h[k] == Message(NetlinkCmd(resource, sent[k], action), text)
  {
    seq(|sent|, k requires 0 <= k < |sent| => Message(NetlinkCmd(resource, sent[k], action), text))
  }

  function SetOf(uids: seq<uint32>): set<uint32> {
    set u | u in uids
  }

  /** The uids, in order, that find room in a table that already has the uids `present`. */
  function FindRoom(present: set<uint32>, got: seq<uint32>): seq<uint32>
    decreases |got|
  {
    if got == [] || |present| >= MAX_SIZE_ARRAY then []
    else [got[0]] + FindRoom(present + {got[0]}, got[1..])
  }

  lemma SetOfFirst(present: set<uint32>, got: seq<uint32>)
    requires got != []
    ensures present + {got[0]} + SetOf(got[1..]) == present + SetOf(got)
  {
    assert got == [got[0]] + got[1..];
  }

  /** Together with those present they are everyone, or as many as the table holds. */
  lemma {:induction false} RoomCount(present: set<uint32>, got: seq<uint32>)
    requires |present| <= MAX_SIZE_ARRAY
    ensures var all, taken := present + SetOf(got), present + SetOf(FindRoom(present, got));
            taken <= all && |taken| == if |all| <= MAX_SIZE_ARRAY then |all| else MAX_SIZE_ARRAY
    decreases |got|
  {
    var all := present + SetOf(got);
    SubsetCount(present, all);
    if got != [] && |present| < MAX_SIZE_ARRAY {
      RoomCount(present + {got[0]}, got[1..]);
      SetOfFirst(present, got);
      SetOfFirst(present, FindRoom(present, got));
    }
  }

  /** So everyone is taken in exactly when all of them fit. */
  lemma {:induction false} EveryoneFindsRoomIff(present: set<uint32>, got: seq<uint32>)
    requires |present| <= MAX_SIZE_ARRAY
    ensures present + SetOf(FindRoom(present, got)) == present + SetOf(got) <==>
            |present + SetOf(got)| <= MAX_SIZE_ARRAY
  {
    RoomCount(present, got);
    var all, taken := present + SetOf(got), present + SetOf(FindRoom(present, got));
    assert taken + (all - taken) == all;
  }

  lemma FirstDelivered(t: Tables, got: seq<uint32>, r: int32, action: int32, text: CText)
    requires got != []
    ensures Run(t, Delivered(got, r, action, text)) ==
            Run(Step(t, Message(NetlinkCmd(r, got[0], action), text)), Delivered(got[1..], r, action, text))
  {
    var m := Message(NetlinkCmd(r, got[0], action), text);
    assert Delivered(got, r, action, text) == [m] + Delivered(got[1..], r, action, text);
    RunAppend(t, [m], Delivered(got[1..], r, action, text));
    RunOne(t, m);
  }

  lemma FirstLock(t: Tables, r: int32, uid: uint32, text: CText)
    requires WellFormed(t) && HasLockTable(r)
    ensures var after := Step(t, Message(NetlinkCmd(r, uid, LOCK), text));
            && WellFormed(after) && |UidsOf(t.Locked(r))| == |t.Locked(r)|
            && UidsOf(after.Locked(r)) == UidsOf(t.Locked(r)) + if |t.Locked(r)| < MAX_SIZE_ARRAY then {uid} else {}
  {
    var m := Message(NetlinkCmd(r, uid, LOCK), text);
    StepKeepsWellFormed(t, m);
    UidCount(t.Locked(r));
    AddedIsExact(t.Locked(r), AsSigned(uid));
    forall u: uint32
      ensures u in UidsOf(Step(t, m).Locked(r)) <==>
              u in UidsOf(t.Locked(r)) || (|t.Locked(r)| < MAX_SIZE_ARRAY && u == uid)
    {
      InUidsOf(t.Locked(r), u);
      InUidsOf(Step(t, m).Locked(r), u);
    }
  }

  /** A LOCK broadcast, in any state, takes in exactly the uids that find room. */
  lemma {:induction false} LocksTakenIn(t: Tables, r: int32, text: CText, got: seq<uint32>)
    requires WellFormed(t) && HasLockTable(r)
    ensures UidsOf(Run(t, Delivered(got, r, LOCK, text)).Locked(r)) ==
            UidsOf(t.Locked(r)) + SetOf(FindRoom(UidsOf(t.Locked(r)), got))
    decreases |got|
  {
    UidCount(t.Locked(r));
    if |t.Locked(r)| >= MAX_SIZE_ARRAY {
      FullIsAbsorbing(t, Delivered(got, r, LOCK, text), r);
    } else if got != [] {
      FirstDelivered(t, got, r, LOCK, text);
      FirstLock(t, r, got[0], text);
      LocksTakenIn(Step(t, Message(NetlinkCmd(r, got[0], LOCK), text)), r, text, got[1..]);
    }
  }

  /** How full a LOCK broadcast leaves the table: the uids locked before and those messaged,
      each counted once, up to 1024. */
  lemma {:induction false} RoomForBroadcast(t: Tables, got: seq<uint32>, r: int32, text: CText)
    requires WellFormed(t) && HasLockTable(r)
    ensures var all := |UidsOf(t.Locked(r)) + SetOf(got)|;
            |Run(t, Delivered(got, r, LOCK, text)).Locked(r)| == if all <= MAX_SIZE_ARRAY then all else MAX_SIZE_ARRAY
  {
    RunKeepsWellFormed(t, Delivered(got, r, LOCK, text));
    UidCount(t.Locked(r));
    UidCount(Run(t, Delivered(got, r, LOCK, text)).Locked(r));
    LocksTakenIn(t, r, text, got);
    RoomCount(UidsOf(t.Locked(r)), got);
  }

  /** A LOCK broadcast freezes exactly the users whose messages arrive and find room, in
      addition to who was frozen, in every state, whatever repeats the login list has and in
      whatever order. */
  lemma {:induction false} LockBroadcastInEveryState(t: Tables, r: int32, text: CText, got: seq<uint32>, u: uint32)
    requires WellFormed(t) && HasLockTable(r)
    ensures Frozen(PolicyOf(Run(t, Delivered(got, r, LOCK, text))), r, u) <==>
            Frozen(PolicyOf(t), r, u) || u in FindRoom(UidsOf(t.Locked(r)), got)
  {
    LocksTakenIn(t, r, text, got);
    InUidsOf(t.Locked(r), u);
    InUidsOf(Run(t, Delivered(got, r, LOCK, text)).Locked(r), u);
  }

  /** It freezes all users it reaches, exactly when they and those frozen before fit. */
  lemma {:induction false} LockBroadcastFreezesWhoItReachesIff(t: Tables, r: int32, text: CText, got: seq<uint32>)
    requires WellFormed(t) && HasLockTable(r)
    ensures (forall u | u in got :: Frozen(PolicyOf(Run(t, Delivered(got, r, LOCK, text))), r, u)) <==>
            |UidsOf(t.Locked(r)) + SetOf(got)| <= MAX_SIZE_ARRAY
  {
    var present := UidsOf(t.Locked(r));
    UidCount(t.Locked(r));
    EveryoneFindsRoomIff(present, got);
    RoomCount(present, got);
    forall u: uint32
      ensures Frozen(PolicyOf(Run(t, Delivered(got, r, LOCK, text))), r, u) <==>
              u in present + SetOf(FindRoom(present, got))
    {
      LockBroadcastInEveryState(t, r, text, got, u);
      InUidsOf(t.Locked(r), u);
    }
  }

  /** While they fit, a LOCK broadcast freezes exactly the users whose messages arrive, in
      addition to who was frozen. */
  lemma {:induction false} LockBroadcastFreezesWhoItReaches(
      t: Tables, r: int32, text: CText, got: seq<uint32>, u: uint32)
    requires WellFormed(t) && HasLockTable(r)
    requires |UidsOf(t.Locked(r)) + SetOf(got)| <= MAX_SIZE_ARRAY
    ensures Frozen(PolicyOf(Run(t, Delivered(got, r, LOCK, text))), r, u) <==> Frozen(PolicyOf(t), r, u) || u in got
  {
    var present := UidsOf(t.Locked(r));
    UidCount(t.Locked(r));
    EveryoneFindsRoomIff(present, got);
    LockBroadcastInEveryState(t, r, text, got, u);
    InUidsOf(t.Locked(r), u);
    assert u in present + SetOf(FindRoom(present, got)) <==> u in present + SetOf(got);
  }

  lemma FirstUnlock(t: Tables, r: int32, uid: uint32, text: CText, u: uint32)
    requires WellFormed(t) && HasLockTable(r) && |t.Locked(r)| < MAX_SIZE_ARRAY
    ensures var after := Step(t, Message(NetlinkCmd(r, uid, UNLOCK), text));
            && WellFormed(after) && |after.Locked(r)| < MAX_SIZE_ARRAY
            && (Frozen(PolicyOf(after), r, u) <==> Frozen(PolicyOf(t), r, u) && u != uid)
  {
    var m := Message(NetlinkCmd(r, uid, UNLOCK), text);
    StepKeepsWellFormed(t, m);
    FrozenAfterStep(t, m, r, u);
    RemovedIsExact(t.Locked(r), AsSigned(uid));
  }

  /** An UNLOCK broadcast thaws exactly the users whose messages arrive; on a full table it
      thaws nobody. */
  lemma {:induction false} UnlockBroadcastInEveryState(t: Tables, r: int32, text: CText, got: seq<uint32>, u: uint32)
    requires WellFormed(t) && HasLockTable(r)
    ensures Frozen(PolicyOf(Run(t, Delivered(got, r, UNLOCK, text))), r, u) <==>
            Frozen(PolicyOf(t), r, u) && (|t.Locked(r)| < MAX_SIZE_ARRAY ==> u !in got)
    decreases |got|
  {
    if |t.Locked(r)| >= MAX_SIZE_ARRAY {
      FullIsAbsorbing(t, Delivered(got, r, UNLOCK, text), r);
    } else if got != [] {
      FirstDelivered(t, got, r, UNLOCK, text);
      FirstUnlock(t, r, got[0], text, u);
      UnlockBroadcastInEveryState(Step(t, Message(NetlinkCmd(r, got[0], UNLOCK), text)), r, text, got[1..], u);
    }
  }

  lemma {:induction false} FirstWhitelist(t: Tables, r: int32, uid: uint32, text: CText)
    requires WellFormed(t) && HasWhitelist(r)
    ensures var after := Step(t, Message(NetlinkCmd(r, uid, WHITELIST), text));
            && WellFormed(after) && |BucketUids(t.Listed(r))| == |t.Listed(r)|
            && (|t.Listed(r)| < MAX_SIZE_ARRAY ==> BucketUids(after.Listed(r)) == BucketUids(t.Listed(r)) + {uid})
            && forall u: uint32, s: CText :: Permits(PolicyOf(after), r, u, s) <==>
                 Permits(PolicyOf(t), r, u, s) || (|t.Listed(r)| < MAX_SIZE_ARRAY && u == uid && s <= text)
  {
    var m := Message(NetlinkCmd(r, uid, WHITELIST), text);
    var es := t.Listed(r);
    StepKeepsWellFormed(t, m);
    BucketUidCount(es);
    BucketUidsAfterStore(es, uid, text);
    forall u: uint32, s: CText
      ensures Permits(PolicyOf(Step(t, m)), r, u, s) <==>
              Permits(PolicyOf(t), r, u, s) || (|es| < MAX_SIZE_ARRAY && u == uid && s <= text)
    {
      AcceptsAfter(es, uid, text, u, s);
      PermitsIsAccepts(t, r, u, s);
      PermitsIsAccepts(Step(t, m), r, u, s);
    }
  }

  lemma BucketUidsAfterStore(es: seq<Entry<CText>>, uid: uint32, item: CText)
    ensures |es| < MAX_SIZE_ARRAY ==> BucketUids(Store(es, uid, item)) == BucketUids(es) + {uid}
  {
    if |es| < MAX_SIZE_ARRAY {
      var after := Store(es, uid, item);
      assert forall i | 0 <= i < |es| :: after[i].uid == es[i].uid;
      assert after[IndexOf(es, uid)].uid == uid;
    }
  }

  /** A WHITELIST broadcast, in every state, admits the string and its prefixes for exactly the
      users whose messages arrive and find room. */
  lemma {:induction false} WhitelistBroadcastInEveryState(t: Tables, r: int32, text: CText, got: seq<uint32>,
                                                          u: uint32, s: CText)
    requires WellFormed(t) && HasWhitelist(r)
    ensures Permits(PolicyOf(Run(t, Delivered(got, r, WHITELIST, text))), r, u, s) <==>
            Permits(PolicyOf(t), r, u, s) || (u in FindRoom(BucketUids(t.Listed(r)), got) && s <= text)
    decreases |got|
  {
    BucketUidCount(t.Listed(r));
    if |t.Listed(r)| >= MAX_SIZE_ARRAY {
      FullIsAbsorbing(t, Delivered(got, r, WHITELIST, text), r);
      PermitsIsAccepts(t, r, u, s);
      PermitsIsAccepts(Run(t, Delivered(got, r, WHITELIST, text)), r, u, s);
    } else if got != [] {
      FirstDelivered(t, got, r, WHITELIST, text);
      FirstWhitelist(t, r, got[0], text);
      WhitelistBroadcastInEveryState(Step(t, Message(NetlinkCmd(r, got[0], WHITELIST), text)), r, text, got[1..], u, s);
    }
  }

  lemma {:induction false} AllFindRoom(present: set<uint32>, got: seq<uint32>, all: set<uint32>)
    requires present <= all && |all| < MAX_SIZE_ARRAY && forall u | u in got :: u in all
    ensures FindRoom(present, got) == got
    decreases |got|
  {
    SubsetCount(present, all);
    if got != [] {
      AllFindRoom(present + {got[0]}, got[1..], all);
    }
  }

  /** So with fewer than 1024 uids in all, those whose messages arrive. */
  lemma {:induction false} WhitelistBroadcastAdmitsWhoItReaches(t: Tables, r: int32, text: CText, got: seq<uint32>,
                                                                u: uint32, s: CText)
    requires WellFormed(t) && HasWhitelist(r)
    requires |BucketUids(t.Listed(r)) + SetOf(got)| < MAX_SIZE_ARRAY
    ensures Permits(PolicyOf(Run(t, Delivered(got, r, WHITELIST, text))), r, u, s) <==>
            Permits(PolicyOf(t), r, u, s) || (u in got && s <= text)
  {
    AllFindRoom(BucketUids(t.Listed(r)), got, BucketUids(t.Listed(r)) + SetOf(got));
    WhitelistBroadcastInEveryState(t, r, text, got, u, s);
  }

  /** A LOCK broadcast that meets no lookup error and loses no message freezes every other
      logged-in user and leaves the status of the excepted user and of everyone who is not
      logged in as it was. */
  lemma {:induction false} LockBroadcastFreezesTheOthers(
      t: Tables, logins: seq<Resolution>, except: uint32, exchanges: nat -> Exchange, sent: seq<uint32>,
      r: int32, text: CText, u: uint32)
    requires WellFormed(t) && HasLockTable(r)
    requires LookupError !in logins && BroadcastOf(Targets(logins, except), exchanges, sent)
    requires forall k: nat | k < |Targets(logins, except)| - 1 :: SendSocketMsg(exchanges(k))
    requires Targets(logins, except) != [] ==> Arrives(exchanges(|Targets(logins, except)| - 1))
    requires |UidsOf(t.Locked(r)) + SetOf(Targets(logins, except))| <= MAX_SIZE_ARRAY
    ensures Frozen(PolicyOf(Run(t, Delivered(Arrived(sent, exchanges), r, LOCK, text))), r, u) <==>
            Frozen(PolicyOf(t), r, u) || (u != except && ResolvedTo(u) in logins)
  {
    EveryoneIsReachedIff(Targets(logins, except), exchanges, sent);
    LockBroadcastFreezesWhoItReaches(t, r, text, Arrived(sent, exchanges), u);
    TargetsAreTheOthers(logins, except, u);
  }

  /** When a LOCK broadcast leaves every other logged-in user frozen, whatever is lost and
      however full the table: each was frozen before, or got a message that found room. */
  lemma {:induction false} OthersAreFrozenIff(
      t: Tables, logins: seq<Resolution>, except: uint32, exchanges: nat -> Exchange, sent: seq<uint32>,
      r: int32, text: CText)
    requires WellFormed(t) && HasLockTable(r)
    requires LookupError !in logins && BroadcastOf(Targets(logins, except), exchanges, sent)
    ensures (forall u | u != except && ResolvedTo(u) in logins ::
               Frozen(PolicyOf(Run(t, Delivered(Arrived(sent, exchanges), r, LOCK, text))), r, u)) <==>
            forall u | u in Targets(logins, except) ::
              Frozen(PolicyOf(t), r, u) || u in FindRoom(UidsOf(t.Locked(r)), Arrived(sent, exchanges))
  {
    forall u: uint32
      ensures u in Targets(logins, except) <==> u != except && ResolvedTo(u) in logins
      ensures Frozen(PolicyOf(Run(t, Delivered(Arrived(sent, exchanges), r, LOCK, text))), r, u) <==>
              Frozen(PolicyOf(t), r, u) || u in FindRoom(UidsOf(t.Locked(r)), Arrived(sent, exchanges))
    {
      TargetsAreTheOthers(logins, except, u);
      LockBroadcastInEveryState(t, r, text, Arrived(sent, exchanges), u);
    }
  }

  /** No broadcast, of whatever command, whatever is lost and whether or not tables fill up,
      changes a verdict of the excepted user. */
  lemma BroadcastSparesTheExcepted(t: Tables, logins: seq<Resolution>, except: uint32, exchanges: nat -> Exchange,
                                   sent: seq<uint32>, resource: int32, action: int32, text: CText, call: Syscall)
    requires WellFormed(t) && BroadcastOf(Targets(logins, except), exchanges, sent)
    ensures Judge(PolicyOf(Run(t, Delivered(Arrived(sent, exchanges), resource, action, text))), except, call) ==
            Judge(PolicyOf(t), except, call)
  {
    var got := Arrived(sent, exchanges);
    ExceptedIsNoTarget(logins, except);
    forall k | 0 <= k < |got|
      ensures got[k] != except
    {
      assert got[k] in sent;
      var i :| 0 <= i < |sent| && sent[i] == got[k];
      assert sent[i] == Targets(logins, except)[i];
    }
    Isolation(t, Delivered(got, resource, action, text), except, call);
  }
}
