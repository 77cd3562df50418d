/** What the received commands say by themselves, and when they fill a table. */
module Histories {
  import opened CTypes
  import opened LockTables
  import opened Whitelists
  import opened Commands
  import opened Policies

  /// What the commands say

  /** The last LOCK or UNLOCK naming (r, u) was a LOCK. */
  ghost predicate LastIsLock(h: seq<Message>, r: int32, u: uint32) {
    HasLockTable(r) &&
    exists i | 0 <= i < |h| ::
      h[i].cmd == NetlinkCmd(r, u, LOCK) && forall j | i < j < |h| :: h[j].cmd != NetlinkCmd(r, u, UNLOCK)
  }

  /** Some WHITELIST naming (r, u) carried a string with `requested` as a prefix. */
  ghost predicate WhitelistedEver(h: seq<Message>, r: int32, u: uint32, requested: CText) {
    HasWhitelist(r) &&
    exists i | 0 <= i < |h| :: h[i].cmd == NetlinkCmd(r, u, WHITELIST) && requested <= h[i].text
  }

  function LockedUids(h: seq<Message>, r: int32): set<uint32> {
    set i | 0 <= i < |h| && h[i].cmd.resource == r && h[i].cmd.action == LOCK :: h[i].cmd.uid
  }

  function WhitelistedUids(h: seq<Message>, r: int32): set<uint32> {
    set i | 0 <= i < |h| && h[i].cmd.resource == r && h[i].cmd.action == WHITELIST :: h[i].cmd.uid
  }

  /** The uids left locked: their last LOCK or UNLOCK was a LOCK. */
  ghost function LeftLocked(h: seq<Message>, r: int32): set<uint32> {
    set u | u in LockedUids(h, r) && LastIsLock(h, r, u)
  }

  /** At some point 1024 uids were left locked. */
  ghost predicate LocksFilled(h: seq<Message>, r: int32) {
    exists n | 0 <= n <= |h| :: |LeftLocked(h[..n], r)| >= MAX_SIZE_ARRAY
  }

  /** 1024 uids were named in WHITELIST commands. */
  ghost predicate ListFilled(h: seq<Message>, r: int32) {
    HasWhitelist(r) && |WhitelistedUids(h, r)| >= MAX_SIZE_ARRAY
  }

  /** The commands up to and including the one that leaves the 1024th uid locked. */
  ghost function UntilLocksFull(h: seq<Message>, r: int32): seq<Message> {
    if h == [] || !LocksFilled(h[..|h| - 1], r) then h else UntilLocksFull(h[..|h| - 1], r)
  }

  /** The commands up to and including the one that names the 1024th uid to whitelist for. */
  ghost function UntilListFull(h: seq<Message>, r: int32): seq<Message> {
    if h == [] || !ListFilled(h[..|h| - 1], r) then h else UntilListFull(h[..|h| - 1], r)
  }

  lemma {:induction false} PolicyFrozenByHistory(h: seq<Message>, r: int32, u: uint32)
    ensures Frozen(PolicyRun(NOTHING, h), r, u) <==> LastIsLock(h, r, u)
    decreases |h|
  {
    if h != [] {
      var front, last := h[..|h| - 1], h[|h| - 1];
      PolicyFrozenByHistory(front, r, u);
      if last.cmd == NetlinkCmd(r, u, LOCK) {
        assert h[|h| - 1].cmd == NetlinkCmd(r, u, LOCK);
      } else if last.cmd != NetlinkCmd(r, u, UNLOCK) {
        if LastIsLock(front, r, u) {
          var i :| 0 <= i < |front| && front[i].cmd == NetlinkCmd(r, u, LOCK) &&
                   forall j | i < j < |front| :: front[j].cmd != NetlinkCmd(r, u, UNLOCK);
          assert forall j | i < j < |h| :: h[j] == if j < |front| then front[j] else last;
          assert h[i].cmd == NetlinkCmd(r, u, LOCK);
        }
        if LastIsLock(h, r, u) {
          var i :| 0 <= i < |h| && h[i].cmd == NetlinkCmd(r, u, LOCK) &&
                   forall j | i < j < |h| :: h[j].cmd != NetlinkCmd(r, u, UNLOCK);
          assert front[i] == h[i] && forall j | i < j < |front| :: front[j] == h[j];
        }
      }
    }
  }

  lemma {:induction false} PolicyAllowedByHistory(h: seq<Message>, r: int32, u: uint32, text: CText)
    ensures (r, u, text) in PolicyRun(NOTHING, h).allowed <==>
            HasWhitelist(r) && Message(NetlinkCmd(r, u, WHITELIST), text) in h
    decreases |h|
  {
    if h != [] {
      PolicyAllowedByHistory(h[..|h| - 1], r, u, text);
      assert h == h[..|h| - 1] + [h[|h| - 1]];
    }
  }

  lemma PolicyPermitsByHistory(h: seq<Message>, r: int32, u: uint32, requested: CText)
    ensures Permits(PolicyRun(NOTHING, h), r, u, requested) <==> WhitelistedEver(h, r, u, requested)
  {
  }

  lemma EmptyIsWellFormed()
    ensures WellFormed(EMPTY) && PolicyOf(EMPTY) == NOTHING
  {
  }

  /// When the tables fill

  lemma {:induction false} LockedWereLocked(t: Tables, h: seq<Message>, r: int32, x: int32)
    requires WellFormed(t) && x in Run(t, h).Locked(r)
    ensures x in t.Locked(r) || AsUnsigned(x) in LockedUids(h, r)
    decreases |h|
  {
    if h != [] {
      var front, last := h[..|h| - 1], h[|h| - 1];
      RunKeepsWellFormed(t, front);
      assert HasLockTable(r);
      assert LockedUids(front, r) <= LockedUids(h, r) by {
        assert forall i | 0 <= i < |front| :: front[i] == h[i];
      }
      if x in Run(t, front).Locked(r) {
        LockedWereLocked(t, front, r, x);
      } else {
        RemovedIsExact(Run(t, front).Locked(r), AsSigned(last.cmd.uid));
        assert last.cmd.resource == r && last.cmd.action == LOCK && x == AsSigned(last.cmd.uid);
        assert h[|h| - 1].cmd.uid in LockedUids(h, r);
      }
    }
  }

  lemma {:induction false} BucketsWereWhitelisted(t: Tables, h: seq<Message>, r: int32, k: nat)
    requires k < |Run(t, h).Listed(r)|
    ensures (k < |t.Listed(r)| && Run(t, h).Listed(r)[k].uid == t.Listed(r)[k].uid) ||
            Run(t, h).Listed(r)[k].uid in WhitelistedUids(h, r)
    decreases |h|
  {
    if h != [] {
      var front, last := h[..|h| - 1], h[|h| - 1];
      assert WhitelistedUids(front, r) <= WhitelistedUids(h, r) by {
        assert forall i | 0 <= i < |front| :: front[i] == h[i];
      }
      var before := Run(t, front).Listed(r);
      StoreKeepsBuckets(before, last.cmd.uid, last.text);
      if k < |before| {
        BucketsWereWhitelisted(t, front, r, k);
      } else {
        assert last.cmd.resource == r && last.cmd.action == WHITELIST;
        assert h[|h| - 1].cmd.uid in WhitelistedUids(h, r);
      }
    }
  }

  lemma LeftLockedIsLocked(h: seq<Message>, r: int32, u: uint32)
    ensures u in LeftLocked(h, r) <==> LastIsLock(h, r, u)
  {
    if LastIsLock(h, r, u) {
      var i :| 0 <= i < |h| && h[i].cmd == NetlinkCmd(r, u, LOCK);
      assert h[i].cmd.uid in LockedUids(h, r);
    }
  }

  lemma LockedFromEmpty(h: seq<Message>, r: int32, u: uint32)
    requires h != [] ==> |Run(EMPTY, h[..|h| - 1]).Locked(r)| < MAX_SIZE_ARRAY
    ensures u in UidsOf(Run(EMPTY, h).Locked(r)) <==> u in LeftLocked(h, r)
  {
    EmptyIsWellFormed();
    LocksFollowPolicy(EMPTY, h, r, u);
    PolicyFrozenByHistory(h, r, u);
    LeftLockedIsLocked(h, r, u);
    InUidsOf(Run(EMPTY, h).Locked(r), u);
  }

  /** Up to and including the command that fills it, a uid table has one slot per uid left
      locked. */
  lemma {:induction false} LockCount(h: seq<Message>, r: int32)
    requires h != [] ==> |Run(EMPTY, h[..|h| - 1]).Locked(r)| < MAX_SIZE_ARRAY
    ensures |Run(EMPTY, h).Locked(r)| == |LeftLocked(h, r)|
  {
    EmptyIsWellFormed();
    RunKeepsWellFormed(EMPTY, h);
    var s := Run(EMPTY, h).Locked(r);
    assert Distinct(s) by {
      assert !HasLockTable(r) ==> s == [];
    }
    forall u: uint32
      ensures u in UidsOf(s) <==> u in LeftLocked(h, r)
    {
      LockedFromEmpty(h, r, u);
    }
    UidCount(s);
    assert UidsOf(s) == LeftLocked(h, r);
  }

  lemma {:induction false} LocksFilledOneMore(h: seq<Message>, r: int32)
    requires h != []
    ensures LocksFilled(h, r) <==> LocksFilled(h[..|h| - 1], r) || |LeftLocked(h, r)| >= MAX_SIZE_ARRAY
  {
    var front := h[..|h| - 1];
    assert h[..|h|] == h;
    assert forall n | 0 <= n <= |front| :: front[..n] == h[..n];
  }

  /** When a uid table is full: exactly when, at some point of the history, 1024 uids were
      left locked. */
  lemma {:induction false} LocksFilledIff(h: seq<Message>, r: int32)
    ensures |Run(EMPTY, h).Locked(r)| >= MAX_SIZE_ARRAY <==> LocksFilled(h, r)
    decreases |h|
  {
    if h == [] {
      assert forall n | 0 <= n <= |h| :: LeftLocked(h[..n], r) == {};
    } else {
      var front := h[..|h| - 1];
      LocksFilledIff(front, r);
      LocksFilledOneMore(h, r);
      RoomBefore(EMPTY, h, r);
      if |Run(EMPTY, front).Locked(r)| < MAX_SIZE_ARRAY {
        LockCount(h, r);
      }
    }
  }

  /** At most 1023 distinct uids in LOCK commands keep a uid table from filling, however
      often and in whatever order the commands come. */
  lemma FewLockedUidsKeepOpen(h: seq<Message>, r: int32)
    requires |LockedUids(h, r)| < MAX_SIZE_ARRAY
    ensures |Run(EMPTY, h).Locked(r)| < MAX_SIZE_ARRAY
  {
    EmptyIsWellFormed();
    RunKeepsWellFormed(EMPTY, h);
    var s := Run(EMPTY, h).Locked(r);
    forall x | x in s
      ensures AsUnsigned(x) in LockedUids(h, r)
    {
      LockedWereLocked(EMPTY, h, r, x);
    }
    assert Distinct(s) by {
      assert !HasLockTable(r) ==> s == [];
    }
    UidCount(s);
    SubsetCount(UidsOf(s), LockedUids(h, r));
  }

  lemma BucketsAreWhitelisted(h: seq<Message>, r: int32)
    ensures BucketUids(Run(EMPTY, h).Listed(r)) <= WhitelistedUids(h, r)
  {
    var es := Run(EMPTY, h).Listed(r);
    forall k | 0 <= k < |es|
      ensures es[k].uid in WhitelistedUids(h, r)
    {
      BucketsWereWhitelisted(EMPTY, h, r, k);
    }
  }

  lemma WhitelistedHaveBuckets(h: seq<Message>, r: int32)
    requires HasWhitelist(r) && |Run(EMPTY, h).Listed(r)| < MAX_SIZE_ARRAY
    ensures WhitelistedUids(h, r) <= BucketUids(Run(EMPTY, h).Listed(r))
  {
    var es := Run(EMPTY, h).Listed(r);
    if h != [] {
      RoomBefore(EMPTY, h, r);
    }
    EmptyIsWellFormed();
    forall u | u in WhitelistedUids(h, r)
      ensures u in BucketUids(es)
    {
      var i :| 0 <= i < |h| && h[i].cmd == NetlinkCmd(r, u, WHITELIST);
      assert Message(NetlinkCmd(r, u, WHITELIST), h[i].text) in h;
      PolicyAllowedByHistory(h, r, u, h[i].text);
      ListsFollowPolicy(EMPTY, h, r, u, h[i].text);
      assert Holds(es, u, h[i].text);
    }
  }

  /** A whitelist has one bucket per uid whitelisted for, up to 1024. */
  lemma {:induction false} BucketCount(h: seq<Message>, r: int32)
    requires HasWhitelist(r)
    ensures |Run(EMPTY, h).Listed(r)| ==
            if ListFilled(h, r) then MAX_SIZE_ARRAY else |WhitelistedUids(h, r)|
  {
    EmptyIsWellFormed();
    RunKeepsWellFormed(EMPTY, h);
    var es := Run(EMPTY, h).Listed(r);
    BucketUidCount(es);
    BucketsAreWhitelisted(h, r);
    SubsetCount(BucketUids(es), WhitelistedUids(h, r));
    if |es| < MAX_SIZE_ARRAY {
      WhitelistedHaveBuckets(h, r);
      assert BucketUids(es) == WhitelistedUids(h, r);
    }
  }

  /** So it is full exactly when 1024 uids were named in WHITELIST commands. */
  lemma {:induction false} ListFilledIff(h: seq<Message>, r: int32)
    ensures |Run(EMPTY, h).Listed(r)| >= MAX_SIZE_ARRAY <==> ListFilled(h, r)
  {
    if HasWhitelist(r) {
      BucketCount(h, r);
    }
  }

  /** At most 1023 distinct uids in WHITELIST commands keep a whitelist from filling. */
  lemma {:induction false} FewWhitelistedUidsKeepOpen(h: seq<Message>, r: int32)
    requires |WhitelistedUids(h, r)| < MAX_SIZE_ARRAY
    ensures |Run(EMPTY, h).Listed(r)| < MAX_SIZE_ARRAY
  {
    ListFilledIff(h, r);
  }

  lemma {:induction false} LocksStopWhenFull(h: seq<Message>, r: int32)
    ensures Run(EMPTY, UntilLocksFull(h, r)).Locked(r) == Run(EMPTY, h).Locked(r)
    ensures |Run(EMPTY, h).Locked(r)| < MAX_SIZE_ARRAY ==> UntilLocksFull(h, r) == h
    ensures var k := UntilLocksFull(h, r); k != [] ==> |Run(EMPTY, k[..|k| - 1]).Locked(r)| < MAX_SIZE_ARRAY
    decreases |h|
  {
    if h != [] {
      var front := h[..|h| - 1];
      RoomBefore(EMPTY, h, r);
      LocksFilledIff(front, r);
      if |Run(EMPTY, front).Locked(r)| >= MAX_SIZE_ARRAY {
        LocksStopWhenFull(front, r);
        FullIsAbsorbing(Run(EMPTY, front), [h[|h| - 1]], r);
        RunOne(Run(EMPTY, front), h[|h| - 1]);
      }
    }
  }

  lemma {:induction false} ListStopsWhenFull(h: seq<Message>, r: int32)
    ensures Run(EMPTY, UntilListFull(h, r)).Listed(r) == Run(EMPTY, h).Listed(r)
    ensures |Run(EMPTY, h).Listed(r)| < MAX_SIZE_ARRAY ==> UntilListFull(h, r) == h
    ensures var k := UntilListFull(h, r); k != [] ==> |Run(EMPTY, k[..|k| - 1]).Listed(r)| < MAX_SIZE_ARRAY
    decreases |h|
  {
    if h != [] {
      var front := h[..|h| - 1];
      RoomBefore(EMPTY, h, r);
      ListFilledIff(front, r);
      if |Run(EMPTY, front).Listed(r)| >= MAX_SIZE_ARRAY {
        ListStopsWhenFull(front, r);
        FullIsAbsorbing(Run(EMPTY, front), [h[|h| - 1]], r);
        RunOne(Run(EMPTY, front), h[|h| - 1]);
      }
    }
  }

  /// What a bucket holds

  /** The strings whitelisted for (r, u), in order, repeats included. */
  function TextsFor(h: seq<Message>, r: int32, u: uint32): seq<CText> {
    if h == [] then []
    else
      var front, last := TextsFor(h[..|h| - 1], r, u), h[|h| - 1];
      if last.cmd == NetlinkCmd(r, u, WHITELIST) then front + [last.text] else front
  }

  lemma TextsOfOne(m: Message, r: int32, u: uint32)
    ensures TextsFor([m], r, u) ==
            if m.cmd.resource == r && m.cmd.uid == u && m.cmd.action == 3 then [m.text] else []
  {
    assert [m][..0] == [];
  }

  lemma {:induction false} TextsAppend(h: seq<Message>, k: seq<Message>, r: int32, u: uint32)
    ensures TextsFor(h + k, r, u) == TextsFor(h, r, u) + TextsFor(k, r, u)
    decreases |k|
  {
    if k == [] {
      assert h + k == h;
    } else {
      assert (h + k)[..|h + k| - 1] == h + k[..|k| - 1];
      TextsAppend(h, k[..|k| - 1], r, u);
    }
  }

  lemma {:induction false} UntilListFullOneMore(h: seq<Message>, m: Message, r: int32)
    ensures UntilListFull(h + [m], r) ==
            if |Run(EMPTY, h).Listed(r)| < MAX_SIZE_ARRAY then h + [m] else UntilListFull(h, r)
    ensures |Run(EMPTY, h).Listed(r)| < MAX_SIZE_ARRAY ==> UntilListFull(h, r) == h
  {
    assert (h + [m])[..|h|] == h;
    ListFilledIff(h, r);
    ListStopsWhenFull(h, r);
  }

  /** In every state, the bucket of a uid holds the strings whitelisted for it until the table
      was full, in the order they came. */
  lemma {:induction false} BucketInEveryState(h: seq<Message>, r: int32, u: uint32)
    requires HasWhitelist(r)
    ensures StringsOf(Run(EMPTY, h).Listed(r), u) == TextsFor(UntilListFull(h, r), r, u)
    decreases |h|
  {
    if h != [] {
      var front, last := h[..|h| - 1], h[|h| - 1];
      assert h == front + [last];
      UntilListFullOneMore(front, last, r);
      BucketInEveryState(front, r, u);
      BucketOneMore(front, last, r, u);
    }
  }

  lemma {:induction false} BucketOneMore(h: seq<Message>, m: Message, r: int32, u: uint32)
    requires HasWhitelist(r)
    ensures StringsOf(Run(EMPTY, h + [m]).Listed(r), u) ==
            StringsOf(Run(EMPTY, h).Listed(r), u) +
            if |Run(EMPTY, h).Listed(r)| < MAX_SIZE_ARRAY && m.cmd == NetlinkCmd(r, u, WHITELIST) then [m.text] else []
  {
    var es := Run(EMPTY, h).Listed(r);
    assert (h + [m])[..|h|] == h;
    if |es| < MAX_SIZE_ARRAY {
      StringsAfterStore(es, m.cmd.uid, m.text, u);
    }
  }

  lemma {:induction false} TextsGrowOne(h: seq<Message>, m: Message, r: int32, u: uint32)
    ensures TextsFor(UntilListFull(h, r), r, u) <= TextsFor(UntilListFull(h + [m], r), r, u)
  {
    UntilListFullOneMore(h, m, r);
    assert (h + [m])[..|h|] == h;
  }

  /** Later commands only append to a bucket. */
  lemma {:induction false} TextsOnlyGrow(h: seq<Message>, k: seq<Message>, r: int32, u: uint32)
    ensures TextsFor(UntilListFull(h, r), r, u) <= TextsFor(UntilListFull(h + k, r), r, u)
    decreases |k|
  {
    if k == [] {
      assert h + k == h;
    } else {
      var front, last := k[..|k| - 1], k[|k| - 1];
      TextsOnlyGrow(h, front, r, u);
      TextsGrowOne(h + front, last, r, u);
      assert h + front + [last] == h + k;
    }
  }
}
