/** What system calls can find out about the tables. */
module Observations {
  import opened CTypes
  import opened LockTables
  import opened Whitelists
  import opened Commands
  import opened Policies
  import opened Runs

  /** A lookup of the string succeeds. */
  ghost predicate Accepts(es: seq<Entry<CText>>, u: uint32, s: CText) {
    exists text: CText :: Holds(es, u, text) && s <= text
  }

  ghost predicate SameMembers(s: seq<int32>, s': seq<int32>) {
    forall x: int32 :: x in s <==> x in s'
  }

  ghost predicate SameLookups(es: seq<Entry<CText>>, es': seq<Entry<CText>>) {
    forall u: uint32, s: CText :: Accepts(es, u, s) <==> Accepts(es', u, s)
  }

  /** Both freeze the same users and accept the same lookups, whatever strings they store in
      whatever order. */
  ghost predicate SameAnswers(t: Tables, t': Tables) {
    && (forall r: int32, u: uint32 :: Frozen(PolicyOf(t), r, u) <==> Frozen(PolicyOf(t'), r, u))
    && (forall r: int32, u: uint32, s: CText :: Permits(PolicyOf(t), r, u, s) <==> Permits(PolicyOf(t'), r, u, s))
  }

  lemma PermitsIsAccepts(t: Tables, r: int32, u: uint32, s: CText)
    ensures Permits(PolicyOf(t), r, u, s) <==> Accepts(t.Listed(r), u, s)
  {
    forall text: CText
      ensures (r, u, text) in PolicyOf(t).allowed <==> Holds(t.Listed(r), u, text)
    {
    }
  }

  lemma SameAnswersIff(t: Tables, t': Tables)
    ensures SameAnswers(t, t') <==>
            forall r: int32 :: SameMembers(t.Locked(r), t'.Locked(r)) && SameLookups(t.Listed(r), t'.Listed(r))
  {
    forall r: int32, u: uint32, s: CText
      ensures Permits(PolicyOf(t), r, u, s) <==> Accepts(t.Listed(r), u, s)
      ensures Permits(PolicyOf(t'), r, u, s) <==> Accepts(t'.Listed(r), u, s)
    {
      PermitsIsAccepts(t, r, u, s);
      PermitsIsAccepts(t', r, u, s);
    }
    forall r: int32
      ensures SameMembers(t.Locked(r), t'.Locked(r)) <==>
              forall u: uint32 :: Frozen(PolicyOf(t), r, u) <==> Frozen(PolicyOf(t'), r, u)
    {
      FrozenIsMembership(t, t', r);
    }
  }

  lemma FrozenIsMembership(t: Tables, t': Tables, r: int32)
    ensures SameMembers(t.Locked(r), t'.Locked(r)) <==>
            forall u: uint32 :: Frozen(PolicyOf(t), r, u) <==> Frozen(PolicyOf(t'), r, u)
  {
    if forall u: uint32 :: Frozen(PolicyOf(t), r, u) <==> Frozen(PolicyOf(t'), r, u) {
      forall x: int32
        ensures x in t.Locked(r) <==> x in t'.Locked(r)
      {
        SignedUnsignedInverse(x, 0);
        assert Frozen(PolicyOf(t), r, AsUnsigned(x)) <==> Frozen(PolicyOf(t'), r, AsUnsigned(x));
      }
    }
  }

  /// Tables that answer the same go on doing so

  lemma BucketUidsAreAccepted(es: seq<Entry<CText>>, u: uint32)
    requires Inhabited(es)
    ensures u in BucketUids(es) <==> Accepts(es, u, [])
  {
    if u in BucketUids(es) {
      var i :| 0 <= i < |es| && es[i].uid == u;
      assert Holds(es, u, es[i].items[0]);
    }
  }

  /** The answers give away how full the tables are. */
  lemma SameSizes(t: Tables, t': Tables, r: int32)
    requires WellFormed(t) && WellFormed(t')
    requires SameMembers(t.Locked(r), t'.Locked(r)) && SameLookups(t.Listed(r), t'.Listed(r))
    ensures |t.Locked(r)| == |t'.Locked(r)| && |t.Listed(r)| == |t'.Listed(r)|
  {
    var s, s', es, es' := t.Locked(r), t'.Locked(r), t.Listed(r), t'.Listed(r);
    if HasLockTable(r) {
      UidCount(s);
      UidCount(s');
      assert UidsOf(s) == UidsOf(s');
    }
    if HasWhitelist(r) {
      forall u: uint32
        ensures u in BucketUids(es) <==> u in BucketUids(es')
      {
        BucketUidsAreAccepted(es, u);
        BucketUidsAreAccepted(es', u);
      }
      BucketUidCount(es);
      BucketUidCount(es');
      assert BucketUids(es) == BucketUids(es');
    }
  }

  /** What one command does to the lookups. */
  lemma AcceptsAfter(es: seq<Entry<CText>>, uid: uint32, item: CText, u: uint32, s: CText)
    ensures Accepts(Store(es, uid, item), u, s) <==>
            Accepts(es, u, s) || (|es| < MAX_SIZE_ARRAY && u == uid && s <= item)
  {
    StoredAfter(es, uid, item);
    var after := Store(es, uid, item);
    if Accepts(es, u, s) {
      var text: CText :| Holds(es, u, text) && s <= text;
      assert Holds(after, u, text);
    }
    if |es| < MAX_SIZE_ARRAY && u == uid && s <= item {
      assert Holds(after, u, item);
    }
    if Accepts(after, u, s) {
      var text: CText :| Holds(after, u, text) && s <= text;
      assert Holds(es, u, text) || (|es| < MAX_SIZE_ARRAY && u == uid && text == item);
    }
  }

  lemma SameMembersNext(s: seq<int32>, s': seq<int32>, r: int32, cmd: NetlinkCmd)
    requires Distinct(s) && Distinct(s') && SameMembers(s, s') && |s| == |s'|
    ensures SameMembers(NextLocked(s, r, cmd), NextLocked(s', r, cmd))
  {
    AddedIsExact(s, AsSigned(cmd.uid));
    AddedIsExact(s', AsSigned(cmd.uid));
    RemovedIsExact(s, AsSigned(cmd.uid));
    RemovedIsExact(s', AsSigned(cmd.uid));
  }

  lemma SameLookupsNext(es: seq<Entry<CText>>, es': seq<Entry<CText>>, r: int32, m: Message)
    requires SameLookups(es, es') && |es| == |es'|
    ensures SameLookups(NextListed(es, r, m), NextListed(es', r, m))
  {
    forall u: uint32, s: CText
      ensures Accepts(NextListed(es, r, m), u, s) <==> Accepts(NextListed(es', r, m), u, s)
    {
      AcceptsAfter(es, m.cmd.uid, m.text, u, s);
      AcceptsAfter(es', m.cmd.uid, m.text, u, s);
    }
  }

  lemma SameAnswersStep(t: Tables, t': Tables, m: Message)
    requires WellFormed(t) && WellFormed(t') && SameAnswers(t, t')
    ensures SameAnswers(Step(t, m), Step(t', m))
  {
    SameAnswersIff(t, t');
    SameAnswersIff(Step(t, m), Step(t', m));
    forall r: int32
      ensures SameMembers(Step(t, m).Locked(r), Step(t', m).Locked(r))
      ensures SameLookups(Step(t, m).Listed(r), Step(t', m).Listed(r))
    {
      SameSizes(t, t', r);
      if HasLockTable(r) {
        SameMembersNext(t.Locked(r), t'.Locked(r), r, m.cmd);
      }
      SameLookupsNext(t.Listed(r), t'.Listed(r), r, m);
    }
  }

  /** Tables that answer the same, whatever they store in whatever order, do so after every
      further run, full or not. */
  lemma {:induction false} SameMeaningSameFuture(t: Tables, t': Tables, k: seq<Message>)
    requires WellFormed(t) && WellFormed(t') && SameAnswers(t, t')
    ensures SameAnswers(Run(t, k), Run(t', k))
    decreases |k|
  {
    if k != [] {
      var front := k[..|k| - 1];
      SameMeaningSameFuture(t, t', front);
      RunKeepsWellFormed(t, front);
      RunKeepsWellFormed(t', front);
      SameAnswersStep(Run(t, front), Run(t', front), k[|k| - 1]);
    }
  }

  /// What calls can tell apart

  /** After the run `k`, the call of `u` is judged differently. */
  ghost predicate Tells(t: Tables, t': Tables, k: seq<Message>, u: uint32, call: Syscall) {
    Judge(PolicyOf(Run(t, k)), u, call) != Judge(PolicyOf(Run(t', k)), u, call)
  }

  /** Some call tells the tables apart, at once or after further commands. */
  ghost predicate Distinguishable(t: Tables, t': Tables) {
    exists k: seq<Message>, u: uint32, call: Syscall :: Tells(t, t', k, u, call)
  }

  lemma SameAnswersSameVerdict(t: Tables, t': Tables, u: uint32, call: Syscall)
    requires SameAnswers(t, t')
    ensures Judge(PolicyOf(t), u, call) == Judge(PolicyOf(t'), u, call)
  {
  }

  lemma {:induction false} SameAnswersSameVerdicts(t: Tables, t': Tables)
    requires WellFormed(t) && WellFormed(t') && SameAnswers(t, t')
    ensures !Distinguishable(t, t')
  {
    forall k: seq<Message>, u: uint32, call: Syscall
      ensures !Tells(t, t', k, u, call)
    {
      SameMeaningSameFuture(t, t', k);
      SameAnswersSameVerdict(Run(t, k), Run(t', k), u, call);
    }
  }

  /** A call that looks the name up under the resource. */
  function CallOn(r: int32, name: CText): Syscall {
    if r == FILE then Write(Some(name)) else if r == PROCESS then Execve(Some(name)) else Connect(Inet(name))
  }

  lemma CallOnLooksUp(p: Policy, r: int32, u: uint32, name: CText)
    requires HasWhitelist(r)
    ensures Judge(p, u, CallOn(r, name)) == if Blocked(p, r, u, name) then Refuse else Pass
  {
  }

  lemma TooLongForBoth(t: Tables, t': Tables, r: int32, u: uint32) returns (name: CText)
    ensures !Permits(PolicyOf(t), r, u, name) && !Permits(PolicyOf(t'), r, u, name)
  {
    var es, es' := t.Listed(r), t'.Listed(r);
    name := Longer(es + es');
    assert forall i | 0 <= i < |es| :: (es + es')[i] == es[i];
    assert forall i | 0 <= i < |es'| :: (es + es')[|es| + i] == es'[i];
  }

  /** A user frozen in one of them only is told by a name that neither accepts. */
  lemma {:induction false} FrozenShows(t: Tables, t': Tables, r: int32, u: uint32)
    requires HasWhitelist(r) && !(Frozen(PolicyOf(t), r, u) <==> Frozen(PolicyOf(t'), r, u))
    ensures Distinguishable(t, t')
  {
    var name := TooLongForBoth(t, t', r, u);
    CallOnLooksUp(PolicyOf(t), r, u, name);
    CallOnLooksUp(PolicyOf(t'), r, u, name);
    assert Tells(t, t', [], u, CallOn(r, name));
  }

  /** For sessions, a user who is allowed the file of accounts, or some start of its name, is
      told by that. */
  lemma {:induction false} SessionShows(t: Tables, t': Tables, k: seq<Message>, u: uint32, name: CText)
    requires name <= PASSWD_FILE
    requires !(Frozen(PolicyOf(Run(t, k)), SESSIONS, u) <==> Frozen(PolicyOf(Run(t', k)), SESSIONS, u))
    requires !Blocked(PolicyOf(Run(t, k)), FILE, u, name) && !Blocked(PolicyOf(Run(t', k)), FILE, u, name)
    ensures Distinguishable(t, t')
  {
    assert Tells(t, t', k, u, Openat(Some(name)));
  }

  /** The user is frozen, or there is room to freeze them. */
  ghost predicate CanBeFrozen(t: Tables, r: int32, u: uint32) {
    |t.Locked(r)| < MAX_SIZE_ARRAY || AsSigned(u) in t.Locked(r)
  }

  lemma FreezeIfPossible(t: Tables, r: int32, u: uint32, s: CText)
    requires WellFormed(t) && HasWhitelist(r) && CanBeFrozen(t, r, u)
    ensures var after := Run(t, [Message(NetlinkCmd(r, u, LOCK), [])]);
            Judge(PolicyOf(after), u, CallOn(r, s)) == if Permits(PolicyOf(t), r, u, s) then Pass else Refuse
  {
    var m := Message(NetlinkCmd(r, u, LOCK), []);
    var after := Step(t, m);
    RunOne(t, m);
    FrozenAfterStep(t, m, r, u);
    assert after.Listed(r) == t.Listed(r);
    PermitsIsAccepts(t, r, u, s);
    PermitsIsAccepts(after, r, u, s);
    CallOnLooksUp(PolicyOf(after), r, u, s);
  }

  /** A string that only one of them accepts is told once the user is frozen. */
  lemma {:induction false} LookupShows(t: Tables, t': Tables, r: int32, u: uint32, s: CText)
    requires WellFormed(t) && WellFormed(t') && HasWhitelist(r) && CanBeFrozen(t, r, u) && CanBeFrozen(t', r, u)
    requires !(Permits(PolicyOf(t), r, u, s) <==> Permits(PolicyOf(t'), r, u, s))
    ensures Distinguishable(t, t')
  {
    FreezeIfPossible(t, r, u, s);
    FreezeIfPossible(t', r, u, s);
    assert Tells(t, t', [Message(NetlinkCmd(r, u, LOCK), [])], u, CallOn(r, s));
  }

  /** The uid tables whose users a hook looks up in a whitelist have room. */
  ghost predicate LocksOpen(t: Tables) {
    forall r | HasWhitelist(r) :: |t.Locked(r)| < MAX_SIZE_ARRAY
  }

  lemma SessionAfterThaw(t: Tables, u: uint32)
    requires WellFormed(t) && |t.Locked(FILE)| < MAX_SIZE_ARRAY
    ensures var after := PolicyOf(Run(t, [Message(NetlinkCmd(FILE, u, UNLOCK), [])]));
            !Frozen(after, FILE, u) && (Frozen(after, SESSIONS, u) <==> Frozen(PolicyOf(t), SESSIONS, u))
  {
    var m := Message(NetlinkCmd(FILE, u, UNLOCK), []);
    RunOne(t, m);
    FrozenAfterStep(t, m, FILE, u);
    assert Step(t, m).Locked(SESSIONS) == t.Locked(SESSIONS);
  }

  /** Frozen users and accepted strings are exactly what calls can find out about tables:
      no call, after any further run, tells them apart if and only if they agree on both. */
  lemma {:induction false} IndistinguishableIff(t: Tables, t': Tables)
    requires WellFormed(t) && WellFormed(t') && LocksOpen(t) && LocksOpen(t')
    ensures !Distinguishable(t, t') <==> SameAnswers(t, t')
  {
    if SameAnswers(t, t') {
      SameAnswersSameVerdicts(t, t');
    } else if r: int32, u: uint32 :| !(Frozen(PolicyOf(t), r, u) <==> Frozen(PolicyOf(t'), r, u)) {
      if r == SESSIONS {
        var m := Message(NetlinkCmd(FILE, u, UNLOCK), []);
        SessionAfterThaw(t, u);
        SessionAfterThaw(t', u);
        SessionShows(t, t', [m], u, PASSWD_FILE);
      } else {
        FrozenShows(t, t', r, u);
      }
    } else {
      var r: int32, u: uint32, s: CText :| !(Permits(PolicyOf(t), r, u, s) <==> Permits(PolicyOf(t'), r, u, s));
      LookupShows(t, t', r, u, s);
    }
  }
}
