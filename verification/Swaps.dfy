/** The order of commands: which pairs can be swapped, exactly, in the bounded tables, and
    when a later call can tell. */
module Swaps {
  import opened CTypes
  import opened LockTables
  import opened Whitelists
  import opened Commands
  import opened Policies
  import opened Observations

  /** One locks and the other unlocks the same user for the same resource. */
  predicate Opposed(a: NetlinkCmd, b: NetlinkCmd) {
    && a.resource == b.resource && a.uid == b.uid && HasLockTable(a.resource)
    && ((a.action == LOCK && b.action == UNLOCK) || (a.action == UNLOCK && b.action == LOCK))
  }

  /** In the unbounded policy, two commands commute exactly when they are not opposed. */
  lemma PolicyCommutesIff(p: Policy, a: Message, b: Message)
    ensures PolicyStep(PolicyStep(p, a), b) == PolicyStep(PolicyStep(p, b), a) <==> !Opposed(a.cmd, b.cmd)
  {
  }

  /// One uid table

  /** The command takes the uid in. */
  predicate TakesIn(s: seq<int32>, cmd: NetlinkCmd) {
    cmd.action == LOCK && AsSigned(cmd.uid) !in s
  }

  /** The command takes the uid in or out. */
  predicate Changes(s: seq<int32>, cmd: NetlinkCmd) {
    TakesIn(s, cmd) || (cmd.action == UNLOCK && AsSigned(cmd.uid) in s)
  }

  /** When two commands for one uid table end differently in the two orders: opposed ones,
      unless the table is full or fills up first; and, with one slot left, two that would
      both change it for different uids, one of them taking the slot. */
  predicate ClashInTable(s: seq<int32>, a: NetlinkCmd, b: NetlinkCmd) {
    || (Opposed(a, b) && (|s| < MAX_SIZE_ARRAY - 1 || (|s| == MAX_SIZE_ARRAY - 1 && AsSigned(a.uid) in s)))
    || (|s| == MAX_SIZE_ARRAY - 1 && a.uid != b.uid && Changes(s, a) && Changes(s, b) &&
        (TakesIn(s, a) || TakesIn(s, b)))
  }

  /** Members and size after one command for the table. */
  lemma OneCommand(s: seq<int32>, r: int32, cmd: NetlinkCmd)
    requires Distinct(s) && |s| <= MAX_SIZE_ARRAY && cmd.resource == r
    ensures var after := NextLocked(s, r, cmd);
            && Distinct(after)
            && |after| == |s| + (if |s| == MAX_SIZE_ARRAY || !Changes(s, cmd) then 0
                                 else if TakesIn(s, cmd) then 1 else -1)
            && forall x: int32 :: x in after <==>
                 if |s| < MAX_SIZE_ARRAY && x == AsSigned(cmd.uid) && Changes(s, cmd) then TakesIn(s, cmd) else x in s
  {
    AddedIsExact(s, AsSigned(cmd.uid));
    RemovedIsExact(s, AsSigned(cmd.uid));
  }

  lemma TableSwapIff(s: seq<int32>, a: NetlinkCmd, b: NetlinkCmd)
    requires Distinct(s) && |s| <= MAX_SIZE_ARRAY && a.resource == b.resource && HasLockTable(a.resource)
    ensures var r := a.resource;
            SameMembers(NextLocked(NextLocked(s, r, a), r, b), NextLocked(NextLocked(s, r, b), r, a)) <==>
            !ClashInTable(s, a, b)
  {
    var r := a.resource;
    var sa, sb := NextLocked(s, r, a), NextLocked(s, r, b);
    OneCommand(s, r, a);
    OneCommand(s, r, b);
    OneCommand(sa, r, b);
    OneCommand(sb, r, a);
    SignedUnsignedInverse(AsSigned(a.uid), b.uid);
    var sab, sba := NextLocked(sa, r, b), NextLocked(sb, r, a);
    assert AsSigned(a.uid) in sab || AsSigned(a.uid) !in sab;
    assert AsSigned(b.uid) in sab || AsSigned(b.uid) !in sab;
  }

  /// One whitelist

  predicate HasBucket(es: seq<Entry<CText>>, uid: uint32) {
    IndexOf(es, uid) < |es|
  }

  ghost predicate SameStrings(es: seq<Entry<CText>>, es': seq<Entry<CText>>) {
    forall u: uint32, text: CText :: Holds(es, u, text) <==> Holds(es', u, text)
  }

  /** When two WHITELIST commands for one table end differently in the two orders: with one
      slot left, different strings that are both new, one of them opening a bucket. */
  ghost predicate ClashInList(es: seq<Entry<CText>>, a: Message, b: Message) {
    && |es| == MAX_SIZE_ARRAY - 1
    && (a.cmd.uid != b.cmd.uid || a.text != b.text)
    && !Holds(es, a.cmd.uid, a.text) && !Holds(es, b.cmd.uid, b.text)
    && (!HasBucket(es, a.cmd.uid) || !HasBucket(es, b.cmd.uid))
  }

  lemma OneString(es: seq<Entry<CText>>, uid: uint32, item: CText)
    requires |es| <= MAX_SIZE_ARRAY
    ensures var after := Store(es, uid, item);
            && |after| == |es| + (if |es| == MAX_SIZE_ARRAY || HasBucket(es, uid) then 0 else 1)
            && forall u: uint32, text: CText :: Holds(after, u, text) <==>
                 Holds(es, u, text) || (|es| < MAX_SIZE_ARRAY && u == uid && text == item)
  {
    StoredAfter(es, uid, item);
  }

  lemma ListSwapIff(es: seq<Entry<CText>>, a: Message, b: Message)
    requires |es| <= MAX_SIZE_ARRAY
    ensures var ea, eb := Store(es, a.cmd.uid, a.text), Store(es, b.cmd.uid, b.text);
            SameStrings(Store(ea, b.cmd.uid, b.text), Store(eb, a.cmd.uid, a.text)) <==> !ClashInList(es, a, b)
  {
    var ea, eb := Store(es, a.cmd.uid, a.text), Store(es, b.cmd.uid, b.text);
    OneString(es, a.cmd.uid, a.text);
    OneString(es, b.cmd.uid, b.text);
    OneString(ea, b.cmd.uid, b.text);
    OneString(eb, a.cmd.uid, a.text);
    var eab, eba := Store(ea, b.cmd.uid, b.text), Store(eb, a.cmd.uid, a.text);
    assert Holds(eab, b.cmd.uid, b.text) || !Holds(eab, b.cmd.uid, b.text);
    assert Holds(eab, a.cmd.uid, a.text) || !Holds(eab, a.cmd.uid, a.text);
  }

  /** When lookups end up different in the two orders: with one slot left, different strings
      of which neither is accepted yet, one of them opening a bucket. */
  ghost predicate LookupsClash(es: seq<Entry<CText>>, a: Message, b: Message) {
    && |es| == MAX_SIZE_ARRAY - 1
    && (a.cmd.uid != b.cmd.uid || a.text != b.text)
    && !Accepts(es, a.cmd.uid, a.text) && !Accepts(es, b.cmd.uid, b.text)
    && (!HasBucket(es, a.cmd.uid) || !HasBucket(es, b.cmd.uid))
  }

  lemma AcceptsAfterTwo(es: seq<Entry<CText>>, a: Message, b: Message, u: uint32, s: CText)
    requires |es| <= MAX_SIZE_ARRAY
    ensures Accepts(Store(Store(es, a.cmd.uid, a.text), b.cmd.uid, b.text), u, s) <==>
            || Accepts(es, u, s)
            || (|es| < MAX_SIZE_ARRAY && u == a.cmd.uid && s <= a.text)
            || (|Store(es, a.cmd.uid, a.text)| < MAX_SIZE_ARRAY && u == b.cmd.uid && s <= b.text)
  {
    AcceptsAfter(es, a.cmd.uid, a.text, u, s);
    AcceptsAfter(Store(es, a.cmd.uid, a.text), b.cmd.uid, b.text, u, s);
  }

  lemma LookupsSwapIff(es: seq<Entry<CText>>, a: Message, b: Message)
    requires |es| <= MAX_SIZE_ARRAY
    ensures var ea, eb := Store(es, a.cmd.uid, a.text), Store(es, b.cmd.uid, b.text);
            SameLookups(Store(ea, b.cmd.uid, b.text), Store(eb, a.cmd.uid, a.text)) <==> !LookupsClash(es, a, b)
  {
    var ea, eb := Store(es, a.cmd.uid, a.text), Store(es, b.cmd.uid, b.text);
    var eab, eba := Store(ea, b.cmd.uid, b.text), Store(eb, a.cmd.uid, a.text);
    forall u: uint32, s: CText
      ensures Accepts(eab, u, s) <==> Accepts(es, u, s) || (|es| < MAX_SIZE_ARRAY && u == a.cmd.uid && s <= a.text) ||
                                      (|ea| < MAX_SIZE_ARRAY && u == b.cmd.uid && s <= b.text)
      ensures Accepts(eba, u, s) <==> Accepts(es, u, s) || (|es| < MAX_SIZE_ARRAY && u == b.cmd.uid && s <= b.text) ||
                                      (|eb| < MAX_SIZE_ARRAY && u == a.cmd.uid && s <= a.text)
    {
      AcceptsAfterTwo(es, a, b, u, s);
      AcceptsAfterTwo(es, b, a, u, s);
    }
    if LookupsClash(es, a, b) {
      assert a.text <= b.text && b.text <= a.text ==> a.text == b.text;
      assert Accepts(eab, b.cmd.uid, b.text) || !Accepts(eab, b.cmd.uid, b.text);
      assert Accepts(eab, a.cmd.uid, a.text) || !Accepts(eab, a.cmd.uid, a.text);
    }
  }

  /// All tables

  ghost predicate LocksClash(t: Tables, a: Message, b: Message) {
    var r := a.cmd.resource;
    b.cmd.resource == r && HasLockTable(r) && ClashInTable(t.Locked(r), a.cmd, b.cmd)
  }

  predicate BothWhitelist(a: Message, b: Message) {
    && b.cmd.resource == a.cmd.resource && HasWhitelist(a.cmd.resource)
    && a.cmd.action == WHITELIST && b.cmd.action == WHITELIST
  }

  ghost predicate ListsClash(t: Tables, a: Message, b: Message) {
    BothWhitelist(a, b) && ClashInList(t.Listed(a.cmd.resource), a, b)
  }

  /** When two commands end differently in the two orders. */
  ghost predicate Clash(t: Tables, a: Message, b: Message) {
    LocksClash(t, a, b) || ListsClash(t, a, b)
  }

  lemma SameFrozenIff(t: Tables, t': Tables)
    ensures PolicyOf(t).frozen == PolicyOf(t').frozen <==> forall r: int32 :: SameMembers(t.Locked(r), t'.Locked(r))
  {
    var p, p' := PolicyOf(t), PolicyOf(t');
    if p.frozen == p'.frozen {
      forall r: int32, x: int32
        ensures x in t.Locked(r) <==> x in t'.Locked(r)
      {
        SignedUnsignedInverse(x, 0);
        assert (r, AsUnsigned(x)) in p.frozen <==> (r, AsUnsigned(x)) in p'.frozen;
      }
    }
  }

  lemma SameAllowedIff(t: Tables, t': Tables)
    ensures PolicyOf(t).allowed == PolicyOf(t').allowed <==> forall r: int32 :: SameStrings(t.Listed(r), t'.Listed(r))
  {
    var p, p' := PolicyOf(t), PolicyOf(t');
    if p.allowed == p'.allowed {
      forall r: int32, u: uint32, text: CText
        ensures Holds(t.Listed(r), u, text) <==> Holds(t'.Listed(r), u, text)
      {
        assert (r, u, text) in p.allowed <==> (r, u, text) in p'.allowed;
      }
    }
  }

  lemma LocksSwapIff(t: Tables, a: Message, b: Message)
    requires WellFormed(t)
    ensures PolicyOf(Step(Step(t, a), b)).frozen == PolicyOf(Step(Step(t, b), a)).frozen <==> !LocksClash(t, a, b)
  {
    var ab, ba := Step(Step(t, a), b), Step(Step(t, b), a);
    var r := a.cmd.resource;
    SameFrozenIff(ab, ba);
    assert forall q: int32 | b.cmd.resource != r || q != r || !HasLockTable(r) :: ab.Locked(q) == ba.Locked(q);
    if b.cmd.resource == r && HasLockTable(r) {
      TableSwapIff(t.Locked(r), a.cmd, b.cmd);
      assert ab.Locked(r) == NextLocked(NextLocked(t.Locked(r), r, a.cmd), r, b.cmd);
      assert ba.Locked(r) == NextLocked(NextLocked(t.Locked(r), r, b.cmd), r, a.cmd);
      assert (forall q: int32 :: SameMembers(ab.Locked(q), ba.Locked(q))) <==> SameMembers(ab.Locked(r), ba.Locked(r));
    }
  }

  lemma ListsSwapIff(t: Tables, a: Message, b: Message)
    requires WellFormed(t)
    ensures PolicyOf(Step(Step(t, a), b)).allowed == PolicyOf(Step(Step(t, b), a)).allowed <==> !ListsClash(t, a, b)
  {
    var ab, ba := Step(Step(t, a), b), Step(Step(t, b), a);
    var r := a.cmd.resource;
    SameAllowedIff(ab, ba);
    assert forall q: int32 | q != r || !BothWhitelist(a, b) :: ab.Listed(q) == ba.Listed(q);
    if BothWhitelist(a, b) {
      ListSwapIff(t.Listed(r), a, b);
      assert ab.Listed(r) == Store(Store(t.Listed(r), a.cmd.uid, a.text), b.cmd.uid, b.text);
      assert ba.Listed(r) == Store(Store(t.Listed(r), b.cmd.uid, b.text), a.cmd.uid, a.text);
      assert (forall q: int32 :: SameStrings(ab.Listed(q), ba.Listed(q))) <==> SameStrings(ab.Listed(r), ba.Listed(r));
    }
  }

  /** Two commands commute, exactly when they do not clash. */
  lemma SwapIff(t: Tables, a: Message, b: Message)
    requires WellFormed(t)
    ensures PolicyOf(Step(Step(t, a), b)) == PolicyOf(Step(Step(t, b), a)) <==> !Clash(t, a, b)
  {
    LocksSwapIff(t, a, b);
    ListsSwapIff(t, a, b);
  }

  /// What later calls can tell

  /** When the answers end up different in the two orders. */
  ghost predicate AnswersClash(t: Tables, a: Message, b: Message) {
    LocksClash(t, a, b) || (BothWhitelist(a, b) && LookupsClash(t.Listed(a.cmd.resource), a, b))
  }

  lemma ResourceSwapIff(t: Tables, a: Message, b: Message, r: int32)
    requires WellFormed(t)
    ensures var ab, ba := Step(Step(t, a), b), Step(Step(t, b), a);
            && (SameMembers(ab.Locked(r), ba.Locked(r)) <==> !(r == a.cmd.resource && LocksClash(t, a, b)))
            && (SameLookups(ab.Listed(r), ba.Listed(r)) <==>
                !(r == a.cmd.resource && BothWhitelist(a, b) && LookupsClash(t.Listed(r), a, b)))
  {
    var ab, ba := Step(Step(t, a), b), Step(Step(t, b), a);
    if r == a.cmd.resource == b.cmd.resource && HasLockTable(r) {
      TableSwapIff(t.Locked(r), a.cmd, b.cmd);
      assert ab.Locked(r) == NextLocked(NextLocked(t.Locked(r), r, a.cmd), r, b.cmd);
      assert ba.Locked(r) == NextLocked(NextLocked(t.Locked(r), r, b.cmd), r, a.cmd);
    } else {
      assert ab.Locked(r) == ba.Locked(r);
    }
    if r == a.cmd.resource && BothWhitelist(a, b) {
      LookupsSwapIff(t.Listed(r), a, b);
      assert ab.Listed(r) == Store(Store(t.Listed(r), a.cmd.uid, a.text), b.cmd.uid, b.text);
      assert ba.Listed(r) == Store(Store(t.Listed(r), b.cmd.uid, b.text), a.cmd.uid, a.text);
    } else {
      assert ab.Listed(r) == ba.Listed(r);
    }
  }

  /** Two commands leave the same answers in both orders, exactly when their answers do not
      clash. */
  lemma AnswersSwapIff(t: Tables, a: Message, b: Message)
    requires WellFormed(t)
    ensures SameAnswers(Step(Step(t, a), b), Step(Step(t, b), a)) <==> !AnswersClash(t, a, b)
  {
    SameAnswersIff(Step(Step(t, a), b), Step(Step(t, b), a));
    forall r: int32
      ensures var ab, ba := Step(Step(t, a), b), Step(Step(t, b), a);
              && (SameMembers(ab.Locked(r), ba.Locked(r)) <==> !(r == a.cmd.resource && LocksClash(t, a, b)))
              && (SameLookups(ab.Listed(r), ba.Listed(r)) <==>
                  !(r == a.cmd.resource && BothWhitelist(a, b) && LookupsClash(t.Listed(r), a, b)))
    {
      ResourceSwapIff(t, a, b, r);
    }
    var r, ab, ba := a.cmd.resource, Step(Step(t, a), b), Step(Step(t, b), a);
    assert SameMembers(ab.Locked(r), ba.Locked(r)) <==> !LocksClash(t, a, b);
    assert SameLookups(ab.Listed(r), ba.Listed(r)) <==> !(BothWhitelist(a, b) && LookupsClash(t.Listed(r), a, b));
  }

  lemma RunTwo(t: Tables, a: Message, b: Message, k: seq<Message>)
    ensures Run(t, [a, b] + k) == Run(Step(Step(t, a), b), k)
  {
    RunAppend(t, [a, b], k);
    RunAppend(t, [a], [b]);
    assert [a] + [b] == [a, b];
    RunOne(t, a);
    RunOne(Step(t, a), b);
  }

  /** Two commands can be swapped at the head of every further run without changing an
      answer, exactly when their answers do not clash in the tables they meet. */
  lemma {:induction false} SwapIsSafeIff(t: Tables, a: Message, b: Message)
    requires WellFormed(t)
    ensures (forall k: seq<Message> :: SameAnswers(Run(t, [a, b] + k), Run(t, [b, a] + k))) <==>
            !AnswersClash(t, a, b)
  {
    AnswersSwapIff(t, a, b);
    if AnswersClash(t, a, b) {
      RunTwo(t, a, b, []);
      RunTwo(t, b, a, []);
      assert !SameAnswers(Run(t, [a, b] + []), Run(t, [b, a] + []));
    } else {
      WellFormedTwo(t, a, b);
      WellFormedTwo(t, b, a);
      forall k: seq<Message>
        ensures SameAnswers(Run(t, [a, b] + k), Run(t, [b, a] + k))
      {
        RunTwo(t, a, b, k);
        RunTwo(t, b, a, k);
        SameMeaningSameFuture(Step(Step(t, a), b), Step(Step(t, b), a), k);
      }
    }
  }

  lemma WellFormedTwo(t: Tables, a: Message, b: Message)
    requires WellFormed(t)
    ensures WellFormed(Step(Step(t, a), b))
  {
    StepKeepsWellFormed(t, a);
    StepKeepsWellFormed(Step(t, a), b);
  }

  /** So no system call after any further run can tell the order of commands whose answers do
      not clash. */
  lemma {:induction false} SwapIsUnobservable(t: Tables, a: Message, b: Message, k: seq<Message>, u: uint32,
                                              call: Syscall)
    requires WellFormed(t) && !AnswersClash(t, a, b)
    ensures Judge(PolicyOf(Run(t, [a, b] + k)), u, call) == Judge(PolicyOf(Run(t, [b, a] + k)), u, call)
  {
    SwapIsSafeIff(t, a, b);
    SameAnswersSameVerdict(Run(t, [a, b] + k), Run(t, [b, a] + k), u, call);
  }

  /** With one slot left, locking a new user and unlocking an old one clash: in one order
      the old user stays locked. */
  lemma SwapIsVisibleAtCapacity(t: Tables, r: int32, member: uint32, newcomer: uint32, a: Message, b: Message)
    requires WellFormed(t) && |t.Locked(r)| == MAX_SIZE_ARRAY - 1
    requires AsSigned(member) in t.Locked(r) && AsSigned(newcomer) !in t.Locked(r)
    requires a.cmd == NetlinkCmd(r, member, UNLOCK) && b.cmd == NetlinkCmd(r, newcomer, LOCK)
    ensures AsSigned(member) !in Step(Step(t, a), b).Locked(r)
    ensures AsSigned(member) in Step(Step(t, b), a).Locked(r)
  {
    SignedUnsignedInverse(AsSigned(member), newcomer);
    RemovedIsExact(t.Locked(r), AsSigned(member));
    StepKeepsWellFormed(t, a);
  }

  /// Full tables are reachable

  function Locking(r: int32, n: nat): seq<Message>
    requires n <= MAX_SIZE_ARRAY
  {
    if n == 0 then [] else Locking(r, n - 1) + [Message(NetlinkCmd(r, n - 1, LOCK), [])]
  }

  /** 0, 1, ..., n - 1 */
  function Numbers(n: nat): (s: seq<int32>)
    requires n <= MAX_SIZE_ARRAY
    ensures |s| == n && forall k | 0 <= k < n :: s[k] == k
  {
    seq(n, k requires 0 <= k < n => k)
  }

  lemma OneMoreLock(t: Tables, r: int32, n: nat)
    requires HasLockTable(r) && 0 < n <= MAX_SIZE_ARRAY && t.Locked(r) == Numbers(n - 1)
    ensures Step(t, Message(NetlinkCmd(r, n - 1, LOCK), [])).Locked(r) == Numbers(n)
  {
    assert Added(Numbers(n - 1), AsSigned(n - 1)) == Numbers(n);
  }

  /** From the loaded module, LOCKs of distinct uids fill a uid table slot by slot, up to
      all 1024. */
  lemma {:induction false} EveryLockCountIsReached(r: int32, n: nat)
    requires HasLockTable(r) && n <= MAX_SIZE_ARRAY
    ensures Run(EMPTY, Locking(r, n)).Locked(r) == Numbers(n)
  {
    if n > 0 {
      EveryLockCountIsReached(r, n - 1);
      var m := Message(NetlinkCmd(r, n - 1, LOCK), []);
      var before := Run(EMPTY, Locking(r, n - 1));
      OneMoreLock(before, r, n);
      RunAppend(EMPTY, Locking(r, n - 1), [m]);
      RunOne(before, m);
    }
  }

  function Whitelisting(r: int32, n: nat): seq<Message>
    requires n <= MAX_SIZE_ARRAY
  {
    if n == 0 then [] else Whitelisting(r, n - 1) + [Message(NetlinkCmd(r, n - 1, WHITELIST), [])]
  }

  const EMPTY_STRING: seq<CText> := [[]]

  /** One bucket with the empty string per number. */
  function Buckets(n: nat): (es: seq<Entry<CText>>)
    requires n <= MAX_SIZE_ARRAY
    ensures |es| == n && forall k | 0 <= k < n :: es[k] == Entry(k, EMPTY_STRING)
  {
    seq(n, k requires 0 <= k < n => Entry(k, EMPTY_STRING))
  }

  lemma OneMoreBucket(t: Tables, r: int32, n: nat)
    requires HasWhitelist(r) && 0 < n <= MAX_SIZE_ARRAY && t.Listed(r) == Buckets(n - 1)
    ensures Step(t, Message(NetlinkCmd(r, n - 1, WHITELIST), [])).Listed(r) == Buckets(n)
  {
    assert Store(Buckets(n - 1), n - 1, []) == Buckets(n);
  }

  /** And WHITELISTs for distinct uids fill a whitelist bucket by bucket. */
  lemma {:induction false} EveryBucketCountIsReached(r: int32, n: nat)
    requires HasWhitelist(r) && n <= MAX_SIZE_ARRAY
    ensures Run(EMPTY, Whitelisting(r, n)).Listed(r) == Buckets(n)
  {
    if n > 0 {
      EveryBucketCountIsReached(r, n - 1);
      var m := Message(NetlinkCmd(r, n - 1, WHITELIST), []);
      var before := Run(EMPTY, Whitelisting(r, n - 1));
      OneMoreBucket(before, r, n);
      RunAppend(EMPTY, Whitelisting(r, n - 1), [m]);
      RunOne(before, m);
    }
  }
}
