/** The mutable tables behind the policy: the globals of freezer/module/freezer_hook.c and
    the three branches of its dispatcher. */
module TableSets {
  import opened CTypes
  import opened LockTables
  import opened Whitelists
  import opened Commands
  import opened Policies
  import GrowableArray

  function TextsOf(items: seq<CString>): seq<CText> {
    seq(|items|, k requires 0 <= k < |items| => items[k].text)
  }

  /** The stored strings without their addresses. */
  function Texts(es: seq<Entry<CString>>): seq<Entry<CText>> {
    seq(|es|, i requires 0 <= i < |es| => Entry(es[i].uid, TextsOf(es[i].items)))
  }

  lemma TextsAfterStore(es: seq<Entry<CString>>, uid: uint32, item: CString)
    ensures Texts(Store(es, uid, item)) == Store(Texts(es), uid, item.text)
  {
    var k := IndexOf(es, uid);
    assert forall i | 0 <= i < |es| :: Texts(es)[i].uid == es[i].uid;
    assert IndexOf(Texts(es), uid) == k;
    if |es| < MAX_SIZE_ARRAY && k < |es| {
      assert TextsOf(es[k].items + [item]) == TextsOf(es[k].items) + [item.text];
    } else if |es| < MAX_SIZE_ARRAY {
      assert TextsOf([item]) == [item.text];
    }
  }

  /** What the lookup scans for is what the policy permits. */
  lemma LookupIsPermits(t: Tables, r: int32, u: uint32, es: seq<Entry<CString>>, requested: CText)
    requires t.Listed(r) == Texts(es)
    ensures Permits(PolicyOf(t), r, u, requested) <==>
            Admits(es, u, requested)
  {
    if Permits(PolicyOf(t), r, u, requested) {
      var text: CText :| (r, u, text) in PolicyOf(t).allowed && requested <= text;
      assert Holds(Texts(es), u, text);
      var i :| 0 <= i < |es| && Texts(es)[i].uid == u && text in TextsOf(es[i].items);
      var k :| 0 <= k < |es[i].items| && TextsOf(es[i].items)[k] == text;
      assert es[i].items[k].text == text;
    }
    if i, k :| 0 <= i < |es| && 0 <= k < |es[i].items| && es[i].uid == u && requested <= es[i].items[k].text {
      var text := es[i].items[k].text;
      assert TextsOf(es[i].items)[k] == text;
      assert Texts(es)[i].uid == u && text in Texts(es)[i].items;
      assert (r, u, text) in PolicyOf(t).allowed;
    }
  }

  ghost predicate HasRoom(lists: Lists, cmd: NetlinkCmd) {
    cmd.action == WHITELIST ==> BucketHasRoom(lists.Of(cmd.resource), cmd.uid)
  }

  lemma TextsHaveRoom(es: seq<Entry<CString>>, uid: uint32)
    requires BucketHasRoom(Texts(es), uid)
    ensures BucketHasRoom(es, uid)
  {
    forall i | |es| < MAX_SIZE_ARRAY && 0 <= i < |es| && es[i].uid == uid
      ensures |es[i].items| < GrowableArray.DEFAULT_LIMIT
    {
      assert Texts(es)[i].uid == uid;
    }
  }

  class LockSet {
    const files: LockTable
    const processes: LockTable
    const sockets: LockTable
    const sessions: LockTable

    ghost function Footprint(): set<object> {
      {files, files.slots, processes, processes.slots, sockets, sockets.slots, sessions, sessions.slots}
    }

    ghost predicate Valid()
      reads Footprint()
    {
      && files.Valid() && processes.Valid() && sockets.Valid() && sessions.Valid()
      && files != processes && files != sockets && files != sessions
      && processes != sockets && processes != sessions && sockets != sessions
      && files.slots != processes.slots && files.slots != sockets.slots && files.slots != sessions.slots
      && processes.slots != sockets.slots && processes.slots != sessions.slots && sockets.slots != sessions.slots
    }

    ghost function View(): Locks
      reads Footprint()
      requires Valid()
    {
      Locks(files.Live(), processes.Live(), sockets.Live(), sessions.Live())
    }

    constructor ()
      ensures Valid() && fresh(Footprint())
      ensures View() == EMPTY.locks
    {
      files := new LockTable();
      processes := new LockTable();
      sockets := new LockTable();
      sessions := new LockTable();
    }

    /** `freezer_call_wrapper`, `case LOCK` */
    method Lock(data: NetlinkCmd) returns (res: int)
      requires Valid() && data.action == LOCK
      modifies Footprint()
      ensures Valid() && View() == NextLocks(old(View()), data)
      ensures res == if Understood(data) then 0 else -1
    {
      if data.resource == FILE {
        var _ := files.Add(data.uid);
      } else if data.resource == PROCESS {
        var _ := processes.Add(data.uid);
      } else if data.resource == NETWORK {
        var _ := sockets.Add(data.uid);
      } else if data.resource == SESSIONS {
        var _ := sessions.Add(data.uid);
      } else {
        return -1;
      }
      return 0;
    }

    /** `freezer_call_wrapper`, `case UNLOCK` */
    method Unlock(data: NetlinkCmd) returns (res: int)
      requires Valid() && data.action == UNLOCK
      modifies Footprint()
      ensures Valid() && View() == NextLocks(old(View()), data)
      ensures res == if Understood(data) then 0 else -1
    {
      if data.resource == FILE {
        var _ := files.Remove(data.uid);
      } else if data.resource == PROCESS {
        var _ := processes.Remove(data.uid);
      } else if data.resource == NETWORK {
        var _ := sockets.Remove(data.uid);
      } else if data.resource == SESSIONS {
        var _ := sessions.Remove(data.uid);
      } else {
        return -1;
      }
      return 0;
    }
  }

  class WhitelistSet {
    const networks: WhitelistTable
    const files: WhitelistTable
    const processes: WhitelistTable

    ghost var Repr: set<object>

    /** The three whitelists are well formed and share nothing. */
    ghost predicate Shaped()
      reads this, Repr
      ensures Shaped() ==> this in Repr
    {
      && this in Repr
      && networks in Repr && networks.Repr <= Repr && this !in networks.Repr && networks.Valid()
      && files in Repr && files.Repr <= Repr && this !in files.Repr && files.Valid()
      && processes in Repr && processes.Repr <= Repr && this !in processes.Repr && processes.Valid()
      && networks.Repr !! files.Repr && networks.Repr !! processes.Repr && files.Repr !! processes.Repr
    }

    ghost predicate Valid()
      reads this, Repr
      ensures Valid() ==> this in Repr
    {
      Shaped() && OwnedOnce(networks.stored, files.stored, processes.stored)
    }

    /** No string object is stored twice in the three whitelists. */
    static ghost predicate OwnedOnce(n: seq<Entry<CString>>, f: seq<Entry<CString>>, p: seq<Entry<CString>>) {
      && NoAliases(n) && NoAliases(f) && NoAliases(p)
      && Separate(n, f) && Separate(n, p) && Separate(f, p)
    }

    ghost predicate StoresString(s: CString)
      reads networks, files, processes
    {
      Stores(networks.stored, s) || Stores(files.stored, s) || Stores(processes.stored, s)
    }

    ghost function View(): Lists
      reads networks, files, processes
    {
      Lists(Texts(files.stored), Texts(processes.stored), Texts(networks.stored))
    }

    constructor ()
      ensures Valid() && fresh(Repr)
      ensures View() == EMPTY.lists
    {
      networks := new WhitelistTable();
      files := new WhitelistTable();
      processes := new WhitelistTable();
      new;
      Repr := {this} + networks.Repr + files.Repr + processes.Repr;
    }

    /** `freezer_call_wrapper`, `case WHITELIST`, up to ownership. */
    method Put(data: NetlinkCmd, resourceData: CString) returns (res: int)
      requires Shaped()
      requires data.resource == FILE ==> BucketHasRoom(files.stored, data.uid)
      requires data.resource == PROCESS ==> BucketHasRoom(processes.stored, data.uid)
      requires data.resource == NETWORK ==> BucketHasRoom(networks.stored, data.uid)
      modifies Repr
      ensures Shaped() && fresh(Repr - old(Repr))
      ensures files.stored == StoredIf(data.resource == FILE, old(files.stored), data.uid, resourceData)
      ensures processes.stored == StoredIf(data.resource == PROCESS, old(processes.stored), data.uid, resourceData)
      ensures networks.stored == StoredIf(data.resource == NETWORK, old(networks.stored), data.uid, resourceData)
      ensures res == if HasWhitelist(data.resource) then 0 else -1
    {
      if data.resource == FILE {
        var _ := files.Add(resourceData, data.uid);
        Repr := Repr + files.Repr;
      } else if data.resource == PROCESS {
        var _ := processes.Add(resourceData, data.uid);
        Repr := Repr + processes.Repr;
      } else if data.resource == NETWORK {
        var _ := networks.Add(resourceData, data.uid);
        Repr := Repr + networks.Repr;
      } else {
        return -1;
      }
      return 0;
    }

    static ghost function StoredIf(here: bool, es: seq<Entry<CString>>, uid: uint32, s: CString): seq<Entry<CString>> {
      if here then Store(es, uid, s) else es
    }

    /** `freezer_call_wrapper`, `case WHITELIST` */
    method Whitelist(data: NetlinkCmd, resourceData: CString) returns (res: int)
      requires Valid() && data.action == WHITELIST
      requires HasRoom(View(), data) && !StoresString(resourceData)
      modifies Repr
      ensures Valid() && fresh(Repr - old(Repr))
      ensures View() == NextLists(old(View()), Message(data, resourceData.text))
      ensures res == if Understood(data) then 0 else -1
    {
      ghost var n, f, p := networks.stored, files.stored, processes.stored;
      if data.resource == FILE {
        TextsHaveRoom(f, data.uid);
      } else if data.resource == PROCESS {
        TextsHaveRoom(p, data.uid);
      } else if data.resource == NETWORK {
        TextsHaveRoom(n, data.uid);
      }
      res := Put(data, resourceData);
      TextsAfterStore(f, data.uid, resourceData);
      TextsAfterStore(p, data.uid, resourceData);
      TextsAfterStore(n, data.uid, resourceData);
      StoredSomewhere(n, f, p, networks.stored, files.stored, processes.stored, data.uid, resourceData);
    }

    /** Whichever whitelist a string goes to that is nowhere yet, each string stays stored
        once. */
    static lemma StoredSomewhere(n: seq<Entry<CString>>, f: seq<Entry<CString>>, p: seq<Entry<CString>>,
                                 n': seq<Entry<CString>>, f': seq<Entry<CString>>, p': seq<Entry<CString>>,
                                 uid: uint32, s: CString)
      requires OwnedOnce(n, f, p) && !Stores(n, s) && !Stores(f, s) && !Stores(p, s)
      requires || (n' == Store(n, uid, s) && f' == f && p' == p)
               || (n' == n && f' == Store(f, uid, s) && p' == p)
               || (n' == n && f' == f && p' == Store(p, uid, s))
               || (n' == n && f' == f && p' == p)
      ensures OwnedOnce(n', f', p')
    {
      if n' != n {
        StoreKeepsOwnership(n, uid, s);
        StoreKeepsSeparation(n, f, uid, s);
        StoreKeepsSeparation(n, p, uid, s);
      } else if f' != f {
        StoreKeepsOwnership(f, uid, s);
        SeparatedFromStore(n, f, uid, s);
        StoreKeepsSeparation(f, p, uid, s);
      } else if p' != p {
        StoreKeepsOwnership(p, uid, s);
        SeparatedFromStore(n, p, uid, s);
        SeparatedFromStore(f, p, uid, s);
      }
    }

    static lemma SeparatedFromStore(a: seq<Entry<CString>>, b: seq<Entry<CString>>, uid: uint32, s: CString)
      requires Separate(a, b) && !Stores(a, s)
      ensures Separate(a, Store(b, uid, s))
    {
      SeparateSymmetric(a, b);
      StoreKeepsSeparation(b, a, uid, s);
      SeparateSymmetric(Store(b, uid, s), a);
    }

    /** The storage of all three whitelists, as it is disposed of. */
    ghost function AllStorage(): seq<object>
      reads this, Repr
      requires Valid()
    {
      networks.Storage() + files.Storage() + processes.Storage()
    }

    /** The three `whitelist_dispose` calls of `reset_freezer_syscalls`: every stored
        string, every block in use and every array record is freed exactly once. */
    method DisposeAll() returns (freed: seq<object>)
      requires Valid()
      ensures freed == AllStorage() && NoRepeats(freed)
      ensures forall o: object :: o in freed <==> networks.Allocated(o) || files.Allocated(o) || processes.Allocated(o)
    {
      var n := networks.Dispose();
      var f := files.Dispose();
      var p := processes.Dispose();
      freed := n + f + p;
      NothingTwice();
      NothingForgotten(freed);
    }

    lemma NothingForgotten(freed: seq<object>)
      requires Valid() && freed == AllStorage()
      ensures forall o: object :: o in freed <==> networks.Allocated(o) || files.Allocated(o) || processes.Allocated(o)
    {
      networks.StorageIsAllocated();
      files.StorageIsAllocated();
      processes.StorageIsAllocated();
    }

    lemma NothingTwice()
      requires Valid()
      ensures NoRepeats(AllStorage())
    {
      StorageOnce(networks.stored, networks.allocations, networks.index);
      StorageOnce(files.stored, files.allocations, files.index);
      StorageOnce(processes.stored, processes.allocations, processes.index);
      NoSharedStorage(networks, files);
      NoSharedStorage(networks, processes);
      NoSharedStorage(files, processes);
      NoRepeatsConcat(networks.Storage(), files.Storage());
      NoRepeatsConcat(networks.Storage() + files.Storage(), processes.Storage());
    }

    static lemma NoSharedStorage(a: WhitelistTable, b: WhitelistTable)
      requires a.Valid() && b.Valid() && a.Repr !! b.Repr && Separate(a.stored, b.stored)
      ensures forall o: object | o in a.Storage() :: o !in b.Storage()
    {
      forall o: object | o in a.Storage()
        ensures o !in b.Storage()
      {
        StorageHolds(a.stored, a.allocations, a.index, o);
        StorageHolds(b.stored, b.allocations, b.index, o);
        var i :| 0 <= i < |a.stored| && o in BucketStorage(a.stored[i], a.allocations[i]);
        assert a.Live(i, a.stored[i], a.allocations[i]);
        forall j | 0 <= j < |b.stored|
          ensures o !in BucketStorage(b.stored[j], b.allocations[j])
        {
          assert b.Live(j, b.stored[j], b.allocations[j]);
          assert forall k | 0 <= k < |a.stored[i].items| :: !Stores(b.stored, a.stored[i].items[k]);
          DisjointBuckets(a.stored[i], a.allocations[i], b.stored[j], b.allocations[j], o);
        }
      }
    }
  }
}
