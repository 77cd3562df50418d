/** The kernel module's state, its command dispatcher and its four hooks:
    freezer/module/freezer_hook.c. */
module Freezers {
  import opened CTypes
  import opened Whitelists
  import opened Commands
  import opened Policies
  import opened TableSets

  /** An entry of the system call table. */
  datatype Handler =
    | NoHandler
    | Kernel(address: nat)
    | HookedOpenat
    | HookedWrite
    | HookedExecve
    | HookedConnect

  /// System call numbers of x86-64

  const NR_WRITE := 1
  const NR_CONNECT := 42
  const NR_EXECVE := 59
  const NR_GETUID := 102
  const NR_OPENAT := 257

  /** A hook returns on its own, hands the call on, or faults. */
  datatype Outcome = Returned(code: int) | Forwarded(handler: Handler) | Faulted

  function OutcomeOf(judgement: Judgement, call: Syscall, original: Handler): Outcome {
    match judgement
    case Pass => Forwarded(original)
    case Refuse => Returned(RefusalCode(call))
    case Fault => Faulted
  }

  /** The four entries that are hooked. */
  const HOOKED: set<int> := {NR_OPENAT, NR_WRITE, NR_EXECVE, NR_CONNECT}

  /** The table with the four hooks in place and every other entry as it was. */
  ghost predicate IsHooked(now: seq<Handler>, before: seq<Handler>) {
    && |now| == |before| && NR_OPENAT < |before|
    && now[NR_OPENAT] == HookedOpenat && now[NR_WRITE] == HookedWrite
    && now[NR_EXECVE] == HookedExecve && now[NR_CONNECT] == HookedConnect
    && forall n | 0 <= n < |before| && n !in HOOKED :: now[n] == before[n]
  }

  /** The five entries the module saves. */
  ghost predicate Complete(before: seq<Handler>) {
    && NR_OPENAT < |before|
    && before[NR_WRITE] != NoHandler && before[NR_EXECVE] != NoHandler && before[NR_GETUID] != NoHandler
    && before[NR_CONNECT] != NoHandler && before[NR_OPENAT] != NoHandler
  }

  /** The number a call is made by. */
  function NumberOf(call: Syscall): nat {
    match call
    case Execve(_) => 59
    case Connect(_) => 42
    case Write(_) => 1
    case Openat(_) => 257
  }

  /** Where a call goes that its hook lets pass. */
  function OriginalOf(before: seq<Handler>, call: Syscall): Handler
    requires NR_OPENAT < |before|
  {
    match call
    case Execve(_) => before[NR_EXECVE]
    case Connect(_) => before[NR_CONNECT]
    case Write(_) => before[NR_WRITE]
    case Openat(_) => before[NR_OPENAT]
  }

  /** The system call table and the entries saved from it. */
  class SyscallHooks {
    const sysCallTable: array<Handler>
    var originalGetuid: Handler
    var originalExecve: Handler
    var originalWrite: Handler
    var originalOpenat: Handler
    var originalConnect: Handler

    constructor (sysCallTable: array<Handler>)
      ensures this.sysCallTable == sysCallTable
    {
      this.sysCallTable := sysCallTable;
      originalGetuid, originalExecve, originalWrite := NoHandler, NoHandler, NoHandler;
      originalOpenat, originalConnect := NoHandler, NoHandler;
    }

    /** The hooks are in the table and the entries they replaced are saved. */
    ghost predicate Installed(before: seq<Handler>)
      reads this, sysCallTable
    {
      && Complete(before) && IsHooked(sysCallTable[..], before)
      && originalGetuid == before[NR_GETUID]
      && originalExecve == before[NR_EXECVE] && originalWrite == before[NR_WRITE]
      && originalOpenat == before[NR_OPENAT] && originalConnect == before[NR_CONNECT]
    }

    /** `init_freezer_syscalls`: all four hooks or none. */
    method Init() returns (res: int)
      requires NR_OPENAT < sysCallTable.Length
      modifies this, sysCallTable
      ensures res == if Complete(old(sysCallTable[..])) then 0 else -1
      ensures res == 0 ==> Installed(old(sysCallTable[..]))
      ensures res == -1 <==> exists n | n in {1, 42, 59, 102, 257} :: old(sysCallTable[..])[n] == NoHandler
      ensures res == 0 ==> sysCallTable[1] == HookedWrite && sysCallTable[42] == HookedConnect &&
                           sysCallTable[59] == HookedExecve && sysCallTable[257] == HookedOpenat
      ensures forall n | 0 <= n < sysCallTable.Length && n !in {1, 42, 59, 257} ::
                sysCallTable[n] == old(sysCallTable[n])
      ensures res != 0 ==> sysCallTable[..] == old(sysCallTable[..])
    {
      originalOpenat := sysCallTable[NR_OPENAT];
      originalWrite := sysCallTable[NR_WRITE];
      originalExecve := sysCallTable[NR_EXECVE];
      originalGetuid := sysCallTable[NR_GETUID];
      originalConnect := sysCallTable[NR_CONNECT];

      if originalWrite == NoHandler || originalExecve == NoHandler || originalGetuid == NoHandler ||
         originalConnect == NoHandler || originalOpenat == NoHandler {
        return -1;
      }

      sysCallTable[NR_OPENAT] := HookedOpenat;
      sysCallTable[NR_WRITE] := HookedWrite;
      sysCallTable[NR_EXECVE] := HookedExecve;
      sysCallTable[NR_CONNECT] := HookedConnect;
      return 0;
    }

    /** The table half of `reset_freezer_syscalls`: whatever `Init` found is back. */
    method Reset(ghost before: seq<Handler>)
      requires Installed(before)
      modifies sysCallTable
      ensures sysCallTable[..] == before
    {
      sysCallTable[NR_OPENAT] := originalOpenat;
      sysCallTable[NR_WRITE] := originalWrite;
      sysCallTable[NR_EXECVE] := originalExecve;
      sysCallTable[NR_CONNECT] := originalConnect;
    }
  }

  class Freezer {
    const locks: LockSet
    const lists: WhitelistSet

    const hooks: SyscallHooks

    ghost var Repr: set<object>
    ghost var state: Tables  // what the tables hold

    ghost predicate Valid()
      reads this, Repr
      ensures Valid() ==> this in Repr
    {
      && this in Repr
      && locks.Footprint() <= Repr && this !in locks.Footprint() && locks.Valid()
      && lists in Repr && lists.Repr <= Repr && this !in lists.Repr && lists.Valid()
      && locks.Footprint() !! lists.Repr
      && state == Tables(locks.View(), lists.View())
      && hooks !in Repr && hooks.sysCallTable !in Repr && NR_OPENAT < hooks.sysCallTable.Length
    }

    /** The module's globals, put together. */
    constructor (locks: LockSet, lists: WhitelistSet, hooks: SyscallHooks)
      requires locks.Valid() && lists.Valid() && locks.Footprint() !! lists.Repr
      requires hooks !in lists.Repr && hooks.sysCallTable !in locks.Footprint() + lists.Repr
      requires NR_OPENAT < hooks.sysCallTable.Length
      ensures Valid() && Repr == {this} + locks.Footprint() + lists.Repr
      ensures state == Tables(locks.View(), lists.View()) && this.hooks == hooks
    {
      this.locks, this.lists, this.hooks := locks, lists, hooks;
      Repr := {this} + locks.Footprint() + lists.Repr;
      state := Tables(locks.View(), lists.View());
    }

    /** `freezer_call_wrapper` */
    method CallWrapper(data: NetlinkCmd, resourceData: CString) returns (res: int)
      requires Valid() && HasRoom(state.lists, data) && !lists.StoresString(resourceData)
      modifies Repr
      ensures Valid() && fresh(Repr - old(Repr))
      ensures state == Step(old(state), Message(data, resourceData.text))
      ensures res == if Understood(data) then 0 else -1
      ensures res == 0 <==> ((data.action == 1 || data.action == 2) && 1 <= data.resource <= 4) ||
                            (data.action == 3 && 1 <= data.resource <= 3)
    {
      if data.action == LOCK {
        res := locks.Lock(data);
      } else if data.action == UNLOCK {
        res := locks.Unlock(data);
      } else if data.action == WHITELIST {
        res := lists.Whitelist(data, resourceData);
        Repr := Repr + lists.Repr;
      } else {
        res := -1;
      }
      state := Tables(locks.View(), lists.View());
    }

    /** `hooked_execve`: `name` is what could be copied from user memory. */
    method HookedExecve(origUid: int32, name: Option<CText>) returns (outcome: Outcome)
      requires Valid()
      ensures outcome == OutcomeOf(Judge(PolicyOf(state), AsUnsigned(origUid), Execve(name)), Execve(name),
                                   hooks.originalExecve)
      ensures outcome == if origUid in locks.processes.Live() && name.Some? &&
                            !Admits(lists.processes.stored, AsUnsigned(origUid), name.value) then Returned(-1)
                         else Forwarded(hooks.originalExecve)
    {
      SignedUnsignedInverse(origUid, 0);
      var hooked := locks.processes.IsHookedUser(origUid);
      if hooked {
        var res := 0;
        if name.Some? {
          LookupIsPermits(state, PROCESS, AsUnsigned(origUid), lists.processes.stored, name.value);
          var listed := lists.processes.Contains(name, origUid);
          if listed == NotListed {
            res := -1;
          }
        }
        if res != 0 {
          return Returned(res);
        }
      }
      return Forwarded(hooks.originalExecve);
    }

    /** `hooked_connect` */
    method HookedConnect(origUid: int32, peer: Peer) returns (outcome: Outcome)
      requires Valid()
      ensures outcome == OutcomeOf(Judge(PolicyOf(state), AsUnsigned(origUid), Connect(peer)), Connect(peer),
                                   hooks.originalConnect)
      ensures outcome == if origUid in locks.sockets.Live() && peer.Inet? &&
                            !Admits(lists.networks.stored, AsUnsigned(origUid), peer.address) then Returned(-1)
                         else Forwarded(hooks.originalConnect)
    {
      SignedUnsignedInverse(origUid, 0);
      var hooked := locks.sockets.IsHookedUser(origUid);
      if !hooked {
        return Forwarded(hooks.originalConnect);
      }
      if peer.Inet? {
        LookupIsPermits(state, NETWORK, AsUnsigned(origUid), lists.networks.stored, peer.address);
        var listed := lists.networks.Contains(Some(peer.address), origUid);
        if listed == NotListed {
          return Returned(-1);
        }
      }
      return Forwarded(hooks.originalConnect);
    }

    /** `hooked_write`: a refused write reports zero bytes written. The path is not checked
        before the lookup. */
    method HookedWrite(origUid: int32, pathname: Option<CText>) returns (outcome: Outcome)
      requires Valid()
      ensures outcome == OutcomeOf(Judge(PolicyOf(state), AsUnsigned(origUid), Write(pathname)), Write(pathname),
                                   hooks.originalWrite)
      ensures outcome == if origUid !in locks.files.Live() then Forwarded(hooks.originalWrite)
                         else if !Admits(lists.files.stored, AsUnsigned(origUid), TextOf(pathname)) then Returned(0)
                         else if pathname.None? then Faulted
                         else Forwarded(hooks.originalWrite)
    {
      SignedUnsignedInverse(origUid, 0);
      var hooked := locks.files.IsHookedUser(origUid);
      if hooked {
        LookupIsPermits(state, FILE, AsUnsigned(origUid), lists.files.stored, TextOf(pathname));
        var listed := lists.files.Contains(pathname, origUid);
        if listed == NullRead {
          return Faulted;
        }
        if listed == NotListed {
          return Returned(0);
        }
      }
      return Forwarded(hooks.originalWrite);
    }

    /** `hooked_openat`: the session check comes before the file whitelist. */
    method HookedOpenat(origUid: int32, openedFile: Option<CText>) returns (outcome: Outcome)
      requires Valid()
      ensures outcome == OutcomeOf(Judge(PolicyOf(state), AsUnsigned(origUid), Openat(openedFile)), Openat(openedFile),
                                   hooks.originalOpenat)
      ensures outcome == if openedFile.None? then Forwarded(hooks.originalOpenat)
                         else if origUid in locks.sessions.Live() && openedFile.value <= PASSWD_FILE then Returned(13)
                         else if origUid in locks.files.Live() &&
                                 !Admits(lists.files.stored, AsUnsigned(origUid), openedFile.value) then Returned(13)
                         else Forwarded(hooks.originalOpenat)
    {
      SignedUnsignedInverse(origUid, 0);
      var sessionHooked := locks.sessions.IsHookedUser(origUid);
      var fileHooked := locks.files.IsHookedUser(origUid);
      assert sessionHooked == Frozen(PolicyOf(state), SESSIONS, AsUnsigned(origUid));
      assert fileHooked == Frozen(PolicyOf(state), FILE, AsUnsigned(origUid));
      if sessionHooked || fileHooked {
        if openedFile.Some? && sessionHooked {
          StrncmpIsPrefixOf(openedFile.value, PASSWD_FILE);
          if Strncmp(openedFile.value, PASSWD_FILE, |openedFile.value|) == 0 {
            return Returned(EACCES);
          }
        }
        if openedFile.Some? && fileHooked {
          LookupIsPermits(state, FILE, AsUnsigned(origUid), lists.files.stored, openedFile.value);
          var listed := lists.files.Contains(openedFile, origUid);
          if listed == NotListed {
            return Returned(EACCES);
          }
        }
        return Forwarded(hooks.originalOpenat);
      }
      return Forwarded(hooks.originalOpenat);
    }

    /** `init_freezer_syscalls` */
    method InitSyscalls() returns (res: int)
      requires Valid()
      modifies hooks, hooks.sysCallTable
      ensures Valid() && state == old(state)
      ensures res == if Complete(old(hooks.sysCallTable[..])) then 0 else -1
      ensures res == 0 ==> hooks.Installed(old(hooks.sysCallTable[..]))
      ensures res != 0 ==> hooks.sysCallTable[..] == old(hooks.sysCallTable[..])
    {
      res := hooks.Init();
    }

    /** `reset_freezer_syscalls` */
    method ResetSyscalls(ghost before: seq<Handler>) returns (freed: seq<object>)
      requires Valid() && hooks.Installed(before)
      modifies hooks.sysCallTable
      ensures Valid() && state == old(state)
      ensures hooks.sysCallTable[..] == before
      ensures freed == lists.AllStorage() && NoRepeats(freed)
      ensures forall o: object :: o in freed <==>
                lists.networks.Allocated(o) || lists.files.Allocated(o) || lists.processes.Allocated(o)
    {
      hooks.Reset(before);
      freed := lists.DisposeAll();
    }
  }
}
