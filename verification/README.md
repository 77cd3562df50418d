# Verified model of the frozone freezer

Frozone freezes the resources of chosen users on a Linux machine. A kernel module keeps, per
resource, a table of frozen uids and a whitelist of strings per uid; userland changes them by
netlink commands, and four hooked system calls consult them. This project models that policy
engine in Dafny and proves what a whole run of commands means for every later system call.

The model has four layers, each tied to the one above it:

1. **Mutable structures** (`GrowableArray`, `LockTables`, `Whitelists`, `TableSets`, `Freezers`,
   `Netlink`): classes with the arrays, live-length indices, growable string arrays and the
   system call table of the C code, with its scan, shift, copy and disposal loops.
2. **Tables as values** (`Commands`): the live prefixes as sequences, and `Step`, what one command
   makes of them. Every method of layer 1 is proved to do exactly this, full tables included.
3. **Policy** (`Policies`): frozen (resource, uid) pairs and allowed (resource, uid, string)
   triples, unbounded and unordered; `Judge` says what becomes of each call. The hooks are proved
   to return exactly this verdict, and the tables to follow the policy exactly when no command is
   dropped for lack of room.
4. **Runs** (`Histories`, `Runs`, `Observations`, `Swaps`, `Orders`, `Broadcasts`,
   `BroadcastEffects`, `Sessions`): what the command history says by itself, when it fills a table,
   and the verdict read off it in every state; isolation and noninterference; what calls can find
   out about the tables; which commands can be exchanged, and when a later call tells their order;
   broadcasts; and the module from load to unload.

`HexAddresses` adds the address parsers of the carto library.

`dafny verify dfyconfig.toml` checks the whole project.

## Modelling decisions

- Strings are sequences of non-zero bytes. A string on the kernel heap is an object of class
  `CString`, so that ownership can be stated; nobody writes to it once it is filled.
- Uids are `unsigned int` in commands and buckets and `int` in the uid slots and in what `getuid`
  returns; the conversions are written out (`AsSigned`, `AsUnsigned`).
- A hook is given what it obtains from the kernel: the caller's uid, and the name, path or address,
  or the fact that it could not be copied. A command or a hook call is one atomic step.
- `kfree` is modelled by the sequence of pointers handed to it.
- The machine is little-endian x86-64, as the hooks' use of `di` and `si` presumes; the system
  call numbers are those of x86-64.
- The globals of the dispatcher are grouped into two objects, the four uid tables and the three
  whitelists, and each `case` of the dispatcher is a method of the object it works on.
- `Sessions.Serve`, `Sessions.Lifetime` and `Sessions.LoadServeUnload` stand for the kernel, which calls the module's entry
  points in some order; the source has no such function.

## Where the code differs from what it documents

- *Whitelists.* The stored string is compared up to the length of the *requested* one, so a lookup
  accepts every prefix of a whitelisted string and nothing below a whitelisted path.
  `Policies.LookupIsExactIff` says in which states and for which names it is membership all the same.
- *Session freeze.* `openat` refuses every name that is a prefix of "/etc/passwd", "/" included.
- *Writes without a path.* `hooked_write` hands a null path to the lookup. Without a whitelisted file
  of the caller the write is refused; with one, `strlen` reads the null pointer.
- These three together: `Runs.VerdictIsDocumentedIff` gives, for every call after every history that
  has filled no consulted table, the exact condition under which the verdict is the one the
  documentation suggests; `Runs.ShorterAddressConnects`, `Runs.RootIsRefused` and `Runs.PathlessWriteFaults` are inputs for
  which it is not.
- *Full tables.* At 1024 entries UNLOCK is ignored, and WHITELIST is ignored even for a uid that has
  a bucket; the reply still reports success. `Histories.LocksFilledIff` and `Histories.ListFilledIff`
  say from the commands alone when a table is full, and `Runs.VerdictByHistory` covers full tables.
  `Runs.FaithfulIffOpen` gives the exact condition for the unbounded reading, `Swaps.SwapIff` the one
  for two commands to leave the same strings and uids in both orders, `Swaps.SwapIsSafeIff` the one
  for the same answers, and `Orders.OrderIsToldIff` the one for some later call to tell the order.
  The three differ: a string that is a prefix of a stored one changes no answer, and behind full
  tables there are users whose answers are never asked for again. `Swaps.EveryLockCountIsReached`
  shows that full tables are reached.
- *Send result.* `send_socket_msg` and `send_socket_msg_except_uid` are declared to return a bool, and the
  broadcast loop takes false for a failure. But the value 0 that `close` returns on success makes
  `send_socket_msg` false, so a broadcast stops after its first message
  (`Broadcasts.ReportIsFaithfulIff`, `Broadcasts.CleanCloseStopsTheBroadcast`).

## Model

| member | source | states |
|---|---|---|
| CTypes.SignedUnsignedInverse | freezer/module/freezer_hook_utils.c:171-178 | storing an unsigned uid in an int slot loses nothing, so comparing as int or as unsigned is the same test |
| CTypes.StrncmpIsPrefixTest | freezer/module/freezer_hook_utils.c:134-137 | comparing up to the requested string's length succeeds exactly when the requested string is a prefix of the stored one |
| CTypes.PrefixTestIsEqualityIff | freezer/module/freezer_hook.c:322-327 | against one stored name, the bounded comparison is an equality test if and only if the requested name is not a proper prefix of it |
| GrowableArray.PushFitsExactly | freezer/module/array.c:33-48 | a push writes inside its block unless the array is full with capacity 0 or at least 2^31 |
| GrowableArray.AmortisedGrowth | freezer/module/array.c:35-38 | until doubling wraps, the capacity is the initial one times a power of two, and all reallocations together carry capacity minus initial capacity, at most 2n, elements |
| GrowableArray.FullAtPowers | freezer/module/array.c:35-38 | after exactly c * 2^k pushes the array is full |
| GrowableArray.DefaultCapacityLimit | freezer/module/array.c:10-48 | from the default capacity exactly the first 2,684,354,560 pushes are in bounds |
| GrowableArray.Array.WithCapacity | freezer/module/array.c:15-31 | a new array is empty with the given capacity |
| GrowableArray.Array.Push | freezer/module/array.c:33-48 | appends the element and keeps everything before it, across reallocation |
| GrowableArray.Array.Destroy | freezer/module/array.c:56-64 | frees every element in order, then the block, then the record |
| LockTables.RemovedIsExact | freezer/module/freezer_hook_utils.c:184-215 | UNLOCK below capacity removes exactly the named uid and keeps the order of the rest; absent uids and full tables change nothing |
| LockTables.AddedIsExact | freezer/module/freezer_hook_utils.c:163-182 | LOCK below capacity adds exactly the named uid and keeps slots distinct |
| LockTables.LockUnlockRestores | freezer/module/freezer_hook_utils.c:163-215 | LOCK of an absent uid then UNLOCK gives back the identical live prefix if and only if the LOCK does not take the last slot |
| LockTables.ShiftedTail | freezer/module/freezer_hook_utils.c:206-212 | shifting the tail left is deletion of one slot |
| LockTables.LockTable.Add | freezer/module/freezer_hook_utils.c:163-182 | the live prefix becomes `Added` of the old one; the result tells whether it changed |
| LockTables.LockTable.Remove | freezer/module/freezer_hook_utils.c:184-215 | the live prefix becomes `Removed` of the old one; the result tells whether it changed |
| LockTables.LockTable.IsHookedUser | freezer/module/freezer_hook.c:98-113 | the scan answers membership of the caller's uid in the live prefix |
| Whitelists.StoreKeepsOwnership | freezer/module/freezer_hook_utils.c:62-94 | storing a string object that is nowhere yet keeps every object stored at most once |
| Whitelists.StorageOnce | freezer/module/freezer_hook_utils.c:111-120 | strings, blocks and array records of one table are pairwise different pointers |
| Whitelists.WhitelistTable.StorageIsAllocated | freezer/module/freezer_hook_utils.c:111-120 | they are exactly the strings, blocks and array records of its buckets |
| Whitelists.WhitelistTable.Add | freezer/module/freezer_hook_utils.c:62-94 | the buckets become `Store` of the old ones: appended to the uid's bucket, or a new bucket, or unchanged when full |
| Whitelists.WhitelistTable.Contains | freezer/module/freezer_hook_utils.c:122-146 | the early-exit lookup equals an exhaustive scan over every (uid, string) pair of every bucket; a null request is read exactly when the caller has a string |
| Whitelists.WhitelistTable.Dispose | freezer/module/freezer_hook_utils.c:111-120 | frees exactly the table's storage, bucket by bucket |
| Commands.StoreKeepsUniqueUids | freezer/module/freezer_hook_utils.c:70-91 | insertion keeps one bucket per uid and the index within 0..1024 |
| Commands.StepKeepsWellFormed | freezer/module/freezer_hook.c:350-426 | every command keeps all seven tables within bounds, uids distinct and one bucket per uid |
| Commands.RunKeepsWellFormed | freezer/module/freezer_hook.c:350-426 | so does every run |
| Commands.FullIsAbsorbing | freezer/module/freezer_hook_utils.c:67-190 | once a table holds 1024 entries no later run changes it |
| Commands.StepByNumber | freezer/lib/resource_com.h:9-25 | which of the seven tables a command changes and how, by the numbers it carries: resources 1 to 4, actions 1 to 3 |
| Commands.OpenAllAlong | freezer/module/freezer_hook_utils.c:166-190 | tables that are not full at the end of a run never were |
| TableSets.LockSet.Lock | freezer/module/freezer_hook.c:352-375 | adds the uid to the named table only; replies -1 exactly for an unknown resource |
| TableSets.LockSet.Unlock | freezer/module/freezer_hook.c:376-399 | removes the uid from the named table only; replies -1 exactly for an unknown resource |
| TableSets.WhitelistSet.Whitelist | freezer/module/freezer_hook.c:400-419 | stores the string in the named whitelist only, keeps every string owned once; replies -1 exactly for a resource without whitelist |
| TableSets.LookupIsPermits | freezer/module/freezer_hook_utils.c:122-146 | what the lookup scans for is what the policy permits |
| TableSets.WhitelistSet.DisposeAll | freezer/module/freezer_hook.c:497-499 | disposing the three whitelists frees every string, block and array record of all three, nothing else and nothing twice |
| TableSets.WhitelistSet.NothingForgotten | freezer/module/freezer_hook.c:497-499 | what is freed is exactly what one of the three whitelists has allocated |
| TableSets.WhitelistSet.NothingTwice | freezer/module/freezer_hook.c:497-499 | no string, block or record occurs twice in the three whitelists |
| Freezers.Freezer.CallWrapper | freezer/module/freezer_hook.c:350-426 | the tables after a command are `Step` of the tables before; the reply is 0 exactly for actions 1 and 2 on resources 1 to 4 and action 3 on resources 1 to 3, even when a full table dropped the command |
| Freezers.Freezer.HookedExecve | freezer/module/freezer_hook.c:124-151 | returns -1 exactly when the policy refuses, which is when the caller is in the process table and no process string stored for them starts with the name; else, and for unreadable names, reaches the saved handler |
| Freezers.Freezer.HookedConnect | freezer/module/freezer_hook.c:161-209 | the same, with -1, the connection tables and the address; other families and unreadable addresses pass |
| Freezers.Freezer.HookedWrite | freezer/module/freezer_hook.c:272-293 | returns 0 exactly when the policy refuses, which is when the caller is in the file table and no file string stored for them starts with the path; faults exactly when a null path meets a frozen caller with whitelisted files; else reaches the saved handler |
| Freezers.Freezer.HookedOpenat | freezer/module/freezer_hook.c:303-348 | returns 13 exactly when the policy refuses, which is when a caller in the session table names a start of "/etc/passwd" or one in the file table a file that is not admitted; else reaches the saved handler |
| Freezers.SyscallHooks.Init | freezer/module/freezer_hook.c:452-482 | puts the four hooks at the numbers 1, 42, 59 and 257 and saves the five entries, or finds one of 1, 42, 59, 102, 257 missing, returns -1 and leaves the table alone |
| Freezers.SyscallHooks.Reset | freezer/module/freezer_hook.c:484-495 | gives back the whole table that Init found |
| Freezers.Freezer.ResetSyscalls | freezer/module/freezer_hook.c:484-502 | restores the table and frees exactly what the three whitelists have allocated, nothing twice |
| Policies.VerdictDependsOnlyOn | freezer/module/freezer_hook.c:124-348 | a verdict depends only on what the policy says about the caller and the consulted resources |
| Policies.ConsultsWhatMatters | freezer/module/freezer_hook.c:124-348 | and each of the consulted resources matters: a hook consults a resource if and only if some call of its kind is judged differently by policies that differ only there |
| Policies.SessionFreezeGuards | freezer/module/freezer_hook.c:320-328 | under a session freeze that nothing else adds to, `openat` refuses exactly the starts of "/etc/passwd"; "/etc/shadow" passes |
| Policies.StepFollowsPolicy | freezer/module/freezer_hook.c:350-426 | one command does to the tables what it does to the policy if and only if it is not dropped by a full table |
| Policies.LookupIsExactIff | freezer/module/freezer_hook_utils.c:126-145 | in any state a lookup is the exact membership test if and only if the name is whitelisted itself or stops short inside no whitelisted string |
| Policies.LocksFollowPolicy | freezer/module/freezer_hook.c:350-398 | over a whole run, up to and including the command that takes its last slot, a lock table holds what the policy has frozen |
| Policies.ListsFollowPolicy | freezer/module/freezer_hook.c:400-419 | over a whole run, up to and including the command that opens its last bucket, a whitelist holds what the policy allows |
| Policies.RunFollowsPolicy | freezer/module/freezer_hook.c:350-426 | so tables and policy agree on every user for all resources whose tables are not full |
| Histories.LocksFilledIff | freezer/module/freezer_hook_utils.c:163-215 | a uid table is full if and only if at some point of the history the uids whose last LOCK or UNLOCK was a LOCK were 1024; stated over the commands alone |
| Histories.LockCount | freezer/module/freezer_hook_utils.c:163-215 | up to and including the command that fills it, a uid table has exactly one slot per uid left locked |
| Histories.BucketCount | freezer/module/freezer_hook_utils.c:62-94 | a whitelist has exactly one bucket per distinct uid in WHITELIST commands, up to 1024, in every state |
| Histories.ListFilledIff | freezer/module/freezer_hook_utils.c:62-94 | so it is full if and only if 1024 distinct uids were named in WHITELIST commands |
| Histories.FewLockedUidsKeepOpen | freezer/module/freezer_hook_utils.c:163-215 | at most 1023 distinct uids in LOCK commands keep the uid table from filling, in whatever order and number of commands |
| Histories.FewWhitelistedUidsKeepOpen | freezer/module/freezer_hook_utils.c:62-94 | at most 1023 distinct uids in WHITELIST commands keep the whitelist from filling |
| Histories.BucketInEveryState | freezer/module/freezer_hook_utils.c:62-94 | in every state the bucket of a uid holds exactly the strings whitelisted for it until 1024 uids had been named, in the order they came, repeats included |
| Histories.TextsOfOne | freezer/module/freezer_hook.c:400-419 | a command contributes its string to a bucket exactly when it carries the bucket's resource and uid and action 3 |
| Histories.TextsAppend | freezer/module/freezer_hook_utils.c:62-94 | and the contributions of successive commands are put one after the other |
| Histories.TextsOnlyGrow | freezer/module/freezer_hook_utils.c:62-94 | later commands only append to what a bucket holds |
| Runs.FrozenInEveryState | freezer/module/freezer_hook.c:350-398 | in every state, full or not, a uid is frozen exactly when the last LOCK or UNLOCK about it, up to the command that leaves the 1024th uid locked, was a LOCK; where to stop is decided by the commands alone |
| Runs.PermittedInEveryState | freezer/module/freezer_hook_utils.c:62-146 | in every state a lookup succeeds exactly when a WHITELIST, up to the command that names the 1024th uid, carried a string that starts with the requested one; where to stop is decided by the commands alone |
| Runs.LastCommandWins | freezer/module/freezer_hook.c:350-398 | while the table has room, a uid is seen as frozen exactly when the last LOCK or UNLOCK about it was a LOCK |
| Runs.LastCommandWinsForFewUids | freezer/module/freezer_hook_utils.c:163-215 | the same after every run whose LOCK commands for the resource name at most 1023 distinct uids |
| Runs.LookupMeansWhitelisted | freezer/module/freezer_hook_utils.c:62-146 | while the table has room, a lookup succeeds exactly when an earlier WHITELIST carried a string that starts with the requested one |
| Runs.LookupForFewUids | freezer/module/freezer_hook_utils.c:62-146 | the same after every run whose WHITELIST commands for the resource name at most 1023 distinct uids |
| Runs.AcceptanceIsPrefixClosed | freezer/module/freezer_hook_utils.c:134-137 | what is accepted is accepted with all its prefixes |
| Runs.VerdictByHistory | freezer/module/freezer_hook.c:124-426 | in every state, every hook's verdict on every call is the one the command history by itself determines, full tables included |
| Runs.NothingCutShort | freezer/module/freezer_hook_utils.c:67-190 | while the consulted tables have room, that is the whole history |
| Runs.VerdictIsDocumentedIff | freezer/module/freezer_hook.c:124-348 | the verdict is the one the documentation suggests if and only if the call is not one of three kinds named by the history |
| Runs.ShorterAddressConnects | freezer/module/freezer_hook.c:185-200 | "1.1.1.1" connects when only "1.1.1.10" was whitelisted |
| Runs.RootIsRefused | freezer/module/freezer_hook.c:320-328 | "/" is refused under a session freeze |
| Runs.PathlessWriteFaults | freezer/module/freezer_hook.c:272-287 | a frozen user's write to a descriptor without a path faults once the user has a whitelisted file |
| Runs.FaithfulIffOpen | freezer/module/freezer_hook_utils.c:67-190 | after any run, every possible next command leaves the tables meaning what the history says if and only if no table is full |
| Runs.WhitelistedFileAdmitsItsPrefixes | freezer/module/freezer_hook.c:276-287 | after any history in which a frozen user had one path whitelisted and the file tables have room, exactly the prefixes of that path may be written |
| Runs.Isolation | freezer/module/freezer_hook.c:350-426 | commands that do not name both the caller and a consulted resource never change the verdict, even when tables fill |
| Runs.Noninterference | freezer/module/freezer_hook.c:350-426 | all commands about other users or resources can be struck from the history without changing the verdict |
| Runs.WhitelistingIsMonotone | freezer/module/freezer_hook_utils.c:62-146 | a lookup that succeeds keeps succeeding after any further run |
| Observations.SameSizes | freezer/module/freezer_hook_utils.c:62-215 | who is frozen and what lookups accept give away how full every table is |
| Observations.SameMeaningSameFuture | freezer/module/freezer_hook.c:350-426 | tables that freeze the same users and accept the same lookups, whatever strings they store in whatever slot order, do so after every further run, full or not |
| Observations.IndistinguishableIff | freezer/module/freezer_hook.c:124-426 | while the three uid tables beside a whitelist have room: no call, at once or after any further run, tells two states apart if and only if they freeze the same users and accept the same lookups |
| Swaps.PolicyCommutesIff | freezer/module/freezer_hook.c:350-426 | two commands commute in the unbounded policy if and only if they do not lock and unlock the same uid and resource |
| Swaps.TableSwapIff | freezer/module/freezer_hook_utils.c:163-215 | two commands for one uid table leave the same members in both orders if and only if they do not clash, full and nearly full tables included |
| Swaps.ListSwapIff | freezer/module/freezer_hook_utils.c:62-94 | two WHITELIST commands for one table leave the same strings in both orders if and only if they do not clash over its last bucket |
| Swaps.SwapIff | freezer/module/freezer_hook.c:350-426 | two commands leave the same locked uids and stored strings in both orders if and only if they do not clash in the state they meet |
| Swaps.LookupsSwapIff | freezer/module/freezer_hook_utils.c:62-146 | two WHITELIST commands for one table leave every lookup the same in both orders if and only if they do not clash over its last bucket with strings that are not accepted yet |
| Swaps.AnswersSwapIff | freezer/module/freezer_hook.c:350-426 | two commands leave the same users frozen and the same lookups accepted in both orders if and only if their answers do not clash in the state they meet |
| Swaps.SwapIsSafeIff | freezer/module/freezer_hook.c:350-426 | two commands can be exchanged ahead of every further run without changing who is frozen or what a lookup answers, if and only if their answers do not clash |
| Swaps.SwapIsUnobservable | freezer/module/freezer_hook.c:124-426 | so no later call can tell the order of two commands whose answers do not clash, in any state |
| Swaps.SwapIsVisibleAtCapacity | freezer/module/freezer_hook_utils.c:166-190 | an instance of a clash: with one slot left, a LOCK and an UNLOCK of different uids |
| Swaps.EveryLockCountIsReached | freezer/module/freezer_hook_utils.c:163-182 | from the loaded module, n LOCKs of distinct uids reach exactly n live slots, for every n up to 1024 |
| Swaps.EveryBucketCountIsReached | freezer/module/freezer_hook_utils.c:62-94 | and n WHITELISTs for distinct uids n buckets |
| Orders.FillingTells | freezer/module/freezer_hook.c:303-426 | session tables of different sizes are told apart by locking newcomers until one of them is full |
| Orders.ClashInLookups | freezer/module/freezer_hook_utils.c:62-146 | after two WHITELIST commands clash the table is full, and lookups differ for exactly the users whose command the other one shuts out |
| Orders.OrderIsToldIff | freezer/module/freezer_hook.c:124-426 | in every state, some call, at once or after some further run, tells the order of two commands if and only if their answers clash for a user who is frozen or can still be, or, for two session freezes, for one who is not already kept from every file for good |
| Netlink.ExactCopy | freezer/lib/user_netlink.c:36-47 | copies exactly the first bytes, zeros included, and leaves the rest |
| Netlink.ExactNewCat | freezer/lib/user_netlink.c:58-80 | a new block with both pieces, zeros included |
| Netlink.PayloadOnTheWire | freezer/lib/resource_com.h:20-25 | the payload byte by byte: resource, uid and action in four bytes each, low byte first, the string from byte 12 on, zeros up to 1024 bytes |
| Netlink.BuildPayload | freezer/lib/user_netlink.c:102-138 | the payload is the struct's bytes, the string, and zeros |
| Netlink.Strlen | freezer/module/freezer_netlink.c:41-46 | finds the first NUL after the struct, if there is one in the payload |
| Netlink.StructReadsBack | freezer/module/freezer_netlink.c:37-39 | the three integers of the struct read back as they were written, negative ones and zero bytes included |
| Netlink.DecodeInvertsPayload | freezer/module/freezer_netlink.c:37-46 | the kernel reads exactly the command and string userland wrote if and only if the string leaves room for its NUL, at most 1011 bytes; no string reads as the empty one |
| Netlink.FreezerRecvMsg | freezer/module/freezer_netlink.c:25-76 | the decoded command takes effect with a fresh copy of the string; the reply is done or error as the command was understood |
| Netlink.SendAndReceive | freezer/lib/user_netlink.c:92-156 | what userland asks for is what happens to the kernel's tables |
| Broadcasts.ReportIsFaithfulIff | freezer/lib/user_netlink.c:230-254 | the reported result tells whether the kernel acknowledged, except when it did and close returned 0 |
| Broadcasts.TargetOfOne | freezer/lib/user_netlink.c:278-287 | a login entry is a target exactly when it resolves to a uid other than the spared one |
| Broadcasts.TargetsSplit | freezer/lib/user_netlink.c:264-293 | targets come in the order of the login entries, repeats included, up to the first lookup error |
| Broadcasts.TargetsAreTheOthers | freezer/lib/user_netlink.c:268-291 | without lookup errors the targets are exactly the resolved uids other than the excepted one |
| Broadcasts.SendSocketMsgExceptUid | freezer/lib/user_netlink.c:256-297 | messages the targets in order, up to and including the first send that reports false; true exactly when all were messaged with success and no lookup failed |
| Broadcasts.EveryoneIsMessagedIff | freezer/lib/user_netlink.c:268-291 | all targets are messaged if and only if every send but the last reports true |
| Broadcasts.CleanCloseStopsTheBroadcast | freezer/lib/user_netlink.c:250-286 | when sockets close without error a broadcast stops after its first message |
| Broadcasts.OnlyTheLastIsLost | freezer/lib/user_netlink.c:230-291 | of the messages a broadcast attempts, at most the last fails to reach the kernel |
| Broadcasts.EveryoneIsReachedIff | freezer/lib/user_netlink.c:230-291 | the kernel gets a message for every target if and only if all sends but the last report true and the last gets through |
| BroadcastEffects.RoomForBroadcast | freezer/module/freezer_hook_utils.c:163-182 | after a LOCK broadcast the table holds as many uids as were locked or messaged together, each counted once, or 1024 |
| BroadcastEffects.LockBroadcastInEveryState | freezer/module/freezer_hook_utils.c:163-182 | in every state a LOCK broadcast freezes exactly the uids whose messages arrive before the table is full, in addition to who was frozen |
| BroadcastEffects.LockBroadcastFreezesWhoItReachesIff | freezer/module/freezer_hook_utils.c:163-182 | it freezes every uid it reaches if and only if these and the ones locked before are at most 1024 in all |
| BroadcastEffects.LockBroadcastFreezesWhoItReaches | freezer/module/freezer_hook_utils.c:163-182 | then it freezes exactly the uids whose messages arrive, in addition to who was frozen |
| BroadcastEffects.UnlockBroadcastInEveryState | freezer/module/freezer_hook_utils.c:184-215 | an UNLOCK broadcast thaws exactly the uids whose messages arrive; on a full table it thaws nobody |
| BroadcastEffects.WhitelistBroadcastInEveryState | freezer/module/freezer_hook_utils.c:62-94 | in every state a WHITELIST broadcast admits the string and its prefixes for exactly the uids whose messages arrive before the table is full, in addition to what was admitted |
| BroadcastEffects.WhitelistBroadcastAdmitsWhoItReaches | freezer/module/freezer_hook_utils.c:62-94 | with fewer than 1024 uids in all, for exactly the uids whose messages arrive |
| BroadcastEffects.OthersAreFrozenIff | freezer/lib/user_netlink.c:256-297 | whatever is lost and however full the table: a LOCK broadcast leaves every other logged-in user frozen if and only if each was frozen before or got a message before the table was full |
| BroadcastEffects.LockBroadcastFreezesTheOthers | freezer/lib/user_netlink.c:256-297 | one that loses no message freezes every other logged-in user and changes nobody else |
| BroadcastEffects.BroadcastSparesTheExcepted | freezer/lib/user_netlink.c:280-287 | no broadcast of any command, whatever is lost on the way, changes a verdict of the excepted user |
| Sessions.ReceivedOneMore | freezer/module/freezer_netlink.c:37-56 | every command that is sent is received, in order, with its string, and nothing else is |
| Sessions.OnSyscall | freezer/module/freezer_hook.c:472-476 | a call goes to the hook that the system call table holds at its number and gets the policy's verdict: refused writes return 0, refused opens 13, refused execve and connect -1, and passed calls reach the entry the table held there before |
| Sessions.FaithfulAt | freezer/module/freezer_hook.c:124-426 | in a faithful log there is one answer per event, and the k-th is determined by the commands before it, full tables included: 3 or 2 for a command as it was understood, the hook's own value for a refused call, and the original entry at the call's number for a passed one |
| Sessions.FitsOneMoreIff | freezer/module/array.c:33-48 | that bound is no stronger than it must be: it admits one more command if and only if the push the command makes, if any, stays in bounds |
| Sessions.Serve | freezer/module/freezer_netlink.c:25-76 | every reply and verdict is the one the history determines, in any sequence of calls and of messages with a string of at most 1011 bytes, as long as no bucket is given more than 2,684,354,560 strings; calls are not limited |
| Sessions.Lifetime | freezer/module/freezer_netlink.c:81-105 | from init to exit, under the same two conditions: all answers as above, the system call table unchanged at the end, and exactly what the whitelists have allocated freed, nothing twice |
| Sessions.LoadServeUnload | freezer/module/freezer_netlink.c:81-105 | the same, under the same two conditions, from a bare system call table and zeroed globals |
| HexAddresses.DigitValues | carto/src/connections.c:23-42 | the sixteen digits have their values in either case, and no other character has one |
| HexAddresses.StrtolIsLibrary | carto/src/connections.c:18-23 | on the two characters of a pair the conversion is the library's: blanks, a sign, then digits |
| HexAddresses.FourStepsFlush | carto/src/connections.c:31-43 | four shift-and-add steps in 32-bit arithmetic leave nothing of the word's earlier value |
| HexAddresses.HexToIpv4 | carto/src/connections.c:11-25 | for any eight characters the address is the big-endian value of the four converted pairs, modulo 2^32 |
| HexAddresses.HexToIpv6 | carto/src/connections.c:27-45 | the same for each of four words, whatever they held before |
| HexAddresses.ParsingInvertsPrinting | carto/src/connections.c:11-45 | parsing a printed 32-bit word gives the word |
| HexAddresses.DigitsDoNotWrap | carto/src/connections.c:35-42 | for hexadecimal digits the addition does not wrap, whatever the word holds |
| HexAddresses.DigitsGiveTheValue | carto/src/connections.c:31-43 | so the word read is the big-endian value itself |

## Left out

- Page permission bits, kprobe symbol lookup, `d_path`, file descriptors and `pt_regs`: hooks are given resolved arguments.
- Allocation failure, and everything the code leaks: bucket records, strings of commands that store nothing, userland buffers.
- Socket creation, bind, `sendmsg`, `recvmsg`, skb allocation and process ids; a send's results are parameters.
- Concurrency between hooks and commands: the code does not synchronise them, and steps are taken as atomic.
- `uid_is_in_array` and `print_whitelist`: no caller in the modelled files.
- The wrappers of freezer/lib/freezer.c: each fixes two constants.
- The rest of carto, which reads procfs and utmp; its growable array repeats the one modelled here.
- GrowableArray.Array.Push: requires the write to be in bounds; beyond it the C code writes outside its block, which has no meaning to model.
- Freezers.Freezer.CallWrapper: requires fewer than 2,684,354,560 strings in the bucket a WHITELIST command appends to, unless the table is full, for the same reason.
- TableSets.WhitelistSet.Whitelist: requires a string object that is not stored yet; the receiving function copies the string afresh for every message and so meets this.
- Sessions.Serve: requires that every message leaves its string room for the NUL (at most 1011 bytes), as the receiver does not check, and that no bucket is given more than 2,684,354,560 strings, beyond which the C array wraps.
- Sessions.Lifetime: requires the same.
- Sessions.LoadServeUnload: requires the same.
- Observations.IndistinguishableIff: requires room in the three uid tables beside a whitelist, because behind a full one the lookups of users outside it are never made again; `Orders.OrderIsToldIff` has no such condition.
- BroadcastEffects.WhitelistBroadcastAdmitsWhoItReaches: requires room, because the message that opens the last bucket shuts out later ones even for users who have a bucket; `WhitelistBroadcastInEveryState` has no such condition.
- Netlink.BuildPayload: requires at most 1012 bytes of string; the C code checks no length and would write behind the payload.
- Netlink.FreezerRecvMsg: requires a terminated string inside the payload; `strlen` would read past it otherwise.
- HexAddresses.HexToIpv4: requires the characters it reads to exist, as the fixed buffers of its caller guarantee.
