# Verified models of the security platform's management layer

The platform is a SIEM: a Python API and framework in front of C daemons and active-response programs,
with some JavaScript and Python build scripts around them. This project models the algorithms in it whose
correctness is not visible from one function body, and proves what they are for. Where a promise turns out
not to hold of the code, the results listed below give the exact condition under which it does, and lemmas
in the same file give inputs that break it.

| file | what it models |
|---|---|
| `backoff.dfy`, `directory_lock.dfy` | the directory lock of the active-response programs: the back-off loop of one process, and any number of processes interleaving system call by system call |
| `ruleset_store.dfy` | upload, delete and update of rules, decoders, CDB lists and `ossec.conf`, with a fault allowed at every step |
| `login_blocker.dfy`, `rate_limiter.dfy` | blocking of hosts after failed logins, and the fixed-window request limits |
| `strings.dfy`, `patch_file.dfy`, `install_patches.dfy` | the rewriting of dependencies after installation, and the four lists of patches it applies |
| `c_library.dfy`, `merged_file.dfy` | the merged file of a WPK package: the packaging tool and the C reader on the agent |
| `hosts_access.dfy`, `hosts_deny.dfy` | the hosts.deny editor, and how the TCP wrappers read its lines |
| `queue_location.dfy` | the escaping of agent locations by the integrations and the parser in analysisd |
| `config_merge.dfy` | the in-place merge of API configuration files |
| `daemon_stats.dfy` | paged and chunked collection of agent statistics |
| `ruleset_filter.dfy` | the listings that filter by removing from a list while visiting a copy |
| `ar_arguments.dfy` | the argument strings built with `strcat` in a 4096-byte buffer |
| `agent_upgrade.dfy` | which agents an upgrade reaches, the shrinking chunks of the upgrade request, and the polling loop |
| `csv_report.dfy` | the CSV license report |
| `decoder_scan.dfy` | the scanner for parent decoders |
| `options.dfy`, `sequences.dfy` | an optional value, and the concatenation of a list of lists |

Loops and objects with state are methods and classes, each proved against a function or predicate on values;
the theorems are lemmas about those. Outcomes that the environment decides (system calls, validations, the
answers of servers, clocks) are parameters, and the theorems hold for all of them.

Results that differ from what one would expect:

- The lock can be held by several processes at once, but never by more than one plus the number of
  directories removed by processes that were not leaving their own critical section, less the holders
  killed. Each of these removals costs 25 rounds of waiting. Both bounds are reached.
- A request limit of `n` a minute lets up to `2n + 1` requests through in some 60 seconds, and requests for
  `/events` are never stopped by the general limit.
- A failed upload leaves the target as it was, except when a new file is rejected after it was written and
  stays (because `overwrite` was set, its deletion fails, or the logtest ends with an exception that is not a
  `BongosecError`), and when a stale or half-written backup is restored over it.
- In some `block_time` seconds a host gets twice the failed logins that one entry can record, less one; never
  more.
- Deleting an address from hosts.deny undoes adding it exactly when the file did not mention the address and
  ended where a read ends. The file is always the original text with one rule per blocked address exactly
  when, besides, no rule mentions another address.
- The rule that is added for an IPv6 address denies it nothing, by hosts_access(5), because the colons of the address
  end its field.
- A merged file survives exactly when every name is one line whose header fits the reader's buffer (or, with
  data of newlines only, fills it), behind a tag no read of which begins like a header.
- A patch that is applied twice is applied once exactly when no source is left outside of the targets the
  first run leaves; a target without a border, as all targets of the script are, guarantees that.
- Filtering rule or decoder files raises exactly when some entry is listed twice, has the wrong status and is
  wrong in another way.
- The manager takes the name of an agent from a message exactly when it has no `)` (and the number no `]`), although
  it always recovers the location as a whole.
- Two lists of keys come to the same key string exactly when cutting every key at its dashes makes them equal.
- An upgrade without filters fails while formatting a refusal exactly when its query leaves out a requested,
  existing agent other than the manager.
- Reading several configuration files from the same default object adds them all up. A file gets the values
  of its own merge exactly when, wherever it is silent, what the files before it come to is what the defaults
  say once the paths have their prefix.
- A second add of an address to hosts.deny changes nothing exactly when some read of the file mentions the
  address after the first; a last line without a newline can be so long that none does.

## Model

| member | source | states |
|---|---|---|
| Backoff.RoundIsPaced | src/active-response/active_responses.c:513-541 | each round adds 1 or 2 to the counter; the sleep so far lies between two parabolas of the counter, until it passes 50 after 25 to 50 rounds and 625 to 1226 s |
| Backoff.EveryScheduleIsBounded | src/active-response/active_responses.c:490-541 | for every sequence of pid readings the kill branch is reached after 25 to 50 rounds and 625 to 1226 s, never before 25, always by 50 |
| Backoff.Lock | src/active-response/active_responses.c:488-618 | the loop of one process over any answers of the system ends as `Course` says: outcome, rounds, seconds and kills |
| Backoff.CounterCounts | src/active-response/active_responses.c:513-541 | until it reaches 50 the counter is the number of rounds plus the number of readings of the first pid that was read, and the sleep is the sum of its values |
| Backoff.FirstEpoch | src/active-response/active_responses.c:488-618 | the call is decided epoch by epoch: until the count reaches 50 a `mkdir` that succeeds ends it, and then either the holder is killed and the call starts over from nothing, or the last `mkdir` decides |
| Backoff.CourseIsBounded | src/active-response/active_responses.c:488-618 | over any answers, 25 to 50 rounds and 625 to 1226 s for each kill and for giving up on the holder, no kill without a pass in which `pgrep` lists the pid and `kill` runs, and what each of the five outcomes is owed to |
| Backoff.BoundsAreAttained | src/active-response/active_responses.c:513-541 | schedules with exactly 25 rounds and 625 s, and 50 rounds and 1226 s |
| DirectoryLock.StepIsAccounted | src/active-response/active_responses.c:500-624 | every system call of any process keeps holders + leavers within directory + steals - killed holders |
| DirectoryLock.StepIsPatient | src/active-response/active_responses.c:513-600 | every system call keeps each process's counter paced, and spent where it is stealing |
| DirectoryLock.HoldersAreBounded | src/active-response/active_responses.c:488-624 | over every interleaving of any processes, those acting as holder, plus those leaving, plus those killed, are at most 1 + steals; without unpaid steals there is mutual exclusion. `UnlockFreesTheLock` and `NobodyLeavesWithoutUnlock` say that the lock is given back |
| DirectoryLock.StealsAreRare | src/active-response/active_responses.c:541-600 | whoever removes the directory outside of the `unlock` that ends its own critical section has waited a full epoch (25 to 50 rounds, 625 to 1226 s) since it last did so |
| DirectoryLock.StealsAreWaitedFor | src/active-response/active_responses.c:488-624 | over every interleaving, at least 25 rounds of waiting for each such removal, and for each process beyond the first that acts as holder, is leaving or was killed as holder |
| DirectoryLock.TakesOver | src/active-response/active_responses.c:594-611 | a process whose counter ran out and that does not find the holder in the process list becomes one more holder; the others stay |
| DirectoryLock.BoundIsAttained | src/active-response/active_responses.c:488-624 | for every n a run with n steals and 25 n rounds of waiting after which n + 1 processes are critical |
| DirectoryLock.DirectoryObeysSystemCalls | src/active-response/active_responses.c:500-624 | `mkdir` makes a missing directory, `rmdir` removes an empty one, a pid file is written into or deleted from one that is there, and nothing else changes it, wherever the caller is in its program |
| DirectoryLock.OthersOnlyDie | src/active-response/active_responses.c:555-588 | a step changes no process but its own, except that a kill that is listed, launched and lands ends the live process whose pid was read |
| DirectoryLock.ReadsThePidFile | src/active-response/active_responses.c:513-533 | the pid remembered is the number in the file, -1 without one |
| DirectoryLock.NobodyLeavesWithoutUnlock | src/active-response/active_responses.c:620-624 | a process stays critical until it calls `unlock` or dies |
| DirectoryLock.UnlockFreesTheLock | src/active-response/active_responses.c:620-624 | with or without a pid file, leaving undisturbed removes the directory, ends the process and changes nothing else |
| DirectoryLock.FailedUnlockGoesOn | src/active-response/active_responses.c:620-624 | an `unlock` that cannot empty or remove the directory leaves it there, and its caller goes on as if it had |
| DirectoryLock.FreeLockIsTaken | src/active-response/active_responses.c:500-511 | a free lock goes to the first process that tries; a second one starts to wait |
| DirectoryLock.FailedWriteLeavesTheDirectory | src/active-response/active_responses.c:500-511 | a pid file that cannot be written makes `lock` fail with the directory left behind |
| DirectoryLock.HolderIsKilled | src/active-response/active_responses.c:555-588 | a holder that is found is killed, its directory removed, and the killer starts over with a fresh counter |
| DirectoryLock.LateMkdirGivesUp | src/active-response/active_responses.c:599-614 | a last `mkdir` that comes too late makes `lock` fail |
| DirectoryLock.LateWriteDies | src/active-response/active_responses.c:602-609 | a pid file that cannot be written then is a null pointer, and the directory stays behind |
| DirectoryLock.CrashAtAnyPoint | src/active-response/active_responses.c:488-624 | a process that has not ended can die between any two calls and changes nothing by it; one that has ended does nothing |
| RulesetStore.Store.UploadRulesetFile | framework/bongosec/rule.py:440-512 | the result is that of the first step that fails, in the order of the source and with its codes 1112, 1905 and 1019, or success; a call turned down before the copy changes no file; success leaves exactly the new content and no backup; a failure leaves the target as it was iff `Harms` does not hold; no other file changes |
| RulesetStore.Store.DeleteRulesetFile | framework/bongosec/decoder.py:389-429 | removes the file or changes nothing, and when which, with the codes 1906 and 1907 |
| RulesetStore.Store.UploadListFile | framework/bongosec/cdb_list.py:133-161 | the same for CDB lists, with the codes 1905, 1805 and 1019, and when the compiled list is dropped |
| RulesetStore.Store.DeleteListFile | framework/bongosec/core/cdb_list.py:276-290 | removes the list and, where it can, the file with `.cdb` after its name, or changes nothing with the codes 1906 and 1907 |
| RulesetStore.Store.UpdateOssecConf | framework/bongosec/manager.py:365-392 | the same for `ossec.conf`, with the codes 1125, 1019 and 1126: on failure unchanged iff `ConfHarms` does not hold; no backup is ever left |
| RulesetStore.Store.PerformAll | framework/bongosec/rule.py:490-512 | any run of calls, whatever fails in them, acts on the store like the same run of atomic effects, and leaves no backup |
| RulesetStore.FailuresAreHarmlessUnless | framework/bongosec/rule.py:494-512 | without leftovers and with all-or-nothing copies, an upload harms iff a rejected new file stays, hence never when the target existed |
| RulesetStore.FailuresThatHarm | framework/bongosec/rule.py:494-512 | a failing input for each condition: overwrite on an absent target, an interrupted copy, a stale backup |
| RulesetStore.ContentHasASource | framework/bongosec/manager.py:365-392 | after any run a file holds what it held at the start or the whole content of one call |
| LoginBlocker.Access.CheckBlockedIp | api/api/middlewares.py:116-141 | clears an expired entry, as `CheckForgetsOldEntries` says for every host, and refuses exactly the blocked hosts |
| LoginBlocker.Access.PreventBruteforceAttack | api/api/error_handler.py:29-39 | counts a failure from its first time on and blocks at the threshold |
| LoginBlocker.CheckForgetsOldEntries | api/api/middlewares.py:128-134 | after a check a host, blocked or not, has its entry, unchanged, iff it had one younger than block_time; a block goes with the entry; other hosts are left alone |
| LoginBlocker.EntriesAreRecords | api/api/error_handler.py:29-39 | after any run from the start the entry of a host is the record of its own events |
| LoginBlocker.RecordCountsFailures | api/api/error_handler.py:29-39 | which counts the failures since the last arrival that found an expired entry, from the time of the first of them |
| LoginBlocker.BlockedIffFailedOften | api/api/error_handler.py:29-39 | in every reachable state a host is blocked iff its entry has reached the threshold, and no entry exceeds it by more than the logins in flight less one |
| LoginBlocker.BlockEndsOnTime | api/api/middlewares.py:130-141 | a blocked host is refused exactly until its entry is block_time old, then starts clean |
| LoginBlocker.HostsAreIndependent | api/api/error_handler.py:29-39 | the record of a host after any run is that of its own events alone |
| LoginBlocker.GuessingIsSlow | api/api/middlewares.py:116-141 | in any block_time seconds a host gets at most 2 (max + parallel - 1) - 1 failed logins, and none if none is let through |
| LoginBlocker.BoundIsAttained | api/api/error_handler.py:29-39 | for every threshold, parallelism and block time a run with exactly that many |
| RateLimiter.RateLimits.CheckGeneral | api/api/middlewares.py:144-181 | one check on the general counter, with the three clock readings it may make |
| RateLimiter.RateLimits.CheckEvents | api/api/middlewares.py:144-181 | one check on the counter of event requests |
| RateLimiter.RateLimits.Dispatch | api/api/middlewares.py:187-206 | both counters move, and the verdict is that of the events limit for /events and of the general limit otherwise |
| RateLimiter.AnyMinuteIsBounded | api/api/middlewares.py:169-181 | any 60 seconds see at most 2 max + 1 admitted requests, none for a negative limit |
| RateLimiter.WindowIsExact | api/api/middlewares.py:172-181 | inside a window the first requests up to the limit are admitted and no request moves the window |
| RateLimiter.WindowTotals | api/api/middlewares.py:169-181 | max requests in the first window, which opens at the first clock reading, and max + 1 in every later one, which opens at the third, and in the first if a minute passes between the readings that open it; and the counter after them |
| RateLimiter.BoundIsAttained | api/api/middlewares.py:169-181 | for every max a schedule with 2 max + 1 admissions in 60 seconds |
| RateLimiter.PassedIsAdmitted | api/api/middlewares.py:187-206 | event requests pass iff the limiter of events admits them, ordinary ones iff the general limiter does, which counts the event requests as well |
| RateLimiter.DispatchIsBounded | api/api/middlewares.py:187-206 | in any minute at most 61 event requests and 2 max + 1 others |
| RateLimiter.DispatchBoundIsAttained | api/api/middlewares.py:187-206 | runs of requests that reach each of the two bounds |
| RateLimiter.ZeroStartIsUnset | api/api/middlewares.py:169-170 | a window that opened at the epoch counts as none |
| RateLimiter.EventsEscapeTheGeneralLimit | api/api/middlewares.py:190-206 | a general limit of zero does not stop an event request |
| Strings.JoinOfSplit | dashboard/scripts/postinstall.js:39-43 | joining what was split restores the text |
| Strings.SplitOfJoin | dashboard/scripts/postinstall.js:39-43 | splitting what was joined restores the pieces, for separators without a border that occur in no piece |
| PatchFile.PatchFile | dashboard/scripts/postinstall.js:34-47 | the loop over patches computes `ApplyAll`, which a second run does not change if the patches are compatible |
| PatchFile.OneAfterAnother | dashboard/scripts/postinstall.js:37-45 | a list of patches is applied from the first to the last, each to what the one before left |
| PatchFile.PatchingByParts | dashboard/scripts/postinstall.js:39-43 | the first target splits the text into parts patched on their own; without a target the first source is replaced; without either nothing changes |
| PatchFile.ApplyRewritesSeparators | dashboard/scripts/postinstall.js:39-43 | the result is the same pieces in the same order, free of both strings, with the target wherever a source or target stood |
| PatchFile.ApplyIsIdempotent | dashboard/scripts/postinstall.js:38-43 | for a target without a border, patching twice is patching once |
| PatchFile.ApplyAllIsIdempotent | dashboard/scripts/postinstall.js:37-45 | the same for a list of patches that never overlap |
| PatchFile.RunChangesNothing | dashboard/scripts/postinstall.js:38-43 | for any patch, a run leaves a text alone iff no source lies outside of its targets (or source and target are equal) |
| PatchFile.SecondRunChangesNothing | dashboard/scripts/postinstall.js:38-43 | for any patch and text, patching twice is patching once iff the patched text has no source outside of its targets |
| PatchFile.BorderedTargetIsNotIdempotent | dashboard/scripts/postinstall.js:38-43 | a bordered target, unlike those of the script, for which a second run changes the text |
| InstallPatches.InstallingAgain | dashboard/scripts/postinstall.js:49-97 | every list of patches in the script satisfies the conditions, so installing again changes no patched file |
| InstallPatches.DividedAreIndependent | dashboard/scripts/postinstall.js:58-74 | two divisions of different variables never overlap in a text, patched or not |
| InstallPatches.DivisionsAreWrapped | dashboard/scripts/postinstall.js:49-74 | the targets for the styles are their sources in `calc` |
| MergedFile.Merged.Append | packages/wpk/wpkpack.py:40-52 | appends the encoding of the files below a path, depth first, or raises iff something there is neither file nor directory; what was written before stays; which files and names these are say `WalkListsTheFiles` and `ListedIffFile` |
| MergedFile.Merged.MergeAppend | packages/wpk/wpkpack.py:35-38 | the same for a list of sources |
| MergedFile.WalkListsTheFiles | packages/wpk/wpkpack.py:40-52 | a walk fails iff something below is missing; else it lists each file below once, in the order of the listings, with its data and under the names that lead to it, joined by slashes |
| MergedFile.ListedIffFile | packages/wpk/wpkpack.py:40-52 | an entry is listed iff some way down the tree leads to a file with its name and data |
| MergedFile.PackageListsTheFiles | packages/wpk/wpkpack.py:35-52 | the same for all the sources of a package, in order |
| MergedFile.Format | packages/wpk/wpkpack.py:29-47 | the characters written: a tag line after `#`, then for each file `!`, its size, a blank, its name, a newline and its data |
| MergedFile.ReadBlocks | src/shared/file_op.c:724-750 | reading in blocks of the buffer copies exactly the announced bytes, or what is left |
| MergedFile.UnmergeFiles | src/shared/file_op.c:626-786 | the reader's loop computes `Unmerge` |
| MergedFile.UnmergeStep | src/shared/file_op.c:652-750 | a readable entry is taken off whole, whatever bytes it and the rest contain |
| MergedFile.UnmergeFull | src/shared/file_op.c:652-750 | a header that fills the buffer shifts the data by one newline |
| MergedFile.CutShort | src/shared/file_op.c:724-750 | a package that ends inside the data of an entry yields the shorter file, without an error |
| MergedFile.HeaderWithoutSpace | src/shared/file_op.c:656-677 | a header without a space is an error, but what follows it is read |
| MergedFile.UnmergeIsExact | src/shared/file_op.c:626-786 | the encoding is read back, with no byte lost or left over, iff every entry survives |
| MergedFile.TwoLineNameIsLost | packages/wpk/wpkpack.py:46-46 | a name of two lines does not survive |
| MergedFile.TagIsHarmlessIffSkipped | packages/wpk/wpkpack.py:29-32 | files that survive are read back behind a tag iff no read of the tag's lines begins with `!` |
| MergedFile.OneLineIsSkipped | packages/wpk/wpkpack.py:29-32 | no read of a tag of one line that fits the buffer does |
| MergedFile.PackageIsReadBack | packages/wpk/wpkpack.py:29-52 | for any file tree, behind any such tag, the agent recovers the list of names and bytes that `PackageListsTheFiles` describes iff every entry survives |
| CLibrary.AtolReadsDecimal | packages/wpk/wpkpack.py:46-46 | the decimal size printed into a header is the number the reader's `atol` returns |
| CLibrary.DecimalStarts | packages/wpk/wpkpack.py:46-46 | sizes are printed without leading zeros |
| CLibrary.FgetsReadsLine | src/shared/file_op.c:652-668 | a line shorter than the buffer is read whole |
| HostsDeny.HostsFile.Add | src/active-response/host-deny.c:107-148 | appends the rule unless some read mentions the address |
| HostsDeny.HostsFile.Delete | src/active-response/host-deny.c:170-215 | keeps, in order, exactly the reads that do not mention the address |
| HostsDeny.RuleDenies | src/active-response/host-deny.c:86-94 | by the rules of hosts_access(5), the line added denies every service to the address and to nobody else iff the address has no colon, comma or blank |
| HostsAccess.DeniedIsWord | src/active-response/host-deny.c:65-94 | no line of this form denies anything to an address with a colon, although IPv6 addresses are accepted |
| HostsDeny.DeleteUndoesAdd | src/active-response/host-deny.c:192-213 | delete after add restores the file iff the file did not mention the address and every read of it is closed |
| HostsDeny.UnfinishedLineIsLost | src/active-response/host-deny.c:192-213 | a file without a newline at its end, which add and delete do not restore |
| CLibrary.NewlineEndedIsComplete | src/active-response/host-deny.c:119-119 | a file that is empty or ends with a newline has only closed reads |
| HostsDeny.AddIsIdempotent | src/active-response/host-deny.c:117-148 | a second add of the same address changes nothing iff, after the first, some read of the file mentions it |
| HostsDeny.CompleteFileMentions | src/active-response/host-deny.c:117-148 | which one does if every read of the file was closed |
| HostsDeny.ShortLastLineMentions | src/active-response/host-deny.c:117-148 | and if the rule fits into one read with an unfinished last line |
| HostsDeny.CutRuleIsAddedAgain | src/active-response/host-deny.c:119-120 | a last line behind which a read ends inside of the address, so that a second add is not noticed |
| HostsDeny.FileIsOriginalPlusBlocked | src/active-response/host-deny.c:97-217 | after any run over unrelated addresses the file is the original text and one rule per blocked address in order of addition |
| HostsDeny.BlockedIffLastAdded | src/active-response/host-deny.c:97-217 | an address is blocked iff the last working command for it adds it |
| HostsDeny.RunDenies | src/active-response/host-deny.c:97-217 | after any run over unrelated addresses without colons the lines of the file deny what those of the original did and exactly the blocked addresses besides |
| HostsDeny.AdditiveIffUnrelated | src/active-response/host-deny.c:97-217 | every run over a set of addresses leaves the original text and one rule per blocked address iff every read of the file is closed, it mentions none of them, and no rule mentions another of them |
| HostsDeny.PrefixAddressesInterfere | src/active-response/host-deny.c:194-194 | deleting 10.0.0.1 deletes the rule of 10.0.0.12 |
| QueueLocation.TwoPassesAreOne | integrations/maltiverse.py:704-704 | the two Python replacements are the one-pass escape of the C library |
| QueueLocation.UnescapedOfEscaped | src/shared/string_op.c:379-414 | unescaping inverts escaping, with plain text after it |
| QueueLocation.EscapedHasNoColon | src/shared/string_op.c:317-333 | an escaped location contains no unescaped colon |
| QueueLocation.EscapedIsInjective | integrations/virustotal.py:314-314 | different locations are escaped differently |
| QueueLocation.SingleBar | src/shared/string_op.c:379-414 | a bar before anything but a bar is dropped, at the end of the text it stays |
| QueueLocation.MessageIsReadBack | src/analysisd/cleanevent.c:39-56 | analysisd recovers location and payload of every message of the integrations |
| QueueLocation.AgentIsRecovered | src/analysisd/cleanevent.c:542-585 | the manager recovers number and name of the agent, its address with the integration, and the text, iff the number has no `]` and the name no `)` |
| QueueLocation.OtherLocations | src/analysisd/cleanevent.c:542-585 | a location that starts with a bracket and does not close it is a format error; one without a name in parentheses has an agent without a name |
| QueueLocation.OneColon | src/analysisd/cleanevent.c:39-45 | a message without a second colon is a format error |
| QueueLocation.ManagerIsRecovered | src/analysisd/cleanevent.c:585-588 | a message without an agent is recovered as one of the manager, from the integration |
| ConfigMerge.UpdateDefaultConfig | api/api/configuration.py:160-180 | the recursive loop, in any order of keys, computes `Merge` |
| ConfigMerge.CompatibleIffNoClash | api/api/configuration.py:174-180 | the merge raises iff the user has a dictionary with something in it where the default has a value |
| ConfigMerge.MergeByPath | api/api/configuration.py:160-187 | at every path the user's leaf where the user's file covers it, else the default's |
| ConfigMerge.MergeIsIdempotent | api/api/configuration.py:160-187 | merging the same file again changes nothing |
| ConfigMerge.MergeIsAssociative | api/api/configuration.py:160-187 | merging two files one after the other is merging their merge |
| ConfigMerge.AppendPrefixes | api/api/configuration.py:124-140 | the loop over the three path fields computes `Prefixed`, of which `PrefixedByPath` says what it is |
| ConfigMerge.PrefixedTwice | api/api/configuration.py:124-140 | a prefixed path does not get the prefix again |
| ConfigMerge.PrefixedByPath | api/api/configuration.py:124-140 | exactly the values of `https` under `key`, `cert` and `ca` change: a path from the root stays, any other has the parts of the prefix before its own, with slashes between all of them |
| ConfigMerge.LeadsToOne | api/api/configuration.py:138-138 | and this fixes the new value |
| ConfigMerge.PrefixedMerge | api/api/configuration.py:328-331 | prefixing the defaults before a merge makes no difference after it |
| ConfigMerge.LastFileWins | api/api/configuration.py:302-333 | after several files a path has the leaf of the last file that covers it |
| ConfigMerge.OwnMergeIff | api/api/configuration.py:302-333 | what `ReadAll` returns for a file after others has the values that `ReadYamlConfig` returns for it alone iff, wherever it is silent, the files before it come to the defaults, prefix included |
| ConfigMerge.OwnMergeAfterOne | api/api/configuration.py:302-333 | after one file: iff what that file says and the second does not is, with the prefix, what the defaults say |
| ConfigMerge.FullPathIsRedundant | api/api/configuration.py:328-331 | a file that writes out the full path of the default key does no harm |
| ConfigMerge.FirstFileStays | api/api/configuration.py:302-333 | two files of which the second does not get its own merge |
| ConfigMerge.Defaults.ReadYamlConfig | api/api/configuration.py:302-333 | with a file the default object itself becomes the result; without one it is untouched |
| ConfigMerge.Defaults.ReadAll | api/api/configuration.py:302-333 | the n-th file read from the same default object returns the fold of all n |
| DaemonStats.Collect | framework/bongosec/stats.py:151-159 | the `for ... else` adds the agents of a response after those already there, in the entry of the daemon if it has one |
| DaemonStats.GetAllAgents | framework/bongosec/stats.py:170-190 | the paging loop ends and collects, once each and in order, exactly the agents that the pages before the end send: all of them unless a request fails; and exactly when it fails |
| DaemonStats.ExchangeEnds | framework/bongosec/stats.py:170-190 | the exchange ends with the first page that is broken or has room for what is left; before it the pages have sent what they have room for |
| DaemonStats.NextPage | framework/bongosec/stats.py:172-186 | asking after the last id received continues where the last page stopped |
| Sequences.ChunksAreTheList | framework/bongosec/stats.py:144-145 | the chunks concatenate to the request, all but the last of the given size |
| DaemonStats.GetSomeAgents | framework/bongosec/stats.py:147-166 | each request is for fewer than 75 agents, and together they are for every eligible agent in order; the chunked path yields one entry with the answers to the requests that succeeded, sorted by id |
| DaemonStats.IsServed | framework/bongosec/stats.py:147-162 | an agent is among them iff a request for it succeeded |
| DaemonStats.AnswersAt | framework/bongosec/stats.py:151-159 | with one answer for each, in order |
| DaemonStats.SortedIsUnique | framework/bongosec/stats.py:164-166 | a list sorted by distinct ids is determined by its elements |
| DaemonStats.ChunkedEqualsPaged | framework/bongosec/stats.py:145-190 | when nothing fails, asking for all agents in any requests, in any order, gives what the pages give |
| RulesetFilter.GetRules | framework/bongosec/rule.py:97-138 | never raises on a removal; leaves the order-preserving filter by all given criteria, repetitions included; reports the ids not loaded; and when it answers 1203 or 1202 |
| RulesetFilter.Consider | framework/bongosec/rule.py:121-132 | one visit removes one equal rule iff some given criterion rejects it |
| RulesetFilter.RejectedOrMatches | framework/bongosec/rule.py:113-130 | the criteria of the loop are the conjunction the request asks for, substring match of directories included |
| RulesetFilter.GetDecoders | framework/bongosec/decoder.py:66-108 | the same for decoders, whose visits may remove several copies |
| RulesetFilter.ConsiderDecoder | framework/bongosec/decoder.py:85-102 | one visit removes at least one copy, if there is one, iff the decoder does not match, and takes its name off the missing ones once |
| RulesetFilter.Visit | framework/bongosec/decoder.py:85-102 | whatever a visit removes, what passes is untouched and what fails is left at most as often as it will be visited |
| RulesetFilter.ReportedMissing | framework/bongosec/rule.py:118-120 | a requested id is reported missing iff it is requested more often than loaded; for one request, iff it is not loaded |
| RulesetFilter.RemoveFiles | framework/bongosec/core/rule.py:207-216 | raises iff an entry is listed twice, has the wrong status and is wrong in another way; otherwise the exact filter |
| RulesetFilter.EveryStatusIsListed | framework/bongosec/core/rule.py:211-212 | a listing of every status never raises and filters by directory and name alone |
| RulesetFilter.AgreeStep | framework/bongosec/core/rule.py:209-214 | how often each entry is still in the list after a visit, and that a failing removal means a repetition |
| RulesetFilter.RepeatedEntryRaises | framework/bongosec/core/rule.py:207-216 | an input on which the listing of files raises |
| ActiveResponseArguments.Strcat | src/active-response/active_responses.c:354-357 | appends within the array and keeps it NUL-terminated |
| ActiveResponseArguments.GetExtraArgs | src/active-response/active_responses.c:347-365 | never writes outside 4096 bytes; yields the single-space join of the longest prefix of the string items that passes the size test, without leading empty ones |
| ActiveResponseArguments.LongestIsUnique | src/active-response/active_responses.c:351-353 | there is only one such prefix |
| ActiveResponseArguments.GetKeys | src/active-response/active_responses.c:386-406 | the same with a dash before each |
| ActiveResponseArguments.AllArgumentsAreKept | src/active-response/active_responses.c:351-353 | nothing is cut off iff the join has at most 4095 characters and no argument alone has more than 4094 |
| ActiveResponseArguments.AllKeysAreKept | src/active-response/active_responses.c:390-392 | nothing is cut off iff the key string has at most 4095 characters |
| ActiveResponseArguments.KeysAreReadBack | src/active-response/active_responses.c:393-394 | keys without a dash can be read off the key string |
| ActiveResponseArguments.SameKeyString | src/active-response/active_responses.c:393-394 | two lists of keys have the same key string iff they are equal after cutting every key at its dashes |
| ActiveResponseArguments.KeysCollide | src/active-response/active_responses.c:393-394 | two different lists of keys with the same key string |
| AgentUpgrade.Partition | framework/bongosec/agent.py:1148-1184 | every requested agent is refused once, with the code that applies to it, or eligible; formatting the refusals fails iff there are no filters and an agent is non-eligible |
| AgentUpgrade.Fates | framework/bongosec/agent.py:1161-1184 | the set expressions are the five cases of `Refusal` |
| AgentUpgrade.QueryWithoutFilters | framework/bongosec/agent.py:1175-1182 | an agent whose refusal cannot be formatted |
| AgentUpgrade.Attempt | framework/bongosec/core/agent.py:1424-1438 | one pass over the chunks returns the server's replies to them, or stops after the first reply with an unreachable task manager |
| AgentUpgrade.CreateUpgradeTasks | framework/bongosec/core/agent.py:1402-1440 | ends, and returns the server's replies to the chunks of the first size that gets through |
| AgentUpgrade.CreatedAnswersAll | framework/bongosec/core/agent.py:1402-1440 | if the server answers for every agent it is asked about, every eligible agent is answered once in what is returned |
| AgentUpgrade.KeptIsReachable | framework/bongosec/core/agent.py:1433-1436 | an unreachable task manager, error 4, is only reported after chunks of one agent |
| AgentUpgrade.SmallerOnlyWhenUnreachable | framework/bongosec/core/agent.py:1433-1436 | a smaller size is only tried when the call before it, with a chunk of twice that size, found the task manager unreachable |
| AgentUpgrade.LastRequestsAreKept | framework/bongosec/core/agent.py:1424-1440 | the replies that are kept are those to the last requests |
| AgentUpgrade.RequestsAreFew | framework/bongosec/core/agent.py:1424-1440 | an agent is part of at most log2(size) + 1 requests, the abandoned ones included |
| AgentUpgrade.Classify | framework/bongosec/agent.py:1194-1217 | the loops compute `Outcome` of the answers |
| AgentUpgrade.RaisesIffFatal | framework/bongosec/agent.py:1206-1217 | raises iff some answer has an error whose number plus 1810 is not a tolerated code, with the code of the first such answer |
| AgentUpgrade.AsAnswered | framework/bongosec/agent.py:1196-1209 | an agent is affected iff it was answered with success, and failed with a code iff it was answered with that error |
| AgentUpgrade.UpgradeAgents | framework/bongosec/agent.py:1138-1221 | the result is the outcome of the server's answers to the eligible agents, in some order, after the others have been refused for the reason that applies; without filters and with a non-eligible agent the refusals cannot be formatted |
| AgentUpgrade.EveryAgentIsReported | framework/bongosec/agent.py:1138-1221 | if the server answers for every agent it is asked about and nothing is raised, each requested agent is reported exactly once |
| AgentUpgrade.CheckStatus | framework/scripts/agent_upgrade.py:156-195 | at any time updated, failed and pending agents share out the initial ones: a new version follows a report of status `Updated` or with `Legacy upgrade` in it, a failure one with `Error`, `Timeout` or `cancelled` in it, whose text is the error message iff it has `Error`; nothing of the kind has been reported of the pending ones; the loop ends with the first poll that leaves none pending |
| AgentUpgrade.Round | framework/scripts/agent_upgrade.py:180-192 | one round settles exactly the agents with such a report, and each of them is still a key of the dictionary when it is updated or popped |
| AgentUpgrade.EndsOnce | framework/scripts/agent_upgrade.py:175-192 | no agent has two final reports |
| AgentUpgrade.EndedOrPending | framework/scripts/agent_upgrade.py:175-192 | an agent is pending iff it has no final report yet |
| AgentUpgrade.WaitIsOver | framework/scripts/agent_upgrade.py:175-193 | the loop has ended once every agent has had a poll that reports its end |
| CsvReport.RoundTrip | dashboard/tasks/licenses_csv_report.js:41-62 | a table of at least two columns is parsed back exactly by a reader for section 2 of RFC 4180, null and empty text kept apart |
| CsvReport.TableIsRead | dashboard/tasks/licenses_csv_report.js:41-62 | for tables of any width: read back iff the last row is not a single null |
| CsvReport.ReportIsRead | dashboard/tasks/licenses_csv_report.js:100-115 | the file reads as the names of the fields, then for each package in turn what it says of every field, null where it says nothing |
| CsvReport.LicensesAreRead | dashboard/tasks/licenses_csv_report.js:66-115 | of each package name, version, address or its page at npm, licenses and source |
| CsvReport.WrittenText | dashboard/tasks/licenses_csv_report.js:41-62 | the characters written for two packages with a quote, an empty text and nulls |
| DecoderScan.ParentDecoderNames | ruleset/testing/coverage.py:107-128 | the line automaton returns the names of the closed blocks without a parent line |
| DecoderScan.PrintedIsScanned | ruleset/testing/coverage.py:107-128 | scanning printed blocks finds those blocks, with nothing carried from one to the next |
| DecoderScan.NamesOfPrinted | ruleset/testing/coverage.py:107-128 | a name is found iff some block has it and no line that names a parent |

## Left out

- Sockets, HTTP, processes and signals, JWT and keys, cryptography and compression: only the outcome that a loop depends on is an input.
- Role-based access control and `BongosecDBQuery`: query answers are inputs; `AgentUpgrade.QueryAnswer` states what is expected of one.
- `framework/bongosec/security.py`, `api/api/authentication.py`: their guarantees lie in ORM managers that are not part of this model.
- Regular expressions: lines of decoder files are tokens in `DecoderScan`; the path and XML validators are outcomes in `RulesetStore`.
- DirectoryLock: a process calls `lock` once, and pids are not reused; a file system error other than those in the steps is not modelled.
- RulesetStore.Store.PerformAll: copies are all or nothing here; the methods themselves also cover interrupted copies. Moving a backup back is taken to work. Content is what `upload_file` writes after it has escaped it. Metadata of files is not modelled.
- LoginBlocker, RateLimiter: one check is one step, as in the single-threaded event loop; clock readings of the limiter are after the epoch.
- PatchFile: empty sources and targets, for which `split` is another operation. `ApplyAllIsIdempotent` asks that no two patches of a list overlap; `InstallingAgain` shows it for the lists of the script.
- MergedFile: a character is a byte, so names are in a single-byte encoding; signs and blanks before a size, which the writer never prints; on the agent, the directory that is put in front of a name, its creation, the refusal of `..` in it, and the temporary file. A tag that begins a read with `!` is not excluded, but `PackageIsReadBack` does not say what is read behind it.
- HostsDeny: NUL bytes in the file, and addresses longer than 4000 characters, whose rule would be cut.
- QueueLocation: the size of the receiver's buffer, and the date and host name that `OS_CleanMSG` looks for in the text.
- HostsAccess: brackets around addresses, patterns other than `ALL` and a single client, and which of several lines wins.
- ConfigMerge: dictionaries are values held in a field, so sharing of subtrees between configurations is not captured; `replace_bools`, `dict_to_lowercase` and the JSON schema come before the merge and are not modelled.
- DaemonStats.GetAllAgents: the server is taken to answer in ascending order after the last id and to send no empty page while agents remain, without which the source would not end.
- RulesetFilter.GetRules: the digits of `level` are already numbers; sorting, searching and paging by `process_array` are not modelled. `get_path_lists` has the same loop as `GetRules` and is not repeated.
- ActiveResponseArguments: the JSON parser; a value is what the C string functions see of it.
- AgentUpgrade: agents are numbers, `int` and `zfill(3)` being inverse on ids; the final sort by agent. `CheckStatus` is observed for a number of polls, because the source waits for ever for an agent that never ends. `delete_agents` is a partition of the same kind.
- AgentUpgrade.CreateUpgradeTasks: the server is a function of the number and the chunk of a request, so any answers are covered, but not the tasks it keeps from an attempt that is given up.
- CsvReport: `toString` of values that are not text.
- `netsh.c`, `route-null.c`, `firewalld-drop.c`, `disable-account.c` and the thin wrappers of the framework: case analysis or delegation without a property beyond it.
