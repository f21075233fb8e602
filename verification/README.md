# SAFS and ramfs, modelled and proved in Dafny

SAFS (`safs.c`) is a flat file system kept in a directory table `Directory~`, an inode table
`Inodes~`, one backing file per storage name and a global inode counter. Every call scans the table
record by record and writes one record back. ramfs (`fuse-examples/ramfs/fuse-test.cpp`) keeps each file
as a map from offset to byte whose length is the number of its keys, so that reading, which goes through
`operator[]`, can change it.

`dafny verify dfyconfig.toml` checks the whole project. Nothing here runs either program.

## How the model is built

SAFS, from the bytes up:

- `Bytes`, `Codecs`, `Layout`, `Table`: files of bytes, record layouts, and the class `Cursor`, an open
  descriptor with a byte offset. Reading and writing at `index * sizeof(record)` is proved to be indexing
  and updating a sequence of records.
- `Store`: each call as a function on record sequences, backing bytes and counter, branch by branch as
  coded. `Safs`: the class with the mutable files and counter; each method, scan loops included, is proved
  to do what the function of the same name does.
- `Unlinking`: `safs_unlink` as a machine that makes one system call at a time, any of which the system may
  refuse. The method `Safs.Unlink` takes the oracle of refusals and is proved to end where the machine does.
  `Refusals`: what the machine leaves behind at every call, and which refusals a return of 0 hides.
- `Slots`, `Sessions`, `Upkeep`: what keeps the store a file system. `Sessions.Invariant` says: names are
  unique, entries share storage exactly when they share an inode, storage exists, inode numbers and occupied
  slots are below the counter, and link counts count names. `Sessions.Admissible` lists what callers have
  to see to. Every call, link and unlink in their intended form, keeps the invariant if and only if it is
  admissible.
- `Files`, `Refinement`: the abstract file system (name to inode number, inode number to record and bytes)
  and the forward simulation, call by call and for every run from a fresh store.
- `Divergence`, `Contents`, `Numbers`, `Compaction`, `Examples`: properties of the code as it is, the exact
  condition for each contract it breaks, and short sessions that break it.
- `Answers`: what each call of the code answers and changes in every store it can meet, with or without the
  invariant, field by field, slot by slot and byte by byte; and which modes it accepts.
- `Room`: exactly when occupied slots stay below the counter, over runs with no obligation on names.
- `Conformance`: exactly which calls and runs of the code are calls and runs of the abstract file system,
  replies included. `Ledger`: for sessions on a fresh disk, the same as a condition on the requests alone.
- `Uncounted`: the same with link counts left aside, which is what there is to say of runs with hard links.
- `Posix`: exactly which of these calls and runs look like calls and runs on files that are strings of bytes.

ramfs: `RamFile` (one file), `RamFs` (the global map, as a class, and its runs) and `RamExamples`.

## Where the code departs from its intent

The functions in `Store` and the methods in `Safs` follow the code. Two steps are also given in an intended
form, which keeps link counts equal to the number of names whenever the call is admitted:
`Sessions.IntendedLink` counts the linked inode (the code counts whatever inode the free-slot scan left in its
buffer, safs.c:216-218), and `Sessions.IntendedUnlink` removes the entry's storage with the last link (the code
removes the file called like the name, at once, and stops half-way when there is none, safs.c:372-378). As
coded, link keeps counts right only in the cases of `Divergence.LinkCountsIff`, and unlink in those of
`Divergence.UnlinkCountsIff`, which include every name that has a file.

`Refinement` is about the intended steps; `Divergence.CodedAgreesIff` says exactly which calls of the code are
those steps. `Conformance` is about the code itself: `Conformance.CallConformsIff` and
`Conformance.RunConformsIff` say exactly which calls and runs of the code are calls and runs of the abstract
file system, and `Conformance.CodedRunRefines` compares the last state and all replies. On a fresh disk these
runs have no link that takes effect (`Ledger.SessionLinksMiss`): slot 0 is free as long as nothing was linked,
so the first link counts the wrong inode. What such a session may do is stated in terms of its requests
(`Ledger.SessionConformsIff`). Runs with links are runs of the file system in everything but link counts, again
with an exact condition (`Uncounted.RunConformsButCountsIff`). Everything in `Answers`, `Refusals`, `Room`, `Contents`,
`Numbers`, `Divergence` and `Examples` is about the code too;
`Contents.CodedRunCoreIff` in particular says exactly which runs of the code keep the directory sound, link
counts aside. Both forms of unlink report success for a name that is not there, as the code does.

The other departures, each with an if-and-only-if: `mknod` over a live entry (`Divergence.MknodLosesIff`,
`Slots.LinkSlotIff`), `mknod` over the storage of a renamed file (`Upkeep.MknodCoreIff`), an unlink that packs
entries past the counter (`Upkeep.UnlinkInvariantIff`), the counter after a restart
(`Divergence.ReloadFreshIff`), the recorded size after writes, truncations and reads
(`Contents.WriteVisibleIff`, `Contents.TruncateVisibleIff`, `Contents.ReadVisibleIff`,
`Contents.SizeBoundedIff`, and over runs `Posix.RunShows`), a refused read inside unlink
(`Refusals.SuccessKeepsAllIff`), and, in ramfs, writes that leave holes (`RamFile.WriteDenseIff`) and truncation of files with holes (`RamFile.ShrinkIff`,
`RamFile.TruncateSizeIff`). Each has a short session in `Examples` or `RamExamples`. safs.h:63
promises that growing a file adds zeros; the model follows the code.

## Model

| member | source | states |
|---|---|---|
| Bytes.ReadBack | safs.c:542-543 | what a positioned write put there is what a positioned read of that range returns |
| Layout.DentryLayout | safs.c:24-28 | every directory entry survives its layout of two string buffers and a number, and a block of zero bytes is the free entry |
| Layout.StatLayout | safs.c:113-117 | every inode record survives its layout, and a block of zero bytes is the zero record |
| Table.ReadIsIndex | safs.c:136-147 | reading one record at `index * size` yields record `index`, or nothing exactly at and past the end |
| Table.WriteIsPut | safs.c:105-117 | writing one record at `index * size` replaces that record and no other, fills a gap with zero records and keeps the file a whole number of records |
| Table.Cursor.Next | safs.c:74-74 | one turn of the scan: the next record, or the buffer as it was at the end of the file |
| Table.Cursor.Write | safs.c:77-78 | after an aligned seek, the table is the old one with that record put at the index |
| Table.Scan | safs.c:609-615 | the read loop visits exactly the records of the file, in order |
| Safs.Safs.Search | safs.c:506-513 | the scan stops at the first live entry of the name, or reports that there is none |
| Safs.Safs.SearchFree | safs.c:193-203 | the scan yields the first unused slot or the end, and leaves in the buffer the inode number of the last record read |
| Safs.Safs.Rename | safs.c:61-87 | only the name of the first live entry changes; ENOENT and EIO paths included |
| Safs.Safs.WriteInode | safs.c:92-123 | the record at the number is replaced, the table extended by zero records if needed |
| Safs.Safs.ReadInode | safs.c:128-151 | the record at a number that has one; past the end of the table an error, with the caller's record as it was |
| Safs.Safs.Link | safs.c:156-222 | the new entry in the slot the scan chose, and a link added to the inode left over in the buffer, as coded |
| Safs.Safs.Chmod | safs.c:227-254 | the mode of the named inode, nothing else |
| Safs.Safs.Utimens | safs.c:264-289 | the two times of the named inode, nothing else |
| Safs.Safs.Ftruncate | safs.c:306-335 | the recorded size, after a one-byte write at the new end when growing, with the record read before that write put back |
| Safs.Safs.Mknod | safs.c:411-486 | empty backing file, inode record and entry at the counter's slot, counter one higher; EPERM before anything is touched |
| Safs.Safs.Write | safs.c:491-549 | size and times recorded before the bytes are spliced in; EIO after the record changed when there is no backing file |
| Safs.Safs.Getattr | safs.c:565-581 | the named inode's record and the block count from its size |
| Safs.Safs.Readdir | safs.c:595-623 | one line per live entry, in slot order, with its inode's record |
| Safs.Safs.Open | safs.c:634-674 | EPERM for writing without write bits, size zero under truncation |
| Safs.Safs.Read | safs.c:680-726 | the access time is recorded, the bytes come from the entry's storage |
| Safs.Safs.Reload | safs.c:753-756 | the scan leaves the counter at the largest number in the table, or where it was |
| Safs.Safs.Strike | safs.c:367-378 | a record of the unlinked name: the count drops, then the file called like the name goes or the call ends |
| Safs.Safs.Place | safs.c:383-394 | any other named record goes to the next slot, or the call ends at the refused seek or write |
| Safs.Safs.Rebuild | safs.c:362-397 | the whole loop, under any pattern of refusals, ends where the machine ends |
| Safs.Safs.Unlink | safs.c:340-406 | the call, under any pattern of refusals, leaves files, inodes and return code as the machine does after the same calls |
| Unlinking.HeldStep | safs.c:347-405 | one system call, granted or refused, keeps the account of both tables |
| Refusals.NothingLostUntilSuccess | safs.c:347-405 | at every point of every run each inode has lost one link per record of the name read and nothing else, no file but the one called like the name is gone, and, short of returning 0, the old table is intact under one of its names, beside the compacted form of what was read, less at most the last record |
| Refusals.TablesDespiteInodes | safs.c:367-370 | whatever the inode reads and writes do or fail to do, calls, tables, files and return code are the same and the old table is as safe |
| Refusals.ReturnsIff | safs.c:347-405 | the call returns 0 if and only if everything it needed was granted and possible, ENOENT if and only if the first record not dealt with has the name and its file is missing, and EIO if and only if a call was refused before either |
| Refusals.PacedAlways | safs.c:347-405 | which record the machine is at, as a function of the number of calls made and of the table |
| Refusals.SuccessKeepsAllIff | safs.c:362-402 | returning 0 means that what stands before the first refused read was kept, and that everything was if and only if no read up to the last record to be kept was refused |
| Refusals.LeftoversOverwritten | safs.c:348-349 | once its first call is granted, nothing an earlier failed call left in the temporary table remains |
| Unlinking.UnlinkMissing | safs.c:362-405 | a missing name: success, and the table compacted |
| Unlinking.UnlinkFound | safs.c:362-405 | a name that is there: count down, same-named file gone, table filtered; without such a file, ENOENT with the table cut at the entry; with a second entry of the name, ENOENT with the table cut at that one |
| Unlinking.GrantedIsUnlink | safs.c:340-406 | with nothing refused the machine's result is the fault-free function's |
| Answers.RegularIs | safs.c:420-421 | the modes mknod accepts are those whose file-type digit is 8 |
| Answers.WritableIs | safs.c:655-655 | a file counts as writable if and only if owner, group or others may write |
| Answers.RelinkIs | safs.c:217-217 | a link counted or dropped changes the count by one, around the ends of a word, and no other field |
| Answers.MissingAnswers | safs.c:61-726 | a name that is not there: ENOENT and nothing changed, or success for unlink |
| Answers.ChmodAnswers | safs.c:239-242 | the mode of one record, every other field and record as it was, 0 |
| Answers.UtimensAnswers | safs.c:276-281 | the two times of one record, every other field and record as it was, 0 |
| Answers.OpenAnswers | safs.c:646-671 | EPERM exactly for write-only on a file nobody may write; size zero exactly when truncation is asked for and not refused |
| Answers.WriteAnswers | safs.c:522-548 | size and times in any case; with a file in the storage its bytes and the length written, without one EIO and no file made |
| Answers.ReadAnswers | safs.c:708-725 | the access time in any case; with a file the stored bytes from the offset, cut at their end, without one EIO and no bytes |
| Answers.TruncateAnswers | safs.c:318-329 | 0, only the recorded size changed, and a zero byte at the new end of a growing file that has storage |
| Answers.GetattrAnswers | safs.c:571-578 | the record of the first entry, with one block more than the full ones |
| Answers.RenameAnswers | safs.c:75-80 | 0 whether or not the new name is taken; one entry renamed, nothing else |
| Answers.MknodAnswers | safs.c:411-486 | the new record, entry and file field by field; all others as they were, gaps free; EPERM and no change for other modes |
| Answers.CreatedGetattr | safs.c:444-452 | getattr of a name just created gives the mode, owner, group, number and time of the call, one link, no size, one block |
| Answers.CreatedNode | safs.c:444-452 | so does the abstract file system |
| Answers.LinkEntry | safs.c:186-213 | 0 and one new entry with the storage and number of the old, in the first unused slot or at the end |
| Answers.LinkRecords | safs.c:193-218 | in a full table the inode of the last entry gains the link, in any other none but the unused record 0 |
| Answers.LinkGetattr | safs.c:216-218 | what getattr then says of any name |
| Answers.UnlinkAnswers | safs.c:365-405 | 0 or ENOENT, the links lost by each inode, and the one file gone, for any table |
| Answers.ListingAt | safs.c:609-615 | each live entry is listed once, in slot order |
| Compaction.LookupSurvives | safs.c:571-578 | after the rebuild the removed name finds nothing and every other name finds the same record |
| Compaction.ListingSurvives | safs.c:609-615 | the listing after the rebuild is the old one, in order, without the removed name |
| Slots.Pigeonhole | safs.c:469-469 | with all occupied slots below the counter there are at most that many live entries, and with exactly that many there is no hole |
| Slots.FreeSlotBound | safs.c:192-203 | link's slot is no higher than the number of live entries |
| Slots.LinkSlotIff | safs.c:192-213 | link keeps occupied slots below the counter if and only if fewer entries are live than the counter |
| Slots.CompactedSlotIff | safs.c:345-397 | packing from slot 2 keeps occupied slots below the counter if and only if what is packed fits there |
| Slots.KeptCount | safs.c:362-397 | all that is packed is live, as many as were live less those of the name |
| Room.KeptFewer | safs.c:362-397 | wherever it stops, unlink of a name that is there packs fewer records than were live |
| Room.SlotSafeIff | safs.c:61-486 | a call of the code keeps occupied slots below the counter if and only if what link or unlink places ends below it, with no condition on names |
| Room.RunSlotSafeIff | safs.c:61-486 | over a run of the code occupied slots stay below the counter in every state if and only if every call had that room |
| Room.RunFewSafe | safs.c:61-486 | so they do over every mix of calls in which links of a bound name, and unlinks, which are of bound names, are made while fewer entries are live than the counter |
| Room.SessionSlotSafe | safs.c:61-486 | both on a fresh disk |
| Upkeep.MknodCoreIff | safs.c:411-486 | creation keeps the directory sound if and only if the name is neither bound nor the storage of a live entry |
| Upkeep.MknodCounted | safs.c:444-452 | an admitted creation keeps every link count right |
| Upkeep.LinkCoreIff | safs.c:186-213 | linking keeps the directory sound if and only if the new name is free and there is room below the counter |
| Upkeep.LinkCounted | safs.c:215-218 | counting the linked inode keeps every link count the number of its names |
| Upkeep.RenameCoreIff | safs.c:75-80 | renaming keeps the directory sound if and only if the new name is the old one or free |
| Upkeep.UnlinkInvariantIff | safs.c:345-397 | the intended unlink keeps the whole invariant if and only if what is left fits below the counter |
| Upkeep.InvariantKeptIff | safs.c:61-486 | for every call: invariant kept if and only if the caller's obligation was met |
| Upkeep.LinkCountsConserved | safs.c:215-218 | the link counts of all named inodes add up to the number of names |
| Refinement.MatchUnique | safs.c:571-578 | a store has at most one abstract file system |
| Refinement.CallRefines | safs.c:61-726 | an admitted call does to tables, files and counter what it does to the abstract file system, with the same answer |
| Refinement.RunSafeIff | safs.c:61-726 | a run keeps the invariant in every state if and only if every call met its obligation |
| Refinement.RunRefines | safs.c:61-726 | every such run refines the same run of the abstract file system and gets the same replies |
| Refinement.SessionRefines | safs.c:61-726 | so does every such run from a fresh store |
| Divergence.LinkAgreesIff | safs.c:193-218 | link as coded is the intended link if and only if the table has no hole and ends with an entry of the linked inode |
| Divergence.LinkCountsIff | safs.c:215-218 | link as coded keeps counts right in just those cases |
| Divergence.MknodLosesIff | safs.c:469-475 | a bound name is lost to a creation if and only if its entry stands at the counter's slot |
| Divergence.UnlinkAgreesIff | safs.c:365-378 | unlink as coded is the intended unlink if and only if the name is the inode's last and is what its storage is called |
| Divergence.UnlinkCountsIff | safs.c:365-378 | unlink as coded keeps counts right if and only if there is a file of the name or no inode is named on both sides of the entry |
| Divergence.UnlinkAliasHides | safs.c:372-378 | without a file of that name the failing call leaves bound exactly the names that stood before the removed one |
| Divergence.CodedAgreesIff | safs.c:61-726 | under the invariant, the calls the code gets right are exactly the honest ones |
| Divergence.MaxInumIs | safs.c:753-756 | the scan's result bounds the start and every number, and is one of them |
| Divergence.ReloadFreshIff | safs.c:753-756 | after a restart the counter is above all live numbers if and only if nothing is live |
| Divergence.IntendedReloadFresh | safs.c:753-756 | one more than the scan's result is above all numbers of any table |
| Divergence.ReloadReuses | safs.c:452-463 | the first creation after a restart with live files overwrites the inode record of one of them |
| Conformance.CallConformsIff | safs.c:61-726 | under the invariant a call of the code does and answers what the file system does if and only if it is admissible, a link finds a full table ending with its inode, and an unlink finds a file of its name that stores no other entry |
| Conformance.RunConformsIff | safs.c:61-726 | a run of the code is step by step a run of the file system if and only if every call is such a call |
| Conformance.CodedRunRefines | safs.c:61-726 | and then its last store refines the last state and all replies are equal |
| Conformance.CodedSessionRefines | safs.c:61-726 | so it is from a fresh store, where such a run has no link that takes effect |
| Conformance.LookupsRefine | safs.c:571-615 | getattr returns what the abstract file system has, and readdir lists just that, each name once |
| Conformance.CarefulRunAgrees | safs.c:61-726 | runs of the code made of admitted, honest calls are runs of the intended steps, with the same replies and all obligations met |
| Conformance.HonestIsSound | safs.c:61-726 | an admitted, honest call is one of those that conform |
| Conformance.CarefulRunRefines | safs.c:61-726 | careful runs of the code refine the same run of the abstract file system, reply by reply |
| Ledger.SoundIsFair | safs.c:61-486 | a call in a session on a fresh disk meets the condition for being the file system's if and only if it is fair by what a caller can note down of earlier requests |
| Ledger.SessionConformsIff | safs.c:61-726 | a session of the code on a fresh disk is step by step one of the file system if and only if its requests are fair: new names unused, no link of a file that is there, files removed under their first names, and no missing name removed while files exist and none was ever removed |
| Ledger.SessionLinksMiss | safs.c:192-218 | in such a session every link is of a name that is not there |
| Ledger.FairSessionRefines | safs.c:61-726 | a fair session ends in the file system's last state and gets all its replies |
| Uncounted.CodedSame | safs.c:61-726 | no call of the code looks at link counts |
| Uncounted.CallConformsButCountsIff | safs.c:61-726 | a call of the code is, but for link counts, the file system's call if and only if it is admissible and an unlink finds a file of its name that stores no other entry |
| Uncounted.RunConformsButCountsIff | safs.c:61-726 | a run with hard links is, but for link counts, step by step a run of the file system if and only if every call is such a call |
| Uncounted.TidyRunRefines | safs.c:61-726 | and then its last store is, but for link counts, the last state and all replies are equal |
| Uncounted.TidySessionRefines | safs.c:61-726 | so it is from a fresh store |
| Posix.ApplySeenIff | safs.c:306-335 | a call on one file looks like the POSIX call on a string of bytes if and only if the write, truncation or read meets its condition; opening with truncation always does |
| Posix.NextSeenIff | safs.c:61-726 | the same for every call on all files |
| Posix.CallShowsIff | safs.c:61-726 | a tidy call of the code shows what the POSIX call makes, with its reply, if and only if it meets that condition on the record and stored bytes behind its name |
| Posix.RunShows | safs.c:61-726 | a run of the code of such calls is, link counts aside, a run of a file system whose files are strings of bytes, with the same replies |
| Posix.SessionShows | safs.c:61-726 | so it is from a fresh store |
| Contents.UnlinkCodedCore | safs.c:340-406 | unlink as coded keeps the directory sound if and only if no other entry is stored under the name and what is rebuilt fits below the counter |
| Contents.CodedCore | safs.c:61-726 | every call of the code keeps the directory sound if and only if its obligation was met, whatever it does to link counts |
| Contents.CodedRunCoreIff | safs.c:61-726 | a run of the code keeps the directory sound in every state if and only if every obligation was met |
| Contents.SizeBoundedIff | safs.c:526-543 | an admitted call of the code keeps recorded sizes within stored bytes if and only if it is not a write of nothing past the stored end |
| Contents.SizesStayBounded | safs.c:306-335 | so does every run of such calls |
| Contents.TruncateVisibleIff | safs.c:318-329 | truncation shows the cut or zero-padded contents if and only if no leftover byte lies where it grows |
| Contents.WriteVisibleIff | safs.c:526-543 | a write shows the splice if and only if it reaches the recorded end and no leftover byte lies before it, or, writing nothing, is made at the recorded end |
| Contents.ReadVisibleIff | safs.c:716-720 | a read returns the visible bytes if and only if it asks for nothing, the recorded size is the stored one, or the request is past both or within both |
| Contents.AliasesMove | safs.c:239-242 | after a call through one name all names of its inode show the same, and names of other inodes what they showed before |
| Contents.LinkIsAlias | safs.c:186-190 | a new link shows the same inode and bytes as the old name |
| Contents.RenamesMoveNothing | safs.c:75-80 | any list of renames leaves every slot's inode and storage, all records and all bytes |
| Contents.ReadAfterWrite | safs.c:694-725 | after a write and any renames, any read through any name of the inode sees the old bytes with the new spliced in |
| Numbers.CodedRunnableIff | safs.c:61-726 | any sequence of calls is a run of the code as long as counter and offsets stay in range |
| Numbers.RunnableIff | safs.c:61-726 | and of the intended steps |
| Numbers.CodedFresh | safs.c:480-480 | every call of the code keeps numbers below the counter, which moves by one on creation and otherwise not at all |
| Numbers.IssuedConsecutive | safs.c:452-480 | over every run of the code, whatever its callers do as long as counter and offsets stay in range, the numbers given out are consecutive and stay below the counter |
| Numbers.ListingAgrees | safs.c:571-615 | in every store the code can reach a name is listed if and only if getattr finds it, and the record getattr finds is listed; where names are unique it is the only line |
| Examples.LinkMiscounts | safs.c:215-218 | create and link: two names, count one |
| Examples.CreateDestroysLink | safs.c:469-475 | one creation, two links, one more creation: a linked name is gone |
| Examples.CreateEmptiesRenamed | safs.c:437-437 | creating the old name of a renamed file empties it |
| Examples.UnlinkRenamedFails | safs.c:373-378 | unlinking a renamed file fails and empties the directory |
| Examples.NextUnlinkLosesAll | safs.c:348-349 | and the next unlink removes the last copy |
| Examples.RestartReuses | safs.c:753-756 | create, restart, create: the same inode number |
| Examples.RestartUnsafe | safs.c:753-756 | with the counter repaired, a restart after an unlink still lets a creation overwrite a live entry |
| Examples.TruncateShowsOldBytes | safs.c:320-327 | growing a file that was cut shows its old bytes |
| Examples.WriteCutsSize | safs.c:526-529 | writing one byte at the front of a file of two leaves a file of one |
| Examples.ReadPassesSize | safs.c:716-720 | a file cut to nothing still yields its bytes |
| Examples.EmptyWriteExtends | safs.c:526-529 | writing nothing past the end records a size with nothing stored |
| Examples.RefusedReadLosesAll | safs.c:362-402 | an unlink whose first read is refused returns 0 with every name gone from both tables |
| Examples.LinkCountsAnother | safs.c:216-218 | two creations and two links: getattr gives two links to a file that has one name |
| Examples.WriteFindsNoFile | safs.c:538-540 | after a link and an unlink of the first name, a write through the other answers EIO |
| Examples.UnlinkOverBudget | safs.c:345-397 | two creations, a link, an unlink and a creation: a name nobody removed is gone |
| Examples.UnlinkTwiceBoundFails | safs.c:365-378 | unlinking a name bound twice by a rename fails, with its file and all names gone |
| Examples.UnlinkMiscounts | safs.c:365-378 | in a store that is a file system, link counts included, an unlink stops between two names of an inode and leaves a wrong count |
| Examples.UnlinkMiscountsSession | safs.c:61-486 | nine calls of the code on a fresh disk lead to such a store |
| RamFile.WrittenIs | fuse-examples/ramfs/fuse-test.cpp:166-167 | after the write loop the written offsets are keys and hold the data, and every other offset holds what it held |
| RamFile.TouchedIs | fuse-examples/ramfs/fuse-test.cpp:141-142 | after the read loop the offsets read are keys too, and no offset holds anything else than before |
| RamFile.ImageInjective | fuse-examples/ramfs/fuse-test.cpp:18-18 | two files without holes that show the same bytes are the same map |
| RamFile.WriteDenseIff | fuse-examples/ramfs/fuse-test.cpp:166-167 | a write keeps a file without holes if and only if it is empty or starts no later than the end, and is then a splice |
| RamFile.ReadDense | fuse-examples/ramfs/fuse-test.cpp:128-149 | reading a file without holes changes nothing and returns the slice cut at the end, or EINVAL at the end |
| RamFile.TruncateDense | fuse-examples/ramfs/fuse-test.cpp:225-234 | truncating a file without holes is the prefix or the zero padding |
| RamFile.ReadSparse | fuse-examples/ramfs/fuse-test.cpp:128-149 | a read of any file that starts inside its size returns the request cut at the size, zeros for holes; it adds exactly the offsets read to the keys, changes no content, and grows the file by the holes among them; any other read answers EINVAL |
| RamFile.TruncatedKeys | fuse-examples/ramfs/fuse-test.cpp:225-234 | exactly which offsets are keys after a truncation of any file |
| RamFile.ReadAllProgress | fuse-examples/ramfs/fuse-test.cpp:128-142 | a whole-file read leaves the file as it is if and only if it has no holes, and otherwise lengthens it, never past its last key |
| RamFile.ReadsConverge | fuse-examples/ramfs/fuse-test.cpp:128-142 | after (last key + 1 - size) whole-file reads the file is the one without holes up to its last key |
| RamFile.ShrinkIff | fuse-examples/ramfs/fuse-test.cpp:225-227 | shrinking removes what lies past the cut if and only if a byte is stored at the cut itself |
| RamFile.GrowContent | fuse-examples/ramfs/fuse-test.cpp:229-234 | growing zeroes whatever was stored between the old size and the new |
| RamFile.TruncateSizeIff | fuse-examples/ramfs/fuse-test.cpp:225-234 | on any file, the size asked for is the size got if and only if the named offsets are, or are not, stored |
| RamFile.SplitWrite | fuse-examples/ramfs/fuse-test.cpp:166-167 | consecutive writes of any partition of a buffer leave the file one write leaves |
| RamFile.SplitRead | fuse-examples/ramfs/fuse-test.cpp:131-142 | consecutive reads of any sizes on a file without holes are together the single large read |
| RamFile.TruncatesAre | fuse-examples/ramfs/fuse-test.cpp:225-234 | any list of truncations is one cut to the least length reached and one padding to the last |
| RamExamples.WriteLeavesHole | fuse-examples/ramfs/fuse-test.cpp:166-167 | a byte written at offset 2 of an empty file makes a file of size one |
| RamExamples.ReadLengthens | fuse-examples/ramfs/fuse-test.cpp:141-142 | reading one byte of it makes it two long |
| RamExamples.ShrinkDoesNothing | fuse-examples/ramfs/fuse-test.cpp:225-227 | truncating it to nothing leaves it as it is |
| RamExamples.ReadFillsHole | fuse-examples/ramfs/fuse-test.cpp:132-149 | reading at a hole inside the size returns a zero byte and makes it a key |
| RamExamples.TwoPaths | fuse-examples/ramfs/fuse-test.cpp:179-196 | creating /a and then /b makes two files |
| RamExamples.GrowLosesByte | fuse-examples/ramfs/fuse-test.cpp:229-234 | truncating it to three leaves two, with the written byte zero |
| RamFs.PathsLead | fuse-examples/ramfs/fuse-test.cpp:41-49 | a path with a leading slash leads to the name behind it, and any other path to itself |
| RamFs.PathsApart | fuse-examples/ramfs/fuse-test.cpp:41-49 | two paths with a leading slash lead to one file if and only if they are equal |
| RamFs.RegularBitIs | fuse-examples/ramfs/fuse-test.cpp:189-189 | creation accepts exactly the modes whose file-type digit is 8 or more |
| RamFs.OthersUntouched | fuse-examples/ramfs/fuse-test.cpp:118-237 | a request changes no file but the one it names |
| RamFs.MissingAnswers | fuse-examples/ramfs/fuse-test.cpp:118-237 | a request on a file that is not there does nothing and answers ENOENT, or 0 for unlink |
| RamFs.CreateAnswers | fuse-examples/ramfs/fuse-test.cpp:179-197 | EEXIST before EINVAL before an empty file |
| RamFs.FileAnswers | fuse-examples/ramfs/fuse-test.cpp:118-237 | the answer of every request on a file that is there, with holes or without, and what every offset then holds |
| RamFs.StepDepictsIff | fuse-examples/ramfs/fuse-test.cpp:118-237 | every request keeps all files without holes if and only if it is not a write past the end, and is then the request on byte strings, with the same reply |
| RamFs.RunDenseIff | fuse-examples/ramfs/fuse-test.cpp:118-237 | a run keeps all files without holes throughout if and only if none of its writes leaves one |
| RamFs.RunDepicts | fuse-examples/ramfs/fuse-test.cpp:118-237 | state and all replies of such a run are those of the file system on byte strings |
| RamFs.RamFs.Getattr | fuse-examples/ramfs/fuse-test.cpp:52-82 | mode, link count and size of the root, which is always there, and of a file, whose size is its number of keys; ENOENT otherwise; owner and times in any case |
| RamFs.RamFs.Read | fuse-examples/ramfs/fuse-test.cpp:118-150 | state, return code and exactly the first bytes of the caller's buffer; no file but the one behind the slash changes |
| RamFs.RamFs.Write | fuse-examples/ramfs/fuse-test.cpp:153-170 | the bytes at their offsets, missing files refused; no other file changes |
| RamFs.RamFs.Unlink | fuse-examples/ramfs/fuse-test.cpp:173-176 | the file is gone, and success is reported even if there was none; no other file changes |
| RamFs.RamFs.Create | fuse-examples/ramfs/fuse-test.cpp:179-197 | an empty file, with EEXIST before EINVAL; no other file changes |
| RamFs.RamFs.Truncate | fuse-examples/ramfs/fuse-test.cpp:214-237 | the erase or the loop of zeros, and EINVAL even after succeeding; no other file changes |

## Left out

- FUSE mounting and dispatch, `main`, tracing, descriptor numbers and leaks, directory creation in `safs_init`, and the attributes of the root path.
- `safs_chown` and `safs_setattr`, which do nothing, and the ramfs stubs that return `-EINVAL`; ramfs `readdir`, `open` and `access`.
- Clocks, user and group are inputs of the calls that would look them up.
- C buffers: names are strings without NUL of fewer than 32 bytes; bytes after the terminator of a renamed entry are not modelled. Callers do not use the dot entries or the three metadata file names.
- Layout.StatLayout: a record is nine words, timestamps one word each; the real layout of `struct stat` and the fields that `safs_mknod` leaves uninitialised are not modelled.
- Overflow: the counter is below `INT_MAX` when a file is created, ends of writes are `off_t`, ramfs offsets are `int`; link counts wrap as unsigned words.
- Refused system calls outside unlink. Inside unlink the inode reads and writes, whose results the code ignores, are granted, except in Refusals.TablesDespiteInodes. A refusal is reported as EIO whatever the real error; a refused write writes nothing.
- What the calls then do with a record that `read_inode` could not read, which does not occur: all calls keep `Store.WellFormed`, which excludes it.
- Concurrency between requests.
- `fuse-examples/bbfs` and `fuse-examples/hellofs`, which only pass calls on or serve one constant file.
- Upkeep.UnlinkInvariantIff: is about the intended unlink; for the code, Contents.UnlinkCodedCore and Divergence.UnlinkCountsIff say when the same holds.
- Examples.TruncateShowsOldBytes: starts from a state that TruncateShowsOldBytesStart reaches from a fresh store.
