# Verified model of the simulated operating system

A Dafny 4.11 model of the parts of the system whose correctness is not visible from one
function body, with proofs for all inputs, all states and all interleavings. Verify with
`dafny verify dfyconfig.toml`.

Six parts are modelled; `Common` holds what several of them share.

**FAT12 file engine** (`FatTable`, `FatChain`, `Sectors`, `FatVolume`, `FatRefinement`,
`FatDirectory`).
A volume is a class with the packed table, its decoded copy and the disk image, all updated
in place. `Write`, `Read` and `Rmdir` follow `src/kernel/fat12fs.cpp`; their helpers follow
the bodies in `src/kernel/fsutils.cpp`, which the table below cites through their declarations
in `src/kernel/fsutils.h`: `WriteToFs` lines 77-106, reading sectors 108-130,
`DecToHexRoundTrip` 317-344, `RetrieveFreeIndex` 365-372, `StoreEntry` and `StoreThenEntry`
374-413, `ConvertFatToDec` 422-441, `RetrieveFolders` and `ReadListing` 593-626, `GetDirItems`
628-683, `RetrieveSectors` 685-701, `SaveFat` 703-712, `AlocCluster` 714-733, `UpdateFileSize`
955-1039. Main result: a write is a replacement in a byte
string **if and only if** its copying loop links at most one cluster. The loop always links
from the last cluster of the list it started with and never extends that list, so a longer
write loses all clusters but the last one it linked; `WriteLeaksIff` and
`ThreeClusterWriteLosesData` show the loss, `LoopAppends` is the guard a caller can
evaluate beforehand, and `WriteJudged` states it all of one call. A removal takes out of the
parent the entry that was looked up, and the parent then lists the same without it, exactly if
no unused entry stands in the way; a directory whose first cluster is 19 is taken for the root,
so it cannot be removed from the root and what is removed below it stays listed. Sizes are those
at `FAT::write`.

**Pipe** (`Pipe`, `SharedPipe`). One writing and one reading thread, one access to shared
memory per step, any interleaving: a step relation with its invariants and the theorems over
all runs, and a class over an array whose accesses are those steps. What all read calls return,
put together, is a prefix of what all write calls were given.

**INI parser, printer and store** (`IniText`, `IniBuffer`, `IniParse`, `IniLoad`, `IniPrint`,
`IniRoundTrip`, `IniLines`, `IniOrder`, `IniNames`, `IniStore`, `IniRank`, `IniObject`, `IniRebuild`,
`IniMulti`). The parser works in place on an array: it terminates strings where they stand and
moves the lines of multi-line values together. It is proved against a scanner on strings,
which reads a text line by line (except for a `[` alone on a line, which takes its name from
the next one); the loading loop keeps every recorded string intact, and saving then loading is
the identity.
Exact conditions were found for each round trip: an empty text between multi-line tags is not
read back, nor is a nameless section without keys, nor a single-line value that begins with
`<<<`. With several values under one key, saving writes the values of a key together: loading
gives a store that is saved as the same document again, and the same load order exactly if the
values of every key stood together before.

**Shell pipeline** (`ShellLine`, `ShellWiring`, `ShellReap`, `ShellRun`). Lines are split
without loss, the programs are wired by walking them backwards over a stack of pipe ends, and
their processes are reaped. Every end is handed out and every program gets the ends meant for
it **if and only if** no pipe stands at the end of the line, none stands behind a file except
where a command reads that file (`Connectable`), and no built-in command stands in a pipe
(`BuiltinsAlone`). A pipe behind an output file (`a > f | b`) leaves an end over and shifts all
ends to its left; a built-in (`cd`, `echo on`, `echo off`) is skipped without moving the walk's
index, so in `a | cd` the writer is taken for the last program and both ends stay open. For
every line and every answer of the kernel, also when a program cannot be started, the handles
closed and the ends left over are together all the ends.
The interface text calls the first handle of a new pipe the writing one; `io::CreatePipe`
returns the reading end first, and the shell and this model follow the code.

**Paths and waiting** (`Paths`, `Wait`, `Listeners`). Path resolution composes exactly when the
first step leads to a part with a name or to a single part, which can be read off the inputs;
a trailing separator (`a\`) makes it fail. Waiting for processes is a step relation of one waiting thread and
any number of ending processes: safety of the result, of deleting the listener and of the
semaphore over all runs, and the exact runs after which nothing can move on: every process
took the lock of its list before the listener was pushed into it, as in the lost wakeup that
does happen.

**Handles and geometry** (`Handles`, `Geometry`). The table of open handles over all runs, and
the cylinders, heads and sectors that a drive of any size reports.

Answers of the environment (handles created by the kernel, files that open or not, which
process finishes next) and the clusters and slots that a path leads to are parameters. Ghost
parameters carry the chain of a file or the buffer as it was before parsing.

## Model

| member | source | states |
|---|---|---|
| `FatTable.EntriesOverlap` | src/kernel/fat12fs.cpp:35-36 | two table entries share a byte only if they are an even entry and the odd one after it, and then exactly one byte |
| `FatTable.StoreThenEntry` | src/kernel/fsutils.h:79-82 | storing a 12-bit value changes that entry to the value and no other entry, although neighbours share a byte |
| `FatTable.TripleEntries` | src/kernel/fsutils.h:49-52 | three consecutive bytes, wherever in the table, hold exactly two entries, read low nibble first and high nibble first |
| `FatTable.EntryIsWord` | src/kernel/fsutils.h:49-52 | entry n is twelve bits of the little-endian word at byte n + n/2, the low ones for an even n |
| `FatTable.ConvertFatToDec` | src/kernel/fsutils.h:49-52 | the loop over byte triples yields the decoded table: every integer equals the 12-bit entry packed in the bytes |
| `FatTable.DecodingIsInjective` | src/kernel/fsutils.h:49-52 | a packed table is determined by its decoded integers: agreeing with the same integers means the same bytes |
| `FatTable.StoreKeepsAgreement` | src/kernel/fat12fs.cpp:34-37 | changing an entry in both copies keeps the decoded table equal to the packed one |
| `FatChain.ChainNoRepeats` | src/kernel/fsutils.h:69-72 | a terminated chain never visits a cluster twice |
| `FatChain.EndsChainIff` | src/kernel/fsutils.h:69-72 | exactly the entries 4088 to 4095 of its last cluster end a chain |
| `FatChain.ChainsMeet` | src/kernel/fsutils.h:69-72 | two chains that share a cluster share everything behind it |
| `FatChain.ChainUnique` | src/kernel/fsutils.h:69-72 | the chain that starts at a cluster is unique |
| `FatChain.LinkingGrowsChain` | src/kernel/fat12fs.cpp:414-419 | links that all start from one cluster leave a terminated chain ending in the cluster linked last |
| `FatChain.LinkingKeepsLayout` | src/kernel/fat12fs.cpp:414-419 | linking free clusters keeps all files terminated and pairwise disjoint and every other file where it was |
| `FatChain.LinkingLeaksIff` | src/kernel/fat12fs.cpp:414-419 | no cluster is lost to every file if and only if at most one cluster is linked from the same place |
| `FatChain.FreeingKeepsLayout` | src/kernel/fat12fs.cpp:33-39 | freeing a chain keeps all other files terminated, disjoint and unchanged |
| `Sectors.ContentAt` | src/kernel/fsutils.h:29-32 | byte p of a file is byte p mod 512 of its sector number p div 512 |
| `Sectors.PiecesSplice` | src/kernel/fat12fs.cpp:361-399 | writing the pieces of head plus buffer sector by sector is one replacement in the concatenated bytes |
| `Sectors.WholeWrite` | src/kernel/fat12fs.cpp:119-130 | writing a string 512 bytes at a time into as many sectors leaves exactly that string |
| `FatVolume.DecToHexRoundTrip` | src/kernel/fsutils.h:134-137 | the four size bytes of a directory entry, lowest first, read back as the size modulo 2^32 |
| `FatVolume.Volume.constructor` | src/kernel/fsutils.h:49-52 | a mounted volume has both tables in agreement |
| `FatVolume.Volume.WriteToFs` | src/kernel/fsutils.h:24-27 | writing whole or part sectors changes exactly those bytes of the image |
| `FatVolume.Volume.SaveFat` | src/kernel/fsutils.h:94-97 | sectors 1 to 9 and 10 to 18 hold the table in memory, and no sector outside them changes |
| `FatVolume.Volume.StoreEntry` | src/kernel/fat12fs.cpp:418-422 | one entry changes in the packed and in the decoded table |
| `FatVolume.Volume.RetrieveFreeIndex` | src/kernel/fsutils.h:74-77 | the smallest free cluster, or -1 exactly when none is free |
| `FatVolume.Volume.RetrieveSectors` | src/kernel/fsutils.h:69-72 | the walk over the decoded table returns the chain, for every terminated chain, and stops at an entry between 4088 and 4095 |
| `FatVolume.Volume.AlocCluster` | src/kernel/fsutils.h:109-112 | links one free cluster behind the end of a chain, or changes nothing when the disk is full |
| `FatVolume.Volume.TakeCluster` | src/kernel/fat12fs.cpp:401-430 | one round of the growth branch: one free cluster linked behind the given one, in both tables |
| `FatVolume.Volume.ReachOffset` | src/kernel/fat12fs.cpp:346-363 | finds the chain and the sector of the offset, and appends one cluster exactly when the offset is the very end of the chain |
| `FatVolume.Volume.WritePieces` | src/kernel/fat12fs.cpp:383-438 | the copying loop: pieces go to the clusters of the file and then to newly linked ones, and stop at a full disk |
| `FatVolume.Volume.FinishWrite` | src/kernel/fat12fs.cpp:437-444 | both tables are saved and the file ends behind the written bytes, also when that makes it shorter; the directory entry shows the new size, and no other byte of its sector changes |
| `FatVolume.Volume.UpdateFileSize` | src/kernel/fsutils.h:134-137 | the size field of the entry changes, no other byte of the disk does |
| `FatVolume.Volume.Write` | src/kernel/fat12fs.cpp:342-445 | all outcomes, also for a file whose size exceeds its chain: bytes spliced at the offset, the number reported despite the wrapped start value, the new size, which clusters were linked, success exactly when the offset is inside and the free clusters suffice; whatever it returns, past its first allocation the table ends up on the disk, and before that nothing changes |
| `FatVolume.Volume.Read` | src/kernel/fat12fs.cpp:249-290 | returns exactly bytes [offset, offset + size) of the concatenated clusters, or an error and nothing; a size of zero included |
| `FatVolume.Volume.ReadOn` | src/kernel/fat12fs.cpp:276-287 | the reading loop ends with exactly the wanted bytes and never indexes behind the chain |
| `FatVolume.Volume.FreeClusters` | src/kernel/fat12fs.cpp:33-39 | zeroes and frees exactly the clusters of a chain, in both tables |
| `FatVolume.Volume.StoreAll` | src/kernel/fat12fs.cpp:119-130 | the directory content is written back 512 bytes at a time |
| `FatVolume.Volume.RemoveEntry` | src/kernel/fat12fs.cpp:81-131 | reads the directory, takes out one entry, writes it back |
| `FatVolume.Volume.Rmdir` | src/kernel/fat12fs.cpp:13-134 | all outcomes: the directory's chain is freed, its sectors zeroed, its entry taken out of the parent, both tables saved; errors change nothing |
| `FatRefinement.WriteKeepsLayout` | src/kernel/fat12fs.cpp:361-438 | after a write all chains are terminated, files pairwise disjoint, other chains untouched |
| `FatRefinement.WriteLeaksIff` | src/kernel/fat12fs.cpp:414-433 | a write loses no cluster if and only if, where there is room, its copying loop has to append at most one, and on a disk that fills up at most one free cluster is left for the loop |
| `FatRefinement.WriteKeepsOtherFiles` | src/kernel/fat12fs.cpp:342-445 | every file that shares no cluster keeps its chain and its bytes |
| `FatRefinement.WriteRefinesIff` | src/kernel/fat12fs.cpp:342-445 | the file holds old[..offset] ++ buf after a write if and only if the copying loop appends at most one cluster |
| `FatRefinement.WriteJudged` | src/kernel/fat12fs.cpp:342-445 | a real call of the write, judged by what is known before it: layout kept, refinement and loss of clusters exactly under the two guards, and a table that changed is on the disk |
| `FatRefinement.Remount` | src/kernel/fat12fs.cpp:8-11 | a volume mounted from the image of a saved one has the same table in both forms |
| `FatRefinement.ThreeClusterWriteLosesData` | src/kernel/fat12fs.cpp:414-433 | 1025 bytes written to a one-cluster file are not in the file afterwards |
| `FatRefinement.WriteThenRead` | src/kernel/fat12fs.cpp:342-445 | reading the range just written returns the bytes written |
| `FatRefinement.RemovedSlotList` | src/kernel/fat12fs.cpp:105-109 | as a list of 32-byte entries the parent loses entry k and gains one zero entry at its end; its length stays |
| `FatDirectory.GetDirItems` | src/kernel/fsutils.h:64-67 | the loop reads the entries up to the first unused one |
| `FatDirectory.ReadListing` | src/kernel/fsutils.h:59-62 | the root is listed in one piece without its volume label, any other directory sector by sector without its own two entries |
| `FatDirectory.RetrieveFolders` | src/kernel/fsutils.h:59-62 | what is listed for a first cluster: the number 19 lists the root, also when it is a directory's |
| `FatDirectory.LookedUpIff` | src/kernel/fat12fs.cpp:66-103 | every listed element is an entry; it is the one at the slot computed from its number if and only if no unused entry stands before it |
| `FatDirectory.ListedAfterIff` | src/kernel/fat12fs.cpp:105-131 | taking an entry out leaves listed exactly what was listed, if and only if in every sector behind it the first entry is unused where the sector before has an unused one, and the second where the first is |
| `FatDirectory.RemovedListing` | src/kernel/fat12fs.cpp:97-131 | then the listing afterwards is the one before without the element of that number |
| `FatDirectory.GapHidesEntries` | src/kernel/fat12fs.cpp:105-131 | a directory in which that fails: a removal in its first sector hides the entries of the second |
| `FatDirectory.StoredName` | src/kernel/fat12fs.cpp:66-80 | the name compared is stem, dot and extension as they were stored in the eleven characters of an entry |
| `FatDirectory.Find` | src/kernel/fat12fs.cpp:66-80 | the first element listed under the name, or none |
| `FatDirectory.RemoveDirectory` | src/kernel/fat12fs.cpp:13-134 | a removal by name: refused exactly if something is listed in the directory; what is taken out of the parent is the first entry listed under the name, the slots before it stay and a zero entry comes last, and a directory without gaps then lists the same without that element; below a parent at cluster 19 the entry stays listed, and a directory at cluster 19 in the root cannot be removed |
| `Pipe.NextKeepsInv` | src/kernel/PipeUtils.cpp:4-80 | every step of either thread keeps the token, pointer and buffer invariants |
| `Pipe.RunInv` | src/kernel/PipeUtils.cpp:4-80 | so do all steps of all runs |
| `Pipe.RunDelivers` | src/kernel/PipeUtils.cpp:42-74 | at any moment of any run the reader has a prefix of the bytes stored, which are the bytes accepted so far; an EOT is the last byte delivered |
| `Pipe.RunDrains` | src/kernel/PipeUtils.cpp:42-74 | with both threads idle, the pipe open and no byte readable, everything accepted has been delivered |
| `Pipe.RunReceives` | src/kernel/PipeUtils.cpp:42-74 | the buffers of all read calls, put together, are what was delivered and a prefix of the buffers of all write calls; no call gets more than it asked for, one that ends with the pipe open gets exactly that, and one that gets less failed, dropped a token or got an EOT |
| `Pipe.RunAccepts` | src/kernel/PipeUtils.cpp:23-32 | the bytes stored are a prefix of the buffers of all write calls put together, and while both ends are open all calls that ended have written all their bytes |
| `Pipe.RunClosedIff` | src/kernel/PipeUtils.cpp:35-39 | the writing end is closed exactly from the return of a call that closes it |
| `Pipe.RunEndArrives` | src/kernel/PipeUtils.cpp:35-39 | closing the writing end stores an EOT last, and the reader does not wait any more |
| `Pipe.RunFailsIff` | src/kernel/PipeUtils.cpp:45-51 | a read call that wants more and finds the reading end closed reports an error if and only if the ring is empty or full, which its look at the pointers cannot tell apart |
| `Pipe.RunStaysShut` | src/kernel/PipeUtils.cpp:4-51 | a writer that finds an end closed, and a reader that finds the reading end closed and the ring empty, takes no token and does not wait, in the rest of every run |
| `Pipe.RunConservesTokens` | src/kernel/Synchronization.h:59-78 | the two counters and the tokens in flight add up to the size until the reading end closes, and afterwards to the size plus one token for each side less dropped tokens |
| `Pipe.RunNeverUnderflows` | src/kernel/Synchronization.h:59-64 | no counter underflows although the test and the subtraction are separate accesses |
| `Pipe.RunNeverOverwrites` | src/kernel/PipeUtils.cpp:14-17 | no unread slot is stored into, and the slot fetched holds the next byte due |
| `Pipe.RunNeverDeadlocks` | src/kernel/PipeUtils.cpp:76-80 | writer and reader never wait for each other, and a writer never waits once the reading end is closed |
| `Pipe.RunSilentAfterClose` | src/kernel/PipeUtils.cpp:76-80 | nothing is delivered after the reading end closes, and nothing is stored but the byte of a writer that already stood at its store |
| `Pipe.StepAppends` | src/kernel/PipeUtils.cpp:4-80 | no step takes back a byte stored or delivered |
| `SharedPipe.PipeObject.constructor` | src/kernel/PipeUtils.h:21-27 | a new pipe starts with no readable byte and all slots free |
| `SharedPipe.PipeObject.WriterAccess` | src/kernel/PipeUtils.cpp:4-39 | one access of the writing thread in place is one writer step |
| `SharedPipe.PipeObject.ReaderAccess` | src/kernel/PipeUtils.cpp:42-80 | one access of the reading thread in place is one reader step |
| `SharedPipe.PipeObject.Run` | src/kernel/PipeUtils.cpp:4-80 | performs any schedule of accesses and calls: the object ends as the steps of the schedule say, and the states it goes through follow one another as in a run |
| `SharedPipe.Session` | src/kernel/PipeUtils.cpp:4-80 | a new pipe and any schedule: what the read calls received is a prefix of what the write calls were given |
| `IniText.SameIffFolded` | src/boot/SimpleIni.h:2691-2726 | neither of two strings is less exactly when they agree after case folding |
| `IniText.LessTransitive` | src/boot/SimpleIni.h:2691-2726 | the comparators are transitive |
| `IniText.LessAsymmetric` | src/boot/SimpleIni.h:2691-2726 | and asymmetric |
| `IniText.LessRespectsSame` | src/boot/SimpleIni.h:2691-2726 | and do not tell apart strings that compare equal: strict weak orders |
| `IniText.LessIff` | src/boot/SimpleIni.h:2691-2726 | one string is less than another exactly if it is smaller, after case folding, where they first differ, or ends there |
| `IniText.SameLetters` | src/boot/SimpleIni.h:2691-2726 | two characters compare equal exactly if they are the same or, where case is ignored, the two cases of a letter |
| `IniText.ScanPrintedLines` | src/boot/SimpleIni.h:1759-1831 | scanning printed lines yields the lines before the first one comparing equal to the tag, and stops behind that line |
| `IniText.MultiLineRoundTrip` | src/boot/SimpleIni.h:2532-2557 | a printed multi-line text is read back, and the cursor is just behind the tag line, if and only if it is not empty, has no carriage return and no line comparing equal to the tag |
| `IniBuffer.TakeLine` | src/boot/SimpleIni.h:1792-1808 | in place: one line is moved down to where the previous one ends and terminated, everything behind it is unchanged |
| `IniBuffer.LoadMultiLineText` | src/boot/SimpleIni.h:1732-1852 | in place: the compacted, terminated value is the block's text, the cursor is behind the tag line, nothing unread is overwritten and nothing before the value changes |
| `IniParse.LoadComment` | src/boot/SimpleIni.h:1758-1852 | in place: comment lines and the blank lines between them are taken, nothing behind them changes |
| `IniParse.ReadHeader` | src/boot/SimpleIni.h:1567-1605 | in place: a section name is trimmed and terminated; a line without its bracket is skipped |
| `IniParse.ReadKey` | src/boot/SimpleIni.h:1606-1633 | in place: a key is trimmed and terminated; a line without an equals sign or without a key is skipped |
| `IniParse.TakeValue` | src/boot/SimpleIni.h:1634-1661 | in place: the value of the line, or of the block it opens, stands terminated at the pointer returned |
| `IniParse.FindEntry` | src/boot/SimpleIni.h:1540-1669 | in place: finds exactly the entry that the reference scanner finds, leaves its strings terminated in the buffer, and changes nothing before its start or after its cursor |
| `IniLoad.LoadData` | src/boot/SimpleIni.h:1458-1479 | the loading loop records the entries of the text, and when it ends every recorded pointer still leads to its string |
| `IniLines.ReadsLineByLine` | src/boot/SimpleIni.h:1540-1669 | a text holds what its lines mean one after the other, the meaning of a line defined without the scanner: comments after ; or #, headers, keys and values trimmed |
| `IniLines.CommentLine` | src/boot/SimpleIni.h:1560-1565 | a line that begins with ; or # is not seen, whatever stands behind it |
| `IniLines.CommentInText` | src/boot/SimpleIni.h:1560-1565 | nor is it behind the entries of a printed section |
| `IniLines.OnlyComments` | src/boot/SimpleIni.h:1560-1565 | a text of such lines holds nothing |
| `IniLines.FileCommentSkipped` | src/boot/SimpleIni.h:1470-1479 | what is loaded behind a comment at the front of a file is what the whole text holds |
| `IniLines.LoadLines` | src/boot/SimpleIni.h:1458-1479 | the pointers that the loading loop records lead to what the lines of the buffer mean |
| `IniLines.BracketReachesOn` | src/boot/SimpleIni.h:1567-1580 | a [ alone on a line takes the section name from the next line |
| `IniLines.BlockEndsAtOnce` | src/boot/SimpleIni.h:1634-1661 | a block whose tag follows at once has no value: with an empty tag reading stops there for good, with any other the value runs on |
| `IniPrint.PairReadBackIff` | src/boot/SimpleIni.h:2474-2519 | a printed key and value are read back, whatever follows, if and only if the value is printable |
| `IniPrint.UnprintableIsLost` | src/boot/SimpleIni.h:2499-2517 | a value that is not printable does not come back at the end of a file |
| `IniPrint.PairReadBack` | src/boot/SimpleIni.h:2474-2519 | a printable pair is read back, and the cursor is just behind what was printed |
| `IniPrint.PrintedKey` | src/boot/SimpleIni.h:2474-2519 | what a saved key looks like, character by character, with a plain value and with one that needs a block |
| `IniPrint.PrintedSections` | src/boot/SimpleIni.h:2433-2465 | and two sections: a header each and two newlines between them |
| `IniRoundTrip.DocReadBack` | src/boot/SimpleIni.h:2405-2528 | a printed document is read back entry by entry: sections, keys and values in order |
| `IniRoundTrip.NoFileComment` | src/boot/SimpleIni.h:1513-1536 | a printed document never begins with what the loader takes for a file comment |
| `IniRoundTrip.OutputMultiLineText` | src/boot/SimpleIni.h:2532-2557 | the printing loop writes every line of the text with the platform's newline, and nothing for an empty text |
| `IniRoundTrip.Save` | src/boot/SimpleIni.h:2433-2525 | the saving loops write the printed document |
| `IniRoundTrip.SaveThenLoad` | src/boot/SimpleIni.h:1419-1491 | saving, then loading in place, gives pointers to exactly the names, keys and values of the document, in order |
| `IniOrder.EqualRange` | src/boot/SimpleIni.h:1942-1952 | in a sorted map the entries with an equal name are exactly those between the two bounds |
| `IniOrder.InsertSorted` | src/boot/SimpleIni.h:1979-1980 | inserting keeps the order of names, and keeps names different where the name is new |
| `IniOrder.ByOrderSorts` | src/boot/SimpleIni.h:2419-2428 | listing by load order rearranges the entries, smallest first |
| `IniOrder.NewestIsLast` | src/boot/SimpleIni.h:345-352 | the entry loaded last is listed last, wherever its name sorts |
| `IniStore.AddKeyValues` | src/boot/SimpleIni.h:1932-1982 | adding changes exactly the values of that key: appended, overwritten, or all replaced by one, by mode |
| `IniStore.AddToValues` | src/boot/SimpleIni.h:1883-1984 | adding an entry changes the values of that key of that section and no others in the whole store |
| `IniStore.ForcedTakesSmallest` | src/boot/SimpleIni.h:1938-1962 | a forced value leaves one entry, with the smallest load order of those it replaces |
| `IniStore.AddToKept` | src/boot/SimpleIni.h:1883-1984 | adding keeps names sorted and different, and load orders below the counter |
| `IniStore.DeleteKeyValues` | src/boot/SimpleIni.h:2588-2616 | deleting takes out of a key exactly the values asked for and leaves all other keys |
| `IniStore.DeleteFromValues` | src/boot/SimpleIni.h:2572-2641 | deleting takes the values asked for out of that key of that section, or the whole section, and leaves the rest of the store |
| `IniStore.StaysIff` | src/boot/SimpleIni.h:2603-2610 | the entries that stay are those, as often as they stood, whose value differs after case folding from the one asked for; none if no value is given |
| `IniStore.DeleteFromReports` | src/boot/SimpleIni.h:2572-2641 | a deletion reports true exactly if the section exists and, where a key is given, has a value of it that is asked for; otherwise nothing changes |
| `IniStore.DeleteFromSections` | src/boot/SimpleIni.h:2619-2641 | a section goes exactly if it is deleted as a whole or, where that is asked for, nothing is left in it; all others stay, also empty ones |
| `IniStore.DeleteFromKept` | src/boot/SimpleIni.h:2572-2641 | deleting keeps the same invariant |
| `IniRank.AddToRanked` | src/boot/SimpleIni.h:1883-1984 | adding keeps load orders different and the values of a key in their load order, also where a forced value takes over the smallest order |
| `IniRank.DeleteFromRanked` | src/boot/SimpleIni.h:2572-2641 | so does deleting |
| `IniNames.FirstsByOrder` | src/boot/SimpleIni.h:2470-2478 | the first entries of all keys, sorted by load order, are the first entries in the load order of all entries |
| `IniObject.SimpleIni.AddEntry` | src/boot/SimpleIni.h:1883-1984 | the object's new contents are the specified addition |
| `IniObject.SimpleIni.DeleteValue` | src/boot/SimpleIni.h:2572-2641 | the object's new contents and the result are the specified deletion |
| `IniObject.SimpleIni.GetSectionSize` | src/boot/SimpleIni.h:2254-2284 | the number of keys different under the comparator, or -1 for a missing section |
| `IniObject.SimpleIni.GetAllKeys` | src/boot/SimpleIni.h:2317-2344 | every different key once, by its first entry, as many as GetSectionSize counts, in the order of names |
| `IniObject.SimpleIni.GetAllValues` | src/boot/SimpleIni.h:2219-2251 | all values of a key of a section and no others, in the order in which they stand; false exactly when there is none |
| `IniRebuild.LoadedIsPrinted` | src/boot/SimpleIni.h:1419-1491 | loading a printed document into an empty store shows the document without its nameless empty sections, so the document itself if and only if it has none |
| `IniRebuild.SaveThenLoadStore` | src/boot/SimpleIni.h:2405-2528 | save then load is the identity on sections, keys, values and load order of a store without repeating keys, if and only if it has no nameless empty section |
| `IniMulti.Save` | src/boot/SimpleIni.h:2405-2528 | the loops over sections, keys and values of the object write the document specified for its contents |
| `IniMulti.ShownIsGrouped` | src/boot/SimpleIni.h:2470-2520 | what is written of a section is its entries in load order with the later values of every key moved up behind its first, in its spelling |
| `IniMulti.GroupedIff` | src/boot/SimpleIni.h:2483-2501 | that changes nothing if and only if the values of every key stand together, spelled alike; done twice it is done once |
| `IniMulti.SaveThenLoadMulti` | src/boot/SimpleIni.h:2405-2528 | with several values under a key: the loaded store is saved as the same document, and has the same entries in the same load order if and only if there was no nameless empty section and the values of every key stood together, spelled alike |
| `ShellLine.RemoveLeadingWhitespace` | src/user/command_parser.cpp:7-34 | in place: the string without its leading blanks, the places it leaves cleared, the rest of the buffer unchanged |
| `ShellLine.RemoveTrailingWhitespace` | src/user/command_parser.cpp:37-59 | in place: the string without its trailing blanks |
| `ShellLine.TrimmedParts` | src/user/command_parser.cpp:62-66 | trimming takes blanks off both ends and nothing else |
| `ShellLine.GluedPieces` | src/user/command_parser.cpp:189-246 | pieces and operators put together again are the line |
| `ShellLine.PiecesOfGlued` | src/user/command_parser.cpp:189-246 | and splitting finds any proper list of pieces again |
| `ShellLine.SplitsAt` | src/user/command_parser.cpp:189-246 | a line is split at every pipe sign, < and > and nowhere else |
| `ShellLine.CountCommands` | src/user/command_parser.cpp:69-82 | the number of programs is this count, less one if the line is empty or ends in an operator |
| `ShellLine.CommandKeepsText` | src/user/command_parser.cpp:156-182 | the command is all the letters, by their codes, at the front and the argument the rest, nothing lost but blanks between them |
| `ShellLine.ProcessCommand` | src/user/command_parser.cpp:113-186 | a piece between two operators becomes the specified program; it is trimmed in its buffer |
| `ShellLine.ProcessLine` | src/user/command_parser.cpp:189-246 | the loop yields the programs of the pieces of the line, each with the operators on its two sides |
| `ShellLine.LineIsChained` | src/user/command_parser.cpp:124-154 | neighbours agree about the operator between them: pipe out and pipe in, file and redirection |
| `ShellLine.FlagsAreOperators` | src/user/command_parser.cpp:124-154 | the flags of a program are the operators before and behind its piece of the line, and the last piece has none behind it exactly when the line ends with it |
| `ShellWiring.LeftAtLeast` | src/user/command_parser.cpp:275-383 | for every line the stack never runs out, and every built-in behind the first command leaves an end on it |
| `ShellWiring.PopsItsOwn` | src/user/command_parser.cpp:342-356 | a program of a connectable line without built-ins pops its own pipe's writing end and the reading end of the pipe before it |
| `ShellWiring.WiredIff` | src/user/command_parser.cpp:275-383 | every end is handed out and every program started with the ends and the file meant for it, whatever the kernel answers, if and only if the line is connectable and no built-in stands in a pipe |
| `ShellWiring.PipeIntoBuiltin` | src/user/command_parser.cpp:283-291 | a pipe into cd: the writer is taken for the last program, started on the shell's output, and both ends stay on the stack |
| `ShellWiring.BuiltinIff` | src/user/command_parser.cpp:282-291 | which programs the walk passes over, in the letters of their text: cd with anything but a letter behind it, echo with on or off, and a file called cd |
| `ShellWiring.OneCommand` | src/user/command_parser.cpp:275-383 | a line of one command creates one process on the input and output of the shell, unless it is such a built-in |
| `ShellWiring.LeftIff` | src/user/command_parser.cpp:275-383 | for a line without built-ins the stack is empty in the end if and only if the line is connectable |
| `ShellWiring.OneWriterOneReader` | src/user/command_parser.cpp:342-356 | every pipe of a connectable line without built-ins has exactly one writer and one reader, next to each other or around a file |
| `ShellWiring.ProcessHandles` | src/user/command_parser.cpp:297-381 | for a connectable line without built-ins every process is created with the input and output meant for it: the pipe it is piped into, else its file, else that of the shell |
| `ShellWiring.PipelineHandles` | src/user/command_parser.cpp:297-381 | in a pipeline the first process reads the shell's input, the last writes its output, and each writes the pipe that the next one reads |
| `ShellWiring.OutputFileIsNotConnected` | src/user/command_parser.cpp:308-311 | a pipe behind an output file, as in a > f followed by a pipe to b, is not connectable |
| `ShellRun.Execution.CreatePipes` | src/user/command_parser.cpp:264-272 | one pipe for every program that is piped on, both ends on the stack |
| `ShellRun.Execution.StartProgram` | src/user/command_parser.cpp:297-381 | one program, with the index that skipped built-ins do not move: opened files, popped ends and the process are recorded, or, if it cannot be created, what it was given is closed |
| `ShellRun.Execution.StartPrograms` | src/user/command_parser.cpp:275-383 | the backward walk, which passes over files and built-ins, starts the programs with the specified handles until one fails; what is given back and what is left over then is specified too, for every answer of the kernel |
| `ShellReap.ReapOne` | src/user/command_parser.cpp:394-451 | one round of reaping closes exactly the finished program's handles and leaves a list that can be reaped on |
| `ShellRun.Execution.Reap` | src/user/command_parser.cpp:386-452 | the loop ends; every process is reaped once, in whatever order they finish, and every recorded handle is closed once |
| `ShellRun.EndsConserved` | src/user/command_parser.cpp:265-383 | at every point of the walk, for every line, the ends on the stack and those that programs will close are together all the ends, next to the files closed |
| `ShellRun.EverythingClosed` | src/user/command_parser.cpp:433-449 | when the programs started are reaped, every end they popped is closed once, and their files |
| `ShellRun.GivenBackClosed` | src/user/command_parser.cpp:359-375 | a program that cannot be created gives back every end it popped; one whose file does not open popped none |
| `ShellRun.Execution.ExecuteCommands` | src/user/command_parser.cpp:248-453 | the whole call, for every line and every answer: who is started with which handles (for connectable lines without built-ins the ones meant for them), what is reaped so that no program left has a process, and closed handles and ends left over together all the ends; the stack is empty after a full walk exactly for connectable lines where no built-in stands in a pipe |
| `Paths.SplitJoined` | src/kernel/filesystems.cpp:112-121 | splitting two paths joined by a separator gives the parts of both |
| `Paths.JoinThenSplit` | src/kernel/filesystems.cpp:136-144 | splitting undoes joining |
| `Paths.SplitThenJoin` | src/kernel/filesystems.cpp:102-109 | and joining undoes splitting |
| `Paths.ResolveComposesIff` | src/kernel/filesystems.cpp:95-145 | resolving r1 and then r2 is resolving r1\\r2, for every r2, if and only if r1, read off the two inputs, leads to a part with a name or to a single part |
| `Paths.LeadsToNameIff` | src/kernel/filesystems.cpp:95-145 | that condition on the inputs decides whether the resolved path, written out, reads back as the same parts |
| `Paths.ComposingLosesPart` | src/kernel/filesystems.cpp:95-145 | otherwise every name entered next ends up one part too high |
| `Paths.TrailingSeparatorFails` | src/kernel/filesystems.cpp:102-109 | from C:\ the path a\ followed by x is such a case |
| `Paths.ResolveComposes` | src/kernel/filesystems.cpp:95-145 | in particular whenever neither the directory nor r1 has an empty part |
| `Paths.ResolveStaysRooted` | src/kernel/filesystems.cpp:123-135 | a path below C: resolves to a path below C: without dot parts |
| `Paths.NamesDescend` | src/kernel/filesystems.cpp:123-135 | parts that are names are entered one below the other |
| `Paths.DownAndUp` | src/kernel/filesystems.cpp:123-135 | entering a name and stepping up again leads back, and a single dot leads nowhere else |
| `Paths.DownFromRoot` | src/kernel/filesystems.cpp:136-144 | only the drive is written with a separator at its end: entering a name from it gives the drive, one separator and the name, and stepping up again the drive as before |
| `Paths.ParsePath` | src/kernel/filesystems.cpp:95-145 | the loops compute the resolved path |
| `Wait.RunReturnsDead` | src/kernel/ProcessUtils.cpp:181-231 | when waiting returns an index, the handle there no longer resolves or its process is terminated, in every run |
| `Wait.StillRunning` | src/kernel/ProcessUtils.cpp:202-211 | a run in which the process returned still runs, because exit sets its state first |
| `Wait.RunSleepsOnLiving` | src/kernel/ProcessUtils.cpp:191-215 | the thread sleeps only after it found every handle of the list to resolve, and then its process not terminated |
| `Wait.LastOfIsLast` | src/kernel/ProcessUtils.cpp:221-229 | of the places of the notifier in the list the last one is returned |
| `Wait.RunDeletesUnreachable` | src/kernel/ProcessUtils.cpp:218-219 | the listener is deleted only when it is in no list and nobody is notifying it |
| `Wait.RunWaitsAreNotified` | src/kernel/Synchronization.h:88-102 | every wait takes a count that an earlier notification left, and the notifier is a dead process of the list |
| `Wait.RunExcludes` | src/kernel/Blockable.h:11-43 | a process and the waiting thread are never both inside the same list |
| `Wait.RunStaysDead` | src/kernel/ProcessUtils.cpp:142-155 | terminated is never left, and a removed handle never resolves again |
| `Wait.RunMetIff` | src/kernel/Blockable.h:31-37 | a process finds the listener in its list if and only if the push came before it took the lock |
| `Wait.RunNotifiedOnce` | src/kernel/Blockable.h:31-44 | a listener that was notified is not notified again, nor its notifier replaced, in any run |
| `Wait.RunStuckIff` | src/kernel/ProcessUtils.cpp:202-215 | nothing can move on exactly when all processes are gone and waiting has returned, or sleeps after every process took the lock of its list before the listener was pushed into it |
| `Wait.LostWakeup` | src/kernel/ProcessUtils.cpp:202-203 | a run in which the only process ends between the look at its state and the listener being added, and the thread sleeps for good |
| `Listeners.Blockable.AddListener` | src/kernel/Blockable.h:11-15 | a listener is put at the end of the list |
| `Listeners.Blockable.NotifyRemoveListeners` | src/kernel/Blockable.h:31-44 | every listener is notified once, by whoever came first, and the list is emptied |
| `Listeners.Blockable.RemoveListener` | src/kernel/Blockable.h:17-28 | the list is emptied when all its listeners belong to one thread |
| `Listeners.RemovalEndsIff` | src/kernel/Blockable.h:19-26 | the removal loop ends if and only if no other thread listens |
| `Handles.NewHandleIsLeastIff` | src/kernel/io.cpp:34-60 | the search yields the least free handle if and only if one is free; in a full table it comes around to zero, which is taken |
| `Handles.InvalidGivenIff` | src/kernel/io.cpp:34-60 | an object is given the handle that means none if and only if all others are taken |
| `Handles.RunKeeps` | src/kernel/io.cpp:34-82 | an open handle leads to its object through every run that does not remove it |
| `Handles.RunDistinctIff` | src/kernel/io.cpp:34-82 | a live handle is not given out again, whatever happens in between, if and only if a handle is free or it is not zero |
| `Handles.RunConserves` | src/kernel/io.cpp:34-82 | over all runs every object added is open, closed once, or was added while no handle was free |
| `Handles.HandleTable.AddIoHandle` | src/kernel/io.cpp:34-60 | the loop over the ordered table finds that handle, and the object is entered under it |
| `Handles.HandleTable.RemoveIoHandle` | src/kernel/io.cpp:73-82 | the object is closed and its handle free again; an unknown handle changes nothing |
| `Handles.HandleTable.RemoveAllIoHandles` | src/kernel/io.cpp:84-94 | closes the object with the least handle only, so nothing stays open if and only if at most one was |
| `Geometry.DriveParameters` | src/boot/disk.cpp:54-91 | the parameters of every size; at most 1023 cylinders, none beyond the last sector and less than one left over, if and only if the size is below 8032 MiB; the fewest heads of 16, 32, 64, 128 and 255 that keep the cylinders within 1023, and from 8032 MiB on all ones in all three |
| `Geometry.CylindersFill` | src/boot/disk.cpp:76-85 | whole cylinders fit and less than one is left over, for every size and sector size |
| `Geometry.CylindersBoundedIff` | src/boot/disk.cpp:64-72 | the table of head counts keeps every size below 1024 cylinders if and only if sectors have at least 512 bytes |
| `Geometry.CheckIff` | src/boot/disk.cpp:94-104 | the check of a request lets through exactly what stays on the disk and what wraps around in 64 bits |
| `Geometry.AddressedIsOnDisk` | src/boot/disk.cpp:94-104 | every sector that the geometry addresses passes the check and is on the disk |

## Left out

- FatVolume.Volume.Write: the path of the file is the directory slot it was opened from; finding that slot by name is not modelled. The `size` argument is left out because the code never uses it. File sizes and offsets stay 512 below 2^64 so that the rounding of sizes does not wrap. An offset that is inside the size of a file but behind its chain, which an earlier long write can leave, is excluded: the code then indexes behind its list of clusters.
- FatVolume.Volume.Rmdir: whether the directory is empty and which element of its parent names it are parameters; `FatDirectory.RemoveDirectory` finds both out.
- FatDirectory.RemoveDirectory: the walk from the root to the directory and to its parent is a parameter: their first clusters. A parent at cluster 19 is excluded where the number found in the root lies behind its own entries, because the original then erases outside of its buffer. A root without entries is listed as empty, where the original removes the first element of an empty list.
- FatDirectory.RemovedListing: directories with unused entries between used ones are covered by the exact conditions of `LookedUpIff` and `ListedAfterIff` only.
- FatVolume.Volume.FinishWrite: the slot of the directory entry is a parameter, because the path is not looked up.
- FatVolume.Volume.UpdateFileSize: so it is here.
- FatVolume.Volume.Read: the directory branch is left out; a range inside the size of a file but behind its chain is excluded, because the code then indexes behind its list of clusters (for a size of zero already at the end of the last cluster).
- FatTable.ConvertFatToDec: the order in which the original evaluates the arguments that build a number is not fixed by its language; the model takes the order that gives the FAT12 layout.
- IniParse.FindEntry: the text of a comment is not specified, only what it consumes. After a section line without `]` the section pointer is where the code leaves it, but the string it then leads to is not specified; nor is the value of a block whose non-empty tag follows at once, which runs on into the text behind it.
- IniParse.LoadComment: states what is consumed and what stays, not the text of the comment.
- IniLines.ReadsLineByLine: lines that end in a bare `[` and values that open a block are excluded; `BracketReachesOn` and `IniText.MultiLineRoundTrip` cover them.
- IniLoad.LoadData: comments are skipped without a record, and there is no byte order mark.
- IniRoundTrip.Save: prints a document without comments.
- IniObject.SimpleIni.AddEntry: the library's map and multimap are sequences sorted by name; looking up a name yields its first entry, and a new entry goes behind those with an equal name. Comments and string ownership are not modelled.
- IniObject.SimpleIni.DeleteValue: the same.
- IniRebuild.AddItem: entries whose strings the parser leaves unterminated (a section line without `]`, a block whose tag follows at once) are not put into the store; a printed document has none.
- IniMulti.SaveThenLoadMulti: load orders are compared as an order, not as numbers.
- ShellLine.RemoveTrailingWhitespace: requires a character that is not blank; on a blank string the original reads before the buffer.
- ShellLine.ProcessCommand: blank pieces and pieces longer than the buffer are excluded, where the original reads or writes outside its buffers.
- ShellLine.ProcessLine: lines with such pieces are excluded for the same reason.
- ShellRun.Execution.ExecuteCommands: messages to the console, exit codes and what `cd` and `echo` themselves do are not modelled.
- Paths.ParsePath: a directory string without parts is allowed unless the first step is one up, because that step takes a part off without looking.
- Wait.RunReturnsDead: one waiting thread and processes only; several threads waiting for one process, waiting for threads, and shutdown are not modelled.
- Listeners.Blockable.RemoveListener: lists with another thread's listener are excluded, because the original then loops forever; `Listeners.RemovalEndsIff` says so.
- Pipe.RunAccepts: the code a write call returns is not modelled; it is success if a byte was written.
- Weak memory: every shared access is one step in one global order.
- `FAT::mkdir`, `FAT::open`, attributes, `FileHandle::seek`, the directory listing handed to programs, and file creation: name handling and timestamps, with no property across functions.
- Geometry.DriveParameters: the sector size is the constant 512 of `src/boot/cmos.h`; reading and writing the sectors of a disk image is not modelled.
- User programs, console, keyboard and the loading of libraries: wrappers around foreign calls.
- Character set conversion of the INI library: strings are sequences of characters.
