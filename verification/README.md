# Verified model of the queue macros, the initrd codec and the FabricManager wrapper

This project models four programs of the repository in Dafny and proves what they keep
over all inputs and runs.

**Intrusive queues** (`sys-queue.h`).  `Cells.Cell` is the storage: a `next` slot and a
back or tail link.  An address of a `next` slot is modelled by the cell that owns the slot,
so `*p = x` is `p.next := x`, and heads and entries share the layout that TAILQ_LAST and
TAILQ_PREV rely on.  `Slist`, `List`, `Simpleq` (also STAILQ, which has the same code),
`Tailq` and `Circleq` hold the macros as methods on that heap, each proved against an
operation on the sequence of members (`SeqOps`).  Each family's invariant fixes every link
that the family uses, so "well formed with members s" describes head and members completely.
`build` selects the release or the QUEUEDEBUG build; `aborted` tells whether a check fired.
`QueueRuns` defines legal runs on sequences, `FamilyRuns` runs the macros of all families on
many live queues and shows that they refine those runs.

**newc archives** (`parse_newc_archive`, `write_newc_archive`).  `Newc` defines reading and
writing as functions, with Python's clipped reads and slices and the decoding errors;
`NewcCodec` holds the loops and proves them equal to the functions; `NewcFormat` says the
format again by byte offsets, for reader and writer, `NewcCut` what is read of an archive that
ends early, `NewcLayout` which bytes parse-then-write changes, and that none moves, `NewcCase`
that letter case does not matter; `Initrd` is the extract, replace and verify pipeline.  Names
are their UTF-8 bytes (`Utf8`), `Hex` holds the number formats.

**Supervisor** (`main.go`).  `Supervisor` is a step relation over N commands, the signal
goroutine and main, interleaved in any order.  Phases of a command include the moment between
the context check that starting a command makes and the existence of the child.  Main
returning ends the process, and with it every goroutine, also one that has not run its
callback yet.  `Wrapper` holds the polling loop and the choice of commands.

**Management port search** (`nvswitch.go`).  `MgmtPort` runs the nested loops, records every
allocation and library call, and unwinds the stack of deferred calls; `Replay` is a checker
that refuses any misuse of memory or library.

Where the code and its comments disagree the code is followed: the header comment of
`sys-queue.h` says that simple queues lose elements at the head only, but SIMPLEQ_REMOVE and
SIMPLEQ_REMOVE_AFTER exist (`network/lldpd/patches/sys-queue.h:66-71`, 372-389).  Four expected
properties are false of the code; each has its exact condition:

- LIST_MOVE leaves a well-formed list only if there is nothing to move, as the first member's
  back link stays on the old head (`List.Move`, `List.MovedIsListOnlyIfEmpty`).
- Wait returning does not imply cancellation, whatever is launched (`Supervisor.WaitBeforeCancel`).
- After cancellation a new child can still start: exactly the children whose command was
  between the context check and the start (`Supervisor.NewChildOnlyIfCleared`, reached by
  `Supervisor.LateStart`).
- The rebuilt initrd does not always read back as it was built: it does if and only if the new
  image is below 4 GiB, beyond which its length needs a ninth digit (`Initrd.RebuiltSurvives`,
  `Initrd.RebuildInitrd`).

Automatic induction is switched off in every lemma, so each inductive step is in the text.
`dafny verify dfyconfig.toml` checks the project.

## Model

| member | source | states |
|---|---|---|
| `FamilyRuns.RunFromInit` | network/lldpd/patches/sys-queue.h:149-828 | From the INIT macros of any number of heads of any of the five families, every legal run of the insertions, removals (REMOVE, REMOVE_HEAD, REMOVE_AFTER), replacements, concatenations and re-initialisations that each family offers leaves well-formed queues holding what the same run on sequences gives, and no QUEUEDEBUG check fires, in the debugging build with its poisoning as in the release build; LIST_MOVE is no step of a run |
| `FamilyRuns.RunAll` | network/lldpd/patches/sys-queue.h:149-828 | The same from any well-formed queues; as the run on sequences does not depend on the family, the scanning and the pointer-fixing removals have the same effect on every run |
| `FamilyRuns.OfferedBy` | network/lldpd/patches/sys-queue.h:149-828 | Operation by operation, the families that have it |
| `FamilyRuns.OfferedAt` | network/lldpd/patches/sys-queue.h:149-828 | An operation is possible in a run when its queue is there and its family has it; SIMPLEQ, STAILQ and TAILQ are concatenated with their own kind |
| `FamilyRuns.Apply` | network/lldpd/patches/sys-queue.h:149-828 | One operation on one of several live queues: the queues it names change as the sequence step says, all others stay well formed with the members they had |
| `FamilyRuns.Edit` | network/lldpd/patches/sys-queue.h:149-828 | Every operation on one queue of any family, but LIST_MOVE, keeps that family's link invariant and performs the sequence operation |
| `FamilyRuns.Concat` | network/lldpd/patches/sys-queue.h:391-397 | SIMPLEQ, STAILQ and TAILQ concatenation of two different queues: first holds both member sequences in order, second is empty, both well formed |
| `QueueRuns.StepKeepsSeparate` | network/lldpd/patches/sys-queue.h:149-828 | No operation ever puts an element in two queues or twice in one, and queues it does not name keep their members |
| `QueueRuns.RunKeepsSeparate` | network/lldpd/patches/sys-queue.h:149-828 | The same over every legal run |
| `QueueRuns.RunAppend` | network/lldpd/patches/sys-queue.h:149-828 | What a run comes to: no operation changes nothing, and a run with one more operation is legal if and only if the run is and the operation is where it led, and does one more step from there |
| `QueueRuns.InsertionRunUndone` | network/lldpd/patches/sys-queue.h:149-828 | Every new element may be put in at any place and taken out again by REMOVE, by REMOVE_HEAD when it went in at the head and by REMOVE_AFTER when it went in behind a member, and all queues are as before |
| `QueueRuns.ReplacementRunUndone` | network/lldpd/patches/sys-queue.h:296-562 | Every member may be replaced by any new element and that by the old one again, and all queues are as before |
| `QueueRuns.ConcatAndInitRuns` | network/lldpd/patches/sys-queue.h:391-571 | Any two different queues may be concatenated, the second behind the first, and any queue initialised |
| `QueueRuns.FirstInFirstOut` | network/lldpd/patches/sys-queue.h:344-664 | Elements inserted at the tail leave by REMOVE_HEAD behind those that were there and in their order, for any number of insertions and removals |
| `QueueRuns.OthersUntouched` | network/lldpd/patches/sys-queue.h:149-828 | The cells an operation may write are disjoint from the head and members of every queue it does not name |
| `SeqOps.EndInsertionsAgree` | network/lldpd/patches/sys-queue.h:501-538 | On member sequences, putting in before the first is putting in at the head, after the last at the tail |
| `SeqOps.InsertionUndone` | network/lldpd/patches/sys-queue.h:501-550 | Removing a newly inserted element gives back the original sequence, wherever it was inserted |
| `SeqOps.SweepsReject` | network/lldpd/patches/sys-queue.h:443-456 | Removing the accepted members front to back or back to front, one at a time, leaves in both cases exactly the rejected ones in order |
| `SeqOps.RejectsMembers` | network/lldpd/patches/sys-queue.h:443-456 | What such a sweep leaves is the members the predicate rejects, no more and no fewer |
| `Cells.Foreach` | network/lldpd/patches/sys-queue.h:438-441 | FOREACH of the NULL-ended families visits exactly the members, first to last, and terminates |
| `Cells.ChecksMean` | network/lldpd/patches/sys-queue.h:233-247 | On a forward chain with back links among head and members, the head insertion check passes exactly when the first back link is right, the check of a member exactly when its own and its successor's are |
| `Cells.ChecksFindBackLinks` | network/lldpd/patches/sys-queue.h:233-247 | The LIST checks of the head and all members pass if and only if all back links are right |
| `Slist.InsertHead` | network/lldpd/patches/sys-queue.h:158-161 | The new element is in front of the unchanged members |
| `Slist.InsertAfter` | network/lldpd/patches/sys-queue.h:153-156 | The new element stands right behind the given member; head and other members are not written |
| `Slist.RemoveHead` | network/lldpd/patches/sys-queue.h:168-170 | The first member is gone, the rest is kept in order |
| `Slist.RemoveAfter` | network/lldpd/patches/sys-queue.h:163-166 | The member behind the given one is gone, by a write to that one only |
| `Slist.Remove` | network/lldpd/patches/sys-queue.h:172-183 | The linear scan terminates for every member and takes out exactly that member |
| `List.InsertHead` | network/lldpd/patches/sys-queue.h:279-285 | The new element is in front with all back links right, also on a list that LIST_MOVE left with a stale back link, where the check fires exactly when that list has members |
| `List.InsertAfter` | network/lldpd/patches/sys-queue.h:261-269 | The new element stands right behind the given member, chain and back links well formed, no check fires |
| `List.InsertBefore` | network/lldpd/patches/sys-queue.h:271-277 | The new element stands right before the given member without the head being passed, no check fires |
| `List.Unlink` | network/lldpd/patches/sys-queue.h:289-292 | The two writes of the removal keep chain and back links of the remaining members; the head's slot changes only when the first member goes |
| `List.Remove` | network/lldpd/patches/sys-queue.h:287-294 | Exactly the element goes, without head or loop, and no check fires; after LIST_MOVE the removal of the first member is lost on the new head and makes the old one a well-formed list of the other members, that of any other member works |
| `List.Replace` | network/lldpd/patches/sys-queue.h:296-303 | The replacement takes the element's place, the other members keep theirs |
| `List.Move` | network/lldpd/patches/sys-queue.h:222-228 | The forward chain goes to the second head and the first is empty, but the first member still names the first head; moving a list onto itself empties it |
| `List.MovedIsListOnlyIfEmpty` | network/lldpd/patches/sys-queue.h:222-228 | The moved list satisfies the back-link invariant if and only if it has no member |
| `List.ChecksNoticeMove` | network/lldpd/patches/sys-queue.h:233-247 | On a moved list the head check passes if and only if it is empty, the check of the first member fails, those of all other members pass |
| `Simpleq.InsertHead` | network/lldpd/patches/sys-queue.h:349-353 | Element in front, tail pointer on the final slot (STAILQ_INSERT_HEAD is the same code, lines 606-610) |
| `Simpleq.InsertTail` | network/lldpd/patches/sys-queue.h:355-359 | Element behind all members, tail pointer on its slot (STAILQ: 612-616) |
| `Simpleq.InsertAfter` | network/lldpd/patches/sys-queue.h:361-365 | Element right behind the given member, tail pointer moved only behind the last (STAILQ: 618-622) |
| `Simpleq.RemoveHead` | network/lldpd/patches/sys-queue.h:367-370 | First member gone, tail pointer back on the head's own slot when none is left (STAILQ: 624-627) |
| `Simpleq.RemoveAfter` | network/lldpd/patches/sys-queue.h:372-376 | The member behind the given one is gone, tail pointer on the final slot |
| `Simpleq.Remove` | network/lldpd/patches/sys-queue.h:378-389 | The linear scan terminates for every member and takes out exactly that member, tail pointer on the final slot (STAILQ: 629-640) |
| `Simpleq.Concat` | network/lldpd/patches/sys-queue.h:391-397 | Members of both in order, second queue empty, tail pointer right (STAILQ: 652-658) |
| `Simpleq.LastIsLast` | network/lldpd/patches/sys-queue.h:399-403 | SIMPLEQ_LAST and STAILQ_LAST give the last member, or NULL for an empty queue |
| `Tailq.Init` | network/lldpd/patches/sys-queue.h:496-499 | An empty tail queue, whatever the head held before |
| `Tailq.InsertHead` | network/lldpd/patches/sys-queue.h:501-510 | Element in front; chain, back links and tail all as the new member sequence determines them; no check fires |
| `Tailq.InsertTail` | network/lldpd/patches/sys-queue.h:512-518 | Element behind all members, every link determined, no check fires |
| `Tailq.InsertAfter` | network/lldpd/patches/sys-queue.h:520-530 | Element right behind the given member, every link determined, no check fires |
| `Tailq.InsertBefore` | network/lldpd/patches/sys-queue.h:532-538 | Element right before the given member although the macro is not given the head, no check fires |
| `Tailq.Remove` | network/lldpd/patches/sys-queue.h:540-550 | Exactly the element goes, every remaining link determined, no check fires, and the element's own links are kept (release) or poisoned (debugging) |
| `Tailq.Replace` | network/lldpd/patches/sys-queue.h:552-562 | The replacement takes the element's place, every link determined |
| `Tailq.Concat` | network/lldpd/patches/sys-queue.h:564-571 | First queue holds both member sequences in order, second is empty, every link determined |
| `Tailq.LastIsLast` | network/lldpd/patches/sys-queue.h:431-432 | Reading the owner of the last slot as a head gives the last member, or NULL when empty |
| `Tailq.PrevIsPredecessor` | network/lldpd/patches/sys-queue.h:433-434 | Reading the owner of the previous slot as a head gives the predecessor, or NULL at the first member |
| `Tailq.ForeachReverse` | network/lldpd/patches/sys-queue.h:448-451 | The backward loop terminates and visits exactly the reverse of the members |
| `Tailq.ForeachSafeRemove` | network/lldpd/patches/sys-queue.h:443-446 | Removing the members any predicate accepts while walking forward visits every original member once in order and leaves exactly the rejected ones, well formed |
| `Tailq.ForeachReverseSafeRemove` | network/lldpd/patches/sys-queue.h:453-456 | The same walking backward, in reverse order |
| `Tailq.InsertThenRemove` | network/lldpd/patches/sys-queue.h:501-550 | Each of the four insertions followed by the removal of that element restores every link of the head and of all members |
| `Tailq.EndInsertionsAgree` | network/lldpd/patches/sys-queue.h:501-538 | TAILQ_INSERT_BEFORE the first member leaves the same links on head, element and all members as TAILQ_INSERT_HEAD, and TAILQ_INSERT_AFTER the last as TAILQ_INSERT_TAIL: they are taken after the first macro and found again after the second |
| `Tailq.LinksDetermined` | network/lldpd/patches/sys-queue.h:408-422 | A tail queue is well formed if and only if its links are those that the members determine, so two well-formed heaps with the same members have the same links |
| `Tailq.TailChecksMean` | network/lldpd/patches/sys-queue.h:466-484 | The tail insertion check passes exactly when the tail pointer is right, the check before removal fires only for the last member and only when the tail pointer is wrong |
| `Tailq.ChecksCharacterise` | network/lldpd/patches/sys-queue.h:461-484 | On a non-empty forward chain the debugging checks of head and members pass if and only if all back links and the tail pointer are right |
| `Circleq.InsertAfter` | network/lldpd/patches/sys-queue.h:758-768 | Element right behind the given member, both chains closed at the head, no check fires |
| `Circleq.InsertBefore` | network/lldpd/patches/sys-queue.h:770-780 | Element right before the given member, both chains closed at the head, no check fires |
| `Circleq.InsertHead` | network/lldpd/patches/sys-queue.h:782-791 | Element in front, both chains closed at the head, no check fires |
| `Circleq.InsertTail` | network/lldpd/patches/sys-queue.h:793-802 | Element behind all members, both chains closed at the head, no check fires |
| `Circleq.Remove` | network/lldpd/patches/sys-queue.h:804-818 | Exactly the element goes, both chains closed at the head, no check fires, its own links kept or poisoned |
| `Circleq.ChecksPass` | network/lldpd/patches/sys-queue.h:697-725 | On a well-formed circular queue the head check and every member's check pass |
| `Circleq.HeadCheckMeans` | network/lldpd/patches/sys-queue.h:697-707 | On a forward ring the head check passes exactly when the first member's back link is right and the head's is right or empty |
| `Circleq.ElmCheckMeans` | network/lldpd/patches/sys-queue.h:708-725 | On a forward ring the check of a member passes exactly when its back link and the one that must point at it are right |
| `Circleq.ChecksCharacterise` | network/lldpd/patches/sys-queue.h:697-725 | On a forward ring with members the checks of head and members pass if and only if the backward walk is right too |
| `Circleq.Foreach` | network/lldpd/patches/sys-queue.h:820-823 | The forward loop ends at the head sentinel having visited exactly the members in order |
| `Circleq.ForeachReverse` | network/lldpd/patches/sys-queue.h:825-828 | The backward loop visits exactly the reverse |
| `Circleq.LoopStepsInverse` | network/lldpd/patches/sys-queue.h:844-851 | On members LOOP_NEXT and LOOP_PREV stay among the members and undo each other |
| `Circleq.LoopWalkIsRotation` | network/lldpd/patches/sys-queue.h:844-847 | Any number of LOOP_NEXT steps is a rotation of the member sequence |
| `Circleq.FullTurn` | network/lldpd/patches/sys-queue.h:844-847 | Among the positive step counts up to the number of members, exactly that number returns to the start |
| `Hex.PaddedFits` | hack/p2p/build-samekey-installer-base.py:243-259 | A number formatted 08x has eight digits if it is below 2^32 and more if it is not |
| `Hex.FixedOfValue` | hack/p2p/build-samekey-installer-base.py:191-201 | Reading a hexadecimal field and formatting it again at its width changes letter case only |
| `Hex.FixedValue` | hack/p2p/build-samekey-installer-base.py:191-201 | Reading a formatted number gives the number back |
| `Hex.DigitMeans` | hack/p2p/build-samekey-installer-base.py:191-201 | A byte is accepted as a digit if and only if it is one of the characters 0123456789abcdefABCDEF, and counts as much as its place there |
| `Hex.DigitWritten` | hack/p2p/build-samekey-installer-base.py:244-259 | The digits that are written are the first sixteen of these, in lower case |
| `Hex.ValueConcat` | hack/p2p/build-samekey-installer-base.py:191-201 | Numerals are positional: the value of two put together |
| `Hex.PaddedValue` | hack/p2p/build-samekey-installer-base.py:244-259 | The format 08x of any number reads back as the number, and is eight digits wide unless it needs more |
| `Hex.UpperNumeralValue` | hack/p2p/build-samekey-installer-base.py:191-201 | The numeral of a number in upper case, at any width that holds it, is read as that number |
| `Hex.CaseInsensitive` | hack/p2p/build-samekey-installer-base.py:191-201 | Numerals that differ in letter case only are both numbers, of one value, or neither is |
| `Utf8.Utf8Means` | hack/p2p/build-samekey-installer-base.py:208 | The names that decode are exactly the encodings of sequences of Unicode scalar values |
| `NewcFormat.Spelling` | hack/p2p/build-samekey-installer-base.py:187-230 | The magic and the trailer name, in characters |
| `NewcFormat.HeaderMeans` | hack/p2p/build-samekey-installer-base.py:183-201 | For every byte string: a wrong magic is refused first, then a column that is no number, as far as the header can be read |
| `NewcFormat.HeaderNumbers` | hack/p2p/build-samekey-installer-base.py:191-201 | The columns from 14 to 102, cut where the input ends, must each hold a digit and digits only; nothing is asked of inode and check |
| `NewcFormat.ColumnRead` | hack/p2p/build-samekey-installer-base.py:191-200 | Each field of an entry that is read is the number in its columns: mode 14, uid 22, gid 30, nlink 38, mtime 46, device numbers 62, 70, 78, 86 |
| `NewcFormat.BodyMeans` | hack/p2p/build-samekey-installer-base.py:203-228 | For every byte string: the name is what can be read of it without its last byte, the data as much as there is of its size from the next multiple of 4 on, and a name that is no text is an error |
| `NewcFormat.ColumnWritten` | hack/p2p/build-samekey-installer-base.py:243-259 | Each field stands in its columns of a written header, inode and check as zeros |
| `NewcFormat.HeaderSpelt` | hack/p2p/build-samekey-installer-base.py:243-259 | The written header of any entry, number after number, also when one needs more than eight digits |
| `NewcFormat.EntryWritten` | hack/p2p/build-samekey-installer-base.py:260-264 | A written entry is its header, the name, zeros up to the next multiple of 4, the data, and zeros up to the next one |
| `NewcCut.CutEntry` | hack/p2p/build-samekey-installer-base.py:182-228 | A written entry cut off after any number of bytes: refused within magic or numbers, otherwise read with exactly what is left of name and data, unless the cut breaks a character |
| `NewcCut.ParseBehind` | hack/p2p/build-samekey-installer-base.py:182-235 | Behind written entries reading goes on as it would without them |
| `NewcCut.CutArchive` | hack/p2p/build-samekey-installer-base.py:182-235 | An archive cut off within an entry is read as the entries in front, unchanged, and what is left of that one |
| `Newc.EntryRoundTrip` | hack/p2p/build-samekey-installer-base.py:182-228 | What the writer emits for an entry that fits, with anything behind it, is read back as that entry, and the reader stops exactly at its end |
| `Newc.BodyRead` | hack/p2p/build-samekey-installer-base.py:203-212 | Behind a header, name, data and rest are split off at the right places whatever the terminator and padding bytes are |
| `Newc.RoundTrip` | hack/p2p/build-samekey-installer-base.py:178-266 | Parsing a written archive gives back all entries and the trailing bytes |
| `Newc.RoundTripExactly` | hack/p2p/build-samekey-installer-base.py:178-266 | Write-then-parse is the identity if and only if every number fits eight digits, names are UTF-8, the trailer is nowhere but last, and trailing bytes stand only behind a trailer |
| `Newc.WritableMeans` | hack/p2p/build-samekey-installer-base.py:230-235 | That condition, spelled out over all entries |
| `Newc.ParsedIsWritable` | hack/p2p/build-samekey-installer-base.py:182-235 | Whatever bytes the parser accepts, also when cut short inside header, name, data or padding, the entries and suffix it returns meet the condition |
| `Newc.NormalForm` | hack/p2p/build-samekey-installer-base.py:182-266 | For every accepted byte string, parse-then-write gives bytes that parse to the same entries and suffix, and doing it again changes no byte |
| `NewcCodec.ReadBody` | hack/p2p/build-samekey-installer-base.py:203-228 | The reads behind a header do what the format's definition says, decoding errors included |
| `NewcCodec.ParseNewcArchive` | hack/p2p/build-samekey-installer-base.py:178-235 | The reading loop terminates and returns exactly the parse of the stream, or its first error |
| `NewcCodec.WriteCpioEntry` | hack/p2p/build-samekey-installer-base.py:243-264 | The five writes of an entry append exactly its encoding |
| `NewcCodec.WriteNewcArchive` | hack/p2p/build-samekey-installer-base.py:238-266 | The writing loop appends exactly the encoding of all entries and the trailing bytes |
| `NewcLayout.RawEntryParses` | hack/p2p/build-samekey-installer-base.py:182-228 | An uncut entry with any inode, check, letter case, terminator and padding parses to its metadata, name and data |
| `NewcLayout.HeaderRewritten` | hack/p2p/build-samekey-installer-base.py:244-259 | Each header byte after parse-then-write: inode and check become zeros, digits become lower case, the magic stays |
| `NewcLayout.RawEntryRewritten` | hack/p2p/build-samekey-installer-base.py:243-264 | Any uncut entry is rewritten with the same name and data, zero terminator and padding, and every part at its length |
| `NewcLayout.LayoutKept` | hack/p2p/build-samekey-installer-base.py:178-266 | Every archive, given as bytes, whose reads are all complete parses, and writing it back gives the same archive with exactly the bytes of `CanonRaw` changed: inode, check, letter case, name terminators and padding |
| `NewcLayout.TakenApart` | hack/p2p/build-samekey-installer-base.py:182-235 | Every complete archive is the bytes of its raw entries, one after the other, and its suffix |
| `NewcLayout.PutTogether` | hack/p2p/build-samekey-installer-base.py:182-235 | Conversely any whole entries with the trailer nowhere but last, and a suffix behind a trailer only, make a complete archive, and taking it apart gives them back |
| `NewcLayout.OffsetsKept` | hack/p2p/build-samekey-installer-base.py:204-212 | For every complete archive: the bytes from the offset of entry k on are the entries from k on, and at the same offset of what parse-then-write gives stand the rewritten entries from k on |
| `NewcLayout.DataKept` | hack/p2p/build-samekey-installer-base.py:204-212 | For every complete archive the data of each parsed entry stand, byte for byte, at the same offset before and after parse-then-write |
| `NewcLayout.OffsetsAligned` | hack/p2p/build-samekey-installer-base.py:204-212 | In every complete archive all entries, data and the suffix start at multiples of 4 |
| `NewcLayout.LengthKept` | hack/p2p/build-samekey-installer-base.py:238-266 | Parse-then-write keeps the length of every complete archive, and its suffix |
| `NewcCase.WrittenIsComplete` | hack/p2p/build-samekey-installer-base.py:238-266 | Every archive that fits is written as a complete archive, of the raw entries named |
| `NewcCase.CaseDoesNotMatter` | hack/p2p/build-samekey-installer-base.py:191-201 | Complete archives that differ in the case of header letters only parse to the same |
| `NewcCase.UpperCaseArchive` | hack/p2p/build-samekey-installer-base.py:182-266 | A written archive with its header letters raised to upper case parses to the same entries and suffix |
| `Initrd.Spelling` | hack/p2p/build-samekey-installer-base.py:572-734 | The two names that are looked for, in characters |
| `Initrd.ExtractStock` | hack/p2p/build-samekey-installer-base.py:568-576 | The files extracted hold the data of the last entry of each name, and are missing exactly when no entry has it |
| `Initrd.RebuildEntries` | hack/p2p/build-samekey-installer-base.py:618-637 | Same entries in the same order with the same metadata, data replaced on exactly the entries named rootfs.sqsh |
| `Initrd.RebuiltMeans` | hack/p2p/build-samekey-installer-base.py:618-637 | Field by field, what a rebuilt entry list has in common with the stock one |
| `Initrd.FindRootfs` | hack/p2p/build-samekey-installer-base.py:732-735 | The verification loop takes the first entry named rootfs.sqsh |
| `Initrd.RebuiltWritable` | hack/p2p/build-samekey-installer-base.py:618-642 | Replacing the image keeps the archive writable if and only if the image is below 4 GiB or was nowhere to replace |
| `Initrd.RebuiltSurvives` | hack/p2p/build-samekey-installer-base.py:618-642 | With an image to replace, the rebuilt archive reparses to the rebuilt entries and the kept suffix if and only if the image is below 4 GiB |
| `Initrd.FirstMatchIsImage` | hack/p2p/build-samekey-installer-base.py:730-737 | Whatever first match verification finds is the new image, even if the name repeats |
| `Initrd.ImageVerified` | hack/p2p/build-samekey-installer-base.py:618-737 | Verification of a rebuilt archive obtains the new image exactly when that is below 4 GiB: no entry read back is as long as a larger one |
| `Initrd.RebuildInitrd` | hack/p2p/build-samekey-installer-base.py:566-737 | From stock bytes to verdict, for every image: errors exactly on unparsable stock or missing init or rootfs.sqsh; otherwise the verdict is what reading the rebuilt archive gives, the archive reparses to the rebuilt entries and suffix if and only if the image is below 4 GiB, and verification obtains the image if and only if it is |
| `Supervisor.StepInv` | nvidia-gpu/nvidia-fabricmanager/nvidia-fabricmanager-wrapper/main.go:39-152 | Every step of main, the signal goroutine or any command keeps the invariant tying counter, command phases, main's position and cancellation together |
| `Supervisor.RunInv` | nvidia-gpu/nvidia-fabricmanager/nvidia-fabricmanager-wrapper/main.go:39-152 | The invariant in every state of every interleaving of N commands |
| `Supervisor.CommandMoves` | nvidia-gpu/nvidia-fabricmanager/nvidia-fabricmanager-wrapper/main.go:39-73 | For every phase: from exactly which phases, cancelled or not, a command can enter it, and what that does to counter and context |
| `Supervisor.MainMoves` | nvidia-gpu/nvidia-fabricmanager/nvidia-fabricmanager-wrapper/main.go:94-152 | For every position of main: from exactly where it is reached, when, and what that does; among others Wait returns exactly at counter 0, and a poll is possible exactly while uncancelled and not timed out |
| `Supervisor.SignalMoves` | nvidia-gpu/nvidia-fabricmanager/nvidia-fabricmanager-wrapper/main.go:105-110 | The signal goroutine goes through its positions in order, and cancels at the last |
| `Supervisor.ChildMayExit` | nvidia-gpu/nvidia-fabricmanager/nvidia-fabricmanager-wrapper/main.go:51-69 | From every reachable state with main running, a running or interrupted child may exit |
| `Supervisor.EndsAndCancels` | nvidia-gpu/nvidia-fabricmanager/nvidia-fabricmanager-wrapper/main.go:51-71 | From every reachable state with main running and a child running, a continuation without any signal finishes that command and cancels the context |
| `Supervisor.OneEndsAll` | nvidia-gpu/nvidia-fabricmanager/nvidia-fabricmanager-wrapper/main.go:42-71 | And then any other running child is interrupted: one command ending shuts the others down |
| `Supervisor.SignalCancels` | nvidia-gpu/nvidia-fabricmanager/nvidia-fabricmanager-wrapper/main.go:105-110 | From every reachable state with main running and no signal yet, the signal may arrive and cancel the context before anything else happens |
| `Supervisor.AliveMeans` | nvidia-gpu/nvidia-fabricmanager/nvidia-fabricmanager-wrapper/main.go:51-69 | In every reachable state a child is alive if and only if it has been started and its cmd.Run has not returned |
| `Supervisor.Safety` | nvidia-gpu/nvidia-fabricmanager/nvidia-fabricmanager-wrapper/main.go:39-152 | In every reachable state the WaitGroup counter is the number of commands added and not done, is never negative, main is past Wait, or the process over, only with every command done and no child alive, and the context is cancelled exactly when the signal goroutine or some callback cancelled it |
| `Supervisor.CallbackCancels` | nvidia-gpu/nvidia-fabricmanager/nvidia-fabricmanager-wrapper/main.go:70-71 | A command past its callback implies a context cancelled then and in every later state |
| `Supervisor.CancelledForGood` | nvidia-gpu/nvidia-fabricmanager/nvidia-fabricmanager-wrapper/main.go:99 | A cancelled context is cancelled in every later state |
| `Supervisor.WaitBeforeCancel` | nvidia-gpu/nvidia-fabricmanager/nvidia-fabricmanager-wrapper/main.go:70-71 | For every configuration of commands there is a run in which Wait returns and the process ends with the context never cancelled, as Done comes before the callback: no launch guarantees the cancellation |
| `Supervisor.NoNewChild` | nvidia-gpu/nvidia-fabricmanager/nvidia-fabricmanager-wrapper/main.go:42-56 | After cancellation a child is alive only if at that moment it was alive or its command had already passed the context check |
| `Supervisor.NewChildOnlyIfCleared` | nvidia-gpu/nvidia-fabricmanager/nvidia-fabricmanager-wrapper/main.go:42-56 | In every reachable cancelled state, a child that is not alive can still come alive, by some continuation of the run, if and only if its command had passed the context check by then |
| `Supervisor.LateStart` | nvidia-gpu/nvidia-fabricmanager/nvidia-fabricmanager-wrapper/main.go:42-56 | Such states are reached: for every configuration and every command of it, a run in which that child starts after cancellation |
| `Supervisor.StepDescends` | nvidia-gpu/nvidia-fabricmanager/nvidia-fabricmanager-wrapper/main.go:39-152 | Every step strictly lowers a measure over command phases, polls, main and the signal goroutine |
| `Supervisor.RunsEnd` | nvidia-gpu/nvidia-fabricmanager/nvidia-fabricmanager-wrapper/main.go:39-152 | No run is longer than the measure of its first state |
| `Supervisor.ShutdownProgresses` | nvidia-gpu/nvidia-fabricmanager/nvidia-fabricmanager-wrapper/main.go:42-152 | After cancellation, until main has returned, some goroutine has a step that does not depend on a child exiting by itself |
| `Supervisor.QuietMeansShutDown` | nvidia-gpu/nvidia-fabricmanager/nvidia-fabricmanager-wrapper/main.go:94-152 | A cancelled run has no such step left if and only if main has returned, and then every command is done, its callback run or not, and no child is alive |
| `Wrapper.WaitForFile` | nvidia-gpu/nvidia-fabricmanager/nvidia-fabricmanager-wrapper/main.go:75-92 | At most ceil(timeout / 100 ms) polls when every sleep lasts 100 ms; nil only after a successful stat, which is the first one; a cancellation or timeout error only when that channel was ready |
| `Wrapper.GuidTextInjective` | nvidia-gpu/nvidia-fabricmanager/nvidia-fabricmanager-wrapper/main.go:114 | The formatted GUID determines the GUID |
| `Wrapper.GuidTextForm` | nvidia-gpu/nvidia-fabricmanager/nvidia-fabricmanager-wrapper/main.go:114 | The formatted GUID is 0x and a numeral of its value in lower case without leading zeros |
| `Wrapper.ChooseCommands` | nvidia-gpu/nvidia-fabricmanager/nvidia-fabricmanager-wrapper/main.go:112-148 | The exact command lines for each outcome of the search: NVLSM then FabricManager, both with the GUID, or FabricManager alone without one |
| `Wrapper.PlanLaunch` | nvidia-gpu/nvidia-fabricmanager/nvidia-fabricmanager-wrapper/main.go:112-148 | From the device list: NVLSM is started if and only if there is a usable port; the exact command lines, with the GUID of the first one |
| `Wrapper.LaunchEnds` | nvidia-gpu/nvidia-fabricmanager/nvidia-fabricmanager-wrapper/main.go:112-152 | With the launch of one or two commands as main makes it, no interleaving has more than 19 or 182 steps |
| `MgmtPort.ScanPort` | nvidia-gpu/nvidia-fabricmanager/nvidia-fabricmanager-wrapper/nvswitch.go:122-175 | Scanning a port takes it if it is the first usable one and changes nothing once a port is chosen |
| `MgmtPort.ScanPorts` | nvidia-gpu/nvidia-fabricmanager/nvidia-fabricmanager-wrapper/nvswitch.go:118-175 | The loop over a readable device's ports settles the choice for the device, and fills and defers a release once per readable port of the one reused block |
| `MgmtPort.VisitDevice` | nvidia-gpu/nvidia-fabricmanager/nvidia-fabricmanager-wrapper/nvswitch.go:92-176 | The body of the device loop: its allocations and deferred releases in order, the choice carried on |
| `MgmtPort.FindNvswitchMgmtPort` | nvidia-gpu/nvidia-fabricmanager/nvidia-fabricmanager-wrapper/nvswitch.go:81-183 | The full scan returns the first usable port in device, then index order, or the error exactly when there is none; its calls are the acquisitions followed by their undoing in reverse, a clean execution that leaves nothing allocated, filled or open, ending with umad_done |
| `MgmtPort.BigEndianMeans` | nvidia-gpu/nvidia-fabricmanager/nvidia-fabricmanager-wrapper/nvswitch.go:129-145 | Bytes are numbers with the first byte counting most |
| `MgmtPort.UsableMeans` | nvidia-gpu/nvidia-fabricmanager/nvidia-fabricmanager-wrapper/nvswitch.go:129-175 | On the bytes the library gives: a port is usable if and only if it is readable, some GUID byte is not zero, and bit 10 of the mask, bit 2 of its third byte, is clear |
| `MgmtPort.FirstIsUnique` | nvidia-gpu/nvidia-fabricmanager/nvidia-fabricmanager-wrapper/nvswitch.go:166-174 | There is at most one first usable port, so later ports cannot change the choice |
| `MgmtPort.Acquire` | nvidia-gpu/nvidia-fabricmanager/nvidia-fabricmanager-wrapper/nvswitch.go:90-128 | Acquiring something and deferring its release keeps an execution clean and balanced, for a stack of any depth |
| `MgmtPort.FullTrace` | nvidia-gpu/nvidia-fabricmanager/nvidia-fabricmanager-wrapper/nvswitch.go:90-128 | Running the deferred calls last in, first out releases everything without a misuse |
| `MgmtPort.CleanCounts` | nvidia-gpu/nvidia-fabricmanager/nvidia-fabricmanager-wrapper/nvswitch.go:95-128 | In any clean execution allocations match frees and fills match releases, block by block |
| `MgmtPort.AllocatedOnce` | nvidia-gpu/nvidia-fabricmanager/nvidia-fabricmanager-wrapper/nvswitch.go:94-119 | The search allocates the name and CA block of every device and the port block of every readable one once, and nothing else |
| `MgmtPort.FreedExactlyOnce` | nvidia-gpu/nvidia-fabricmanager/nvidia-fabricmanager-wrapper/nvswitch.go:90-128 | Over the whole search each allocated block is freed exactly once |
| `MgmtPort.ReleasedAsFilled` | nvidia-gpu/nvidia-fabricmanager/nvidia-fabricmanager-wrapper/nvswitch.go:101-128 | Over the whole search each successful read of a CA or port is released exactly once; CAs are read once per readable device, port blocks once per readable port |
| `MgmtPort.NoUseAfterFree` | nvidia-gpu/nvidia-fabricmanager/nvidia-fabricmanager-wrapper/nvswitch.go:90-128 | In a clean execution a block that is not live and not allocated again is never filled, released or freed |

## Left out

- Preconditions of the queue macros are those of their callers: a new element is in no queue, an old one is in the queue named, two different queues are concatenated, and SLIST_REMOVE_AFTER, SIMPLEQ_REMOVE_AFTER and the REMOVE_HEAD macros have something to remove.
- The FOREACH_SAFE loops of SLIST, LIST, SIMPLEQ and STAILQ: the same loop as TAILQ_FOREACH_SAFE over simpler links.
- `__launder_type`, static initialisers and compiler aliasing: pointer comparison is the identity of cells.
- The other two copies of `sys-queue.h` under `storage/`: the same text.
- Python's `int(text, 16)` accepts signs, blanks, underscores and a `0x` prefix: header fields here are plain hexadecimal digits, anything else is a number error.
- The inode number: entries have no such field and the writer emits 0, so hard links are not part of the round trip.
- NewcLayout.LayoutKept: covers archives whose reads are complete and whose names have a terminator; what is read of archives cut short is said by `NewcFormat.BodyMeans` and `NewcCut.CutEntry`, and that writing them keeps their meaning by `Newc.NormalForm`.
- LIST_MOVE is not a step of the runs of `FamilyRuns`, since none of its non-empty results is a well-formed list; what the later operations make of such a list is said by `List.InsertHead` and `List.Remove`.
- Compression, squashfs, objcopy, Docker and file handling of the Python script: the new image is a parameter, compression is lossless.
- The goroutine inside os/exec that watches the context and the WaitDelay timer are steps of the command; output copying and logging are not modelled.
- A second signal between signal.Stop and cancellation ends the process by default action; the model has no step for it.
- Wrapper.WaitForFile: the timer channel counts as ready from the moment the timeout has passed, and each sleep as lasting at least 100 ms.
- The LPF device list is a parameter: reading sysfs and searching the VPD text are not part of this model, nor are port states and log lines.
- The two endianness conversion errors of the port scan cannot occur on full-length buffers and have no branch.
