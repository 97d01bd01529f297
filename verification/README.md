# Queues, a falling-block game and a command device, verified

This project models three parts of the repository in Dafny and proves what they are for.

**The intrusive lists of `server/queue.h`** (`queue_*.dfy`). Heap structures whose entries point at
the word that points at them. A queue head and a queue entry are both records of at most two
pointers, and the tail queue macros read one as the other; so one class `Link` with two words stands
for both, and a pointer to a "next" word is a reference to the `Link` whose first word it is. Kinds
of queue without a second word never touch it. Each macro is a method with the macro's pointer
writes, proved to turn the list of one sequence into the list of another; its `modifies` clause names
the cells it may write, so every list that shares no cell with them is unchanged. The sequence, and
the position of an element in it, are ghost parameters: they only say which list is meant.

**The game of `tetris-app/main.c`** (`tetris_*.dfy`). Three layers: the pass that clears lines, on
sequences of lines of any kind and number (`LineClear`); a state machine on a grid of 15 lines of 8
cells (`TetrisRules`), whose keys and ticks are then explained on the cells that the mino covers
(`TetrisMoves`) and whose shapes are explained as pictures, quarter turns and mirror images
(`MinoTurns`); and the program's own globals and byte array, updated in place by its loops
(`FieldClear` for any number of rows and lines, `TetrisField`, `TetrisGame`). The class methods are
proved to do to the bytes what the state machine does to the cells; the theorems about whole games
are proved of the state machine and so hold of the program.

**The character device and its server** (`aesd_*.dfy`). `CommandStream` says what the device is for:
a byte stream, cut into commands, of which the last N can be read. `CircularBuffer` is the ring with
its two cursors and `full` flag, `CharDevice` the driver over it with its own kernel memory, so that
reading, writing or freeing a block that is not allocated would be a failed proof. `CommandSeeks` says
where a seek to a byte of a command lands. The capacity N is any number from 1. `SocketServer` is one
step system for all client threads, one mutex and the shared device; its theorems, and those of
`ServerPackets`, `ReaderPlaces` and `ServerSchedules`, are about every schedule. A schedule is nothing
but the order in which the threads make their steps.

## What was found

- The clear pass never blanks the top line. It equals the rule of the game exactly when there is
  nothing to clear or the top line is blank (`LineClear.ClearIsIdealIff`), and leaves a full line
  exactly when the top line was full (`LineClear.NoFullLineStaysIff`). The game over test guarantees
  the blank top line, in every reachable state.
- Overlap where the mino stands does not end the game unless the mino also locks in that tick
  (`TetrisRules.TickEndsGameIff`). It happens: `OverlapGame.OverlapCanGoOn` plays such a game from
  the start in seven events.
- The clear loop runs a sixteenth time, one line past the rows. Read as flat memory that round tests
  the top line of the following rows and one byte beyond the array; it never finds a full line
  (`TetrisGame.Tetris.LockAndClear`).
- A write with a newline before its last byte becomes one command all the same: commands are the
  lines of the stream exactly when no write has one (`CommandStream.CommandsAreLinesIff`).
- The seek command counts slots of the ring, not commands from the oldest. Slots counted from the
  oldest on are the commands of that age, for every state of the device
  (`CharDevice.Device.AgedSeekIsCommandSeek`); so the seek answers every request as it should exactly
  when each slot has as many bytes as the slot as many places from the oldest
  (`CharDevice.Device.AllSeeksByAgeIff`; `SeeksByAgeIff` and the contract of `AesdIoctlSeekTo` say it
  request by request). With the oldest command in slot 0 it always does, and nowhere else: for every
  capacity n and every slot o from 1 to n - 1 there are writes that bring the oldest command there and
  a request that then lands on another byte (`CharDevice.WrappedSeekMisses`, reached by writing in
  `CharDevice.WrappedDevice`). It always lands inside the content. A read after a seek with the oldest
  command in slot 0 delivers that command from the byte asked for on (`CharDevice.Device.SeekThenRead`).
- `aesd_llseek` keeps the lock when the mode is unknown; its contract says so.
- A thread reads after it released the mutex, while others commit. Whatever they do, its client
  receives bytes of the stream in their order and none twice (`ReaderPlaces.ReceivesInOrder`). They
  are the content of its last read, each byte from the place it has there, if and only if no read
  delivered anything or nothing was evicted between the first read that did and the last
  (`ReaderPlaces.ReceivesContentIff`); evictions before the first read, by the thread itself or by
  others, do no harm, so this holds on a full ring too. `EvictionSchedule.EvictionCanMislead` is a
  schedule, for a device of any capacity, in which a single eviction between the two makes the bytes
  themselves differ. The client finds its own packet in what it received if, besides, only commands
  from before the packet had been evicted (`SocketServer.ClientReceivesContent`).
- No schedule of the threads runs for ever, and none gets stuck (`ServerSchedules.StepsAreBounded`,
  `ServerSchedules.SomeThreadCanStep`), although each reads on while others write.

## Model

| member | source | states |
|---|---|---|
| Links.ChainIsAcyclic | server/queue.h:192-193 | a NULL-ended chain of next words has no element twice: no cycle |
| Links.ChainIsUnique | server/queue.h:192-193 | the memory determines the list: one head leads through one sequence only |
| SinglyLinkedList.Init | server/queue.h:142-144 | the head leads to the empty list |
| SinglyLinkedList.InsertHead | server/queue.h:146-149 | list s becomes [elm] + s |
| SinglyLinkedList.InsertAfter | server/queue.h:151-154 | elm comes in right behind the given element, order otherwise kept, without the head |
| SinglyLinkedList.RemoveHead | server/queue.h:156-158 | list s becomes s without its first element |
| SinglyLinkedList.RemoveAfter | server/queue.h:160-163 | exactly the element behind the given one is gone |
| SinglyLinkedList.Remove | server/queue.h:165-176 | the search ends for an element of the list, and exactly it is gone and keeps its own link |
| SinglyLinkedList.Swap | server/queue.h:178-182 | the two heads exchange their lists, also when it is the same head |
| SinglyLinkedList.ForeachSafe | server/queue.h:195-198 | visits exactly the elements, each once and in order, and ends, whatever the body does to the links of the element it was given |
| SinglyLinkedList.FreeAll | server/aesdsocket.c:50-55 | the teardown loop frees every node exactly once, in order, and leaves the empty list |
| DoublyLinkedList.Init | server/queue.h:220-222 | an empty list |
| DoublyLinkedList.InsertHead | server/queue.h:224-230 | list s becomes [elm] + s with every le_prev the word that points at its node |
| DoublyLinkedList.InsertBefore | server/queue.h:232-237 | elm comes in right before the given element, without the head, links right on both sides |
| DoublyLinkedList.InsertAfter | server/queue.h:239-245 | elm comes in right behind the given element, without the head |
| DoublyLinkedList.Remove | server/queue.h:247-252 | without the head, exactly the element is gone from the list it is in, and keeps its own links |
| DoublyLinkedList.Replace | server/queue.h:254-260 | the second element takes the place of the first, which keeps its own links |
| DoublyLinkedList.Swap | server/queue.h:262-272 | the two heads exchange their lists, also when either is empty or it is the same head |
| DoublyLinkedList.Prev | server/queue.h:279-281 | the element before, or the end for the first element |
| SinglyLinkedTailQueue.Init | server/queue.h:315-318 | an empty queue whose last word is the head's own first word |
| SinglyLinkedTailQueue.InsertHead | server/queue.h:320-325 | queue s becomes [elm] + s, with stqh_last the word of the last next |
| SinglyLinkedTailQueue.InsertAfter | server/queue.h:327-333 | elm comes in right behind the given element, and stqh_last follows at the end |
| SinglyLinkedTailQueue.InsertTail | server/queue.h:335-339 | queue s becomes s + [elm] |
| SinglyLinkedTailQueue.Concat | server/queue.h:341-347 | the first queue gets both, the second becomes empty, also when either is empty |
| SinglyLinkedTailQueue.RemoveHead | server/queue.h:349-354 | queue s becomes s without its first element |
| SinglyLinkedTailQueue.RemoveHeadUntil | server/queue.h:356-361 | everything up to and with the given element is gone |
| SinglyLinkedTailQueue.RemoveAfter | server/queue.h:363-369 | exactly the element behind the given one is gone |
| SinglyLinkedTailQueue.Remove | server/queue.h:371-385 | the search ends for an element of the queue, exactly it is gone and keeps its own link, and stqh_last is right again |
| SinglyLinkedTailQueue.Swap | server/queue.h:387-400 | the two heads exchange their queues, also when either is empty or it is the same head |
| SinglyLinkedTailQueue.Last | server/queue.h:406-410 | the last element, or the end if there is none |
| TailQueue.Init | server/queue.h:448-451 | an empty queue |
| TailQueue.InsertHead | server/queue.h:453-461 | queue s becomes [elm] + s; every tqe_prev is the word that points at its node and tqh_last the word of the last next |
| TailQueue.InsertBefore | server/queue.h:463-468 | elm comes in right before the given element, without the head |
| TailQueue.InsertAfter | server/queue.h:470-479 | elm comes in right behind the given element |
| TailQueue.InsertTail | server/queue.h:481-486 | queue s becomes s + [elm] |
| TailQueue.Concat | server/queue.h:488-495 | the first queue gets both, the second becomes empty, also when either is empty |
| TailQueue.Remove | server/queue.h:497-504 | exactly the element is gone, and keeps its own links |
| TailQueue.Replace | server/queue.h:506-515 | the second element takes the place of the first, which keeps its own links |
| TailQueue.Swap | server/queue.h:517-534 | the two heads exchange their queues, also when either is empty or it is the same head |
| TailQueue.Last | server/queue.h:541-542 | rereading a link as a head finds the last element, or the end if there is none |
| TailQueue.Prev | server/queue.h:544-545 | rereading a link as a head finds the element before, or the end for the first |
| TailQueue.Foreach | server/queue.h:549-552 | visits exactly the elements in order, and ends |
| TailQueue.ForeachReverse | server/queue.h:559-562 | visits exactly the reverse of that, and ends |
| CircularQueue.AllDistinct | server/queue.h:639-650 | no element is twice in a circular queue |
| CircularQueue.LinksAreInverse | server/queue.h:573-585 | next and prev undo each other at every cell, the head included |
| CircularQueue.Init | server/queue.h:590-593 | an empty queue |
| CircularQueue.InsertHead | server/queue.h:595-604 | queue s becomes [elm] + s, linked both ways with the head as end mark |
| CircularQueue.InsertBefore | server/queue.h:606-615 | elm comes in right before the given element |
| CircularQueue.InsertAfter | server/queue.h:617-626 | elm comes in right behind the given element |
| CircularQueue.InsertTail | server/queue.h:628-637 | queue s becomes s + [elm] |
| CircularQueue.Remove | server/queue.h:639-650 | exactly the element is gone, and keeps its own links |
| CircularQueue.LoopNextIsCyclic | server/queue.h:699-702 | looping skips the head: behind the last element comes the first |
| CircularQueue.LoopsUndoEachOther | server/queue.h:699-707 | looping on and looping back undo each other at every element |
| CircularQueue.AfterSteps | server/queue.h:699-702 | m steps from element k lead to element k + m, around the queue |
| CircularQueue.FullLoop | server/queue.h:699-702 | as many steps as there are elements visit each of them once and come back |
| MinoShapes.MinoSizes | tetris-app/bitmap/bitmap.h:185-464 | every mino of the table has the same number of cells at all four angles: four, or one and two for the easy minos |
| MinoShapes.ShapeHasCells | tetris-app/bitmap/bitmap.h:185-464 | every mino has a cell that something can stop |
| MinoTurns.FirstAngleIsPicture | tetris-app/bitmap/bitmap.h:185-464 | each kind at its first angle has the cells of its picture |
| MinoTurns.NextAngleIsQuarterTurn | tetris-app/bitmap/bitmap.h:185-464 | for every kind and angle, the next angle has the cells of this one turned by a quarter, at a known place in the box |
| MinoTurns.LIsMirroredJ | tetris-app/bitmap/bitmap.h:309-370 | the L mino is the mirror image of the J mino at every angle |
| MinoTurns.ZIsMirroredS | tetris-app/bitmap/bitmap.h:248-308 | the Z mino is the mirror image of the S mino at every angle |
| MinoTurns.KindsDiffer | tetris-app/bitmap/bitmap.h:185-464 | two kinds never have the same cells, whatever their angles and wherever they are moved |
| MinoTurns.SixBytesWide | tetris-app/bitmap/bitmap.h:185-464 | a group with a cell is exactly six marked bytes from byte 0 or 1 on, one without is all zero |
| MinoTurns.ThreeEarlyGroups | tetris-app/bitmap/bitmap.h:326-393 | the cells that begin at byte 0 are three in the whole table |
| LineClear.PassAt | tetris-app/main.c:269-283 | each line after the pass is a copy of the line before the pass that the source map names |
| LineClear.SourcesInOrder | tetris-app/main.c:269-283 | the pass never puts a line above one that was above it |
| LineClear.ClearMeaning | tetris-app/main.c:262-286 | for any field: the open lines keep their order below, and one copy of the top line comes in for each full line below the top |
| LineClear.ClearIsIdealIff | tetris-app/main.c:262-286 | that is "drop full lines, add blank ones" if and only if nothing is full or the top line is blank |
| LineClear.NoFullLineStaysIff | tetris-app/main.c:262-286 | no full line stays if and only if the top line was not full |
| LineClear.FasterClosed | tetris-app/main.c:284 | n cleared lines take 100000 microseconds each off the interval, down to 300000 and no further |
| FieldClear.CopyGroup | tetris-app/main.c:273-280 | the eight byte assignments move one group and write nothing else |
| FieldClear.ShiftDown | tetris-app/main.c:271-282 | in place, the lines above a byte column each move down by one and the top line stays |
| FieldClear.LineIsFull | tetris-app/main.c:263-267 | the test on the field as it is now gives the state of that line before the pass began |
| FieldClear.ClearLines | tetris-app/main.c:262-286 | for any number of rows and lines: every byte afterwards, the number of full lines counted, and the interval |
| TetrisField.ByteTestIsCellTest | tetris-app/main.c:469-486 | the test of bytes hits if and only if the test of cells does, for all shapes, also those drawn at bytes 0 to 5 |
| TetrisField.IsHit | tetris-app/main.c:469-486 | the loop returns whether some cell of the mino would be outside or on an occupied cell |
| TetrisField.GroupLocked | tetris-app/main.c:255-259 | a group of 8 bytes stays all zero or marked with 0x7e at offset 1 when any shape is drawn over it |
| TetrisField.LockMino | tetris-app/main.c:255-259 | drawing in place adds exactly the cells of the mino to the cells shown |
| TetrisField.ClearShows | tetris-app/main.c:271-282 | moving bytes keeps groups well formed and moves the cells as the pass on lines does |
| TetrisField.ClearFullLines | tetris-app/main.c:262-286 | the pass in place on the bytes is the pass on the cells |
| TetrisField.ClearField | tetris-app/main.c:166 | the cleared array shows the blank grid |
| TetrisField.TopTouched | tetris-app/main.c:289-292 | the game over test on bytes tells whether some cell of the top line is occupied |
| TetrisField.SixteenthLineFull | tetris-app/main.c:262-267 | what the sixteenth round of the clear loop tests, over flat memory |
| TetrisRules.Drop | tetris-app/main.c:221-229 | the place of rest is not above the start and inside the field |
| TetrisRules.DropMeaning | tetris-app/main.c:221-229 | the place of rest is the one depth that is reached through free places only and where one more line hits |
| TetrisRules.LockCells | tetris-app/main.c:255-259 | a mino that overlaps nothing adds exactly its number of cells to the field |
| TetrisRules.ClearCells | tetris-app/main.c:262-286 | with an empty top line, clearing takes exactly eight cells for each full line |
| TetrisRules.AtMostFourLines | tetris-app/main.c:329-340 | a lock fills at most four lines, so the score ladder covers every case |
| TetrisRules.ContinuingLock | tetris-app/main.c:253-340 | after a lock that goes on: the field is that of the rule of the game, cells balance, score and interval as functions of the lines cleared, and the next mino as drawn at line 0 and row 3 |
| TetrisRules.TickEndsGameIff | tetris-app/main.c:248-292 | a tick ends the game if and only if the mino locks and overlaps or leaves something in the top line |
| TetrisRules.StartInv | tetris-app/main.c:163-179 | a new game meets the invariant |
| TetrisRules.KeyKeepsInv | tetris-app/main.c:190-233 | every key keeps the invariant and the field, and never lifts the mino |
| TetrisRules.TickKeepsInv | tetris-app/main.c:241-343 | every tick keeps the invariant |
| TetrisRules.Run | tetris-app/main.c:187-346 | in every reachable state of a game in progress no line is full, the top line is empty, the mino is inside, and the interval is between 300000 and 1000000 |
| TetrisRules.OverStaysOver | tetris-app/main.c:294-312 | no key and no tick changes a game that is over |
| TetrisRules.StartIsAtStart | tetris-app/main.c:163-179 | a new game has no cell on the field, no gap, score 0 and the slowest pace, and the drawn mino at line 0 and row 3 |
| TetrisRules.BooksBalance | tetris-app/main.c:253-340 | over any game from the start, while it goes on: cells on the field are the cells locked less eight for each line cleared; score and interval follow from the totals alone |
| TetrisRules.LocksInTime | tetris-app/main.c:241-343 | under any keys a mino at line x locks within 15 - x ticks |
| TetrisRules.LockNoGaps | tetris-app/main.c:253-259 | a mino that locks rests on something: the occupied lines still reach down without a gap |
| TetrisRules.ClearNoGaps | tetris-app/main.c:262-286 | clearing lines opens no gap among the occupied lines |
| TetrisRules.RunHasNoGaps | tetris-app/main.c:187-346 | in every reachable game the occupied lines reach down to the last line without a gap |
| OverlapGame.OverlapCanGoOn | tetris-app/main.c:248-253 | a game played from the start in which a mino appears over occupied cells and no tick ends the game |
| TetrisRules.TopLineHasRoom | tetris-app/main.c:262-267 | after a lock and the pass the top line is never occupied in all of rows 1 to 7 |
| TetrisMoves.MoveKeys | tetris-app/main.c:193-213 | 'l', 'r' and 'd' move the covered cells to the next row, to the row before and one line on, exactly if all are inside and free there; otherwise nothing changes |
| TetrisMoves.TurnKey | tetris-app/main.c:214-220 | 'u' turns the covered cells by a quarter, exactly if all are inside and free then; otherwise nothing changes |
| TetrisMoves.DropKey | tetris-app/main.c:221-229 | 'f' moves the covered cells on through free places, as many lines as there are and no more |
| TetrisMoves.OtherKeys | tetris-app/main.c:192-230 | any other key changes nothing |
| TetrisMoves.LockedCells | tetris-app/main.c:254-259 | the field after a lock is the field with the covered cells |
| TetrisMoves.TickFalls | tetris-app/main.c:253-343 | a tick moves the covered cells one line on if all are inside and free there |
| TetrisMoves.TickLands | tetris-app/main.c:248-343 | otherwise the mino lands: the field afterwards, when the game is over and what then stays, and where the next mino stands |
| TetrisGame.Tetris.constructor | tetris-app/main.c:163-179 | the variables at the start show a new game |
| TetrisGame.Tetris.HandleKey | tetris-app/main.c:192-230 | each key does to the variables what the rules do to the game |
| TetrisGame.Tetris.HardDrop | tetris-app/main.c:221-229 | from any line the loop's fifteen rounds end at the place of rest |
| TetrisGame.Tetris.LockAndClear | tetris-app/main.c:254-286 | lock, pass and the idle sixteenth round: bytes, number of lines and interval afterwards |
| TetrisGame.Tetris.Tick | tetris-app/main.c:241-343 | a tick on the variables and bytes is the tick of the rules |
| TetrisGame.Tetris.Play | tetris-app/main.c:187-346 | over any events, and whatever lies beyond the field at each of them, the program's state shows the game of the state machine |
| CommandStream.JoinedAt | aesd-char-driver/main.c:65-80 | the bytes of a command are where the sizes of those before it say in the content |
| CommandStream.WriteKeepsStream | aesd-char-driver/main.c:109-143 | a write adds its bytes to the stream; what is pending has no newline and every command has one |
| CommandStream.StreamIsKept | aesd-char-driver/main.c:109-143 | over any writes, split anywhere: commands ever committed and pending bytes make up the stream |
| CommandStream.CommandsAreLinesIff | aesd-char-driver/main.c:127-143 | the commands are the lines of the stream if and only if no write has a newline before its last byte |
| CommandStream.LinesAreCommitted | aesd-char-driver/main.c:127-143 | writes that each bring a newline are the commands, one each, and nothing is pending |
| CommandStream.OnlyOneHolds | aesd-char-driver/aesd-circular-buffer.c:48-58 | a byte of the content is in one command only |
| CommandSeeks.CommandSeekFinds | aesd-char-driver/main.c:226-249 | at the place of a byte of a command the content reads that command from the byte on; there is no place exactly when there is no such command or byte |
| CommandSeeks.SlotCommandIs | aesd-char-driver/aesd-circular-buffer.c:75-93 | a slot holds the one of the last n commands whose number is the slot's, modulo n |
| CommandSeeks.AllSlotBytes | aesd-char-driver/main.c:238-249 | the slots together have as many bytes as the content, however far the ring has turned |
| CommandSeeks.SeekPlaceIsCommandSeek | aesd-char-driver/main.c:226-249 | with the oldest command in slot 0 the seek by slots lands on the byte of the command of that age |
| CommandSeeks.SeekPlaceInside | aesd-char-driver/main.c:232-249 | a seek that succeeds lands inside the content |
| CircularBuffer.Ring.constructor | aesd-char-driver/aesd-circular-buffer.c:98-101 | the all-zero ring is a valid empty ring |
| CircularBuffer.Ring.AddEntry | aesd-char-driver/aesd-circular-buffer.c:75-93 | the entries in order of age lose the oldest if the ring was full and gain the new one; slots and cursors afterwards |
| CircularBuffer.EntryAdded | aesd-char-driver/aesd-circular-buffer.c:75-93 | writing one slot turns a ring of some entries into the ring of those entries and the new one, less the oldest when full, wherever the ring begins |
| CircularBuffer.TotalSize | aesd-char-driver/aesd-circular-buffer.c:36-40 | the sizes of all slots add up to the sizes of the entries held, wrapped or not |
| CircularBuffer.Ring.FindEntryOffset | aesd-char-driver/aesd-circular-buffer.c:29-66 | an entry is found if and only if the offset is below the total, it and the inner offset name that byte in order of age; the scan ends in one round and the last return is dead |
| CircularBuffer.RingByAge | aesd-char-driver/aesd-circular-buffer.c:45-58 | the slots taken from the oldest around the ring are the entries held, in order of age, and then empty slots |
| CharDevice.BlocksInUse | aesd-char-driver/main.c:109-143 | nothing leaks: as many blocks as filled slots, and one if something is pending |
| CharDevice.SizesAreLengths | aesd-char-driver/main.c:130-141 | the sizes that the ring keeps are the lengths of the commands kept |
| CharDevice.Device.TotalIsLength | aesd-char-driver/main.c:130-141 | the cached total is the number of bytes that can be read |
| CharDevice.AgedSlotHolds | aesd-char-driver/main.c:232-249 | the slot as many places from the oldest has the size of the command of that age, behind as many bytes |
| CharDevice.Device.AgedSeekIsCommandSeek | aesd-char-driver/main.c:226-249 | for every state and request: with slots counted from the oldest on, the seek gives the byte of the command of that age in the content, or none |
| CharDevice.Device.AllSeeksByAgeIff | aesd-char-driver/main.c:226-249 | the seek by slots does so for every request if and only if each slot has the size of the one as many places from the oldest |
| CharDevice.Device.SeeksByAgeIff | aesd-char-driver/main.c:226-249 | and for one request if and only if the sizes up to that slot say so; with the oldest in slot 0 they do |
| CharDevice.Device.SeekLandsInside | aesd-char-driver/main.c:232-249 | a seek that succeeds lands on a byte of the content |
| CharDevice.WrappedSeekMisses | aesd-char-driver/main.c:238-249 | for every capacity and every place of the oldest command but slot 0, a device and a request that lands on another byte than the one asked for |
| CharDevice.WrappedDevice | aesd-char-driver/main.c:238-249 | each such device is reached from a new one by writing, and the seek itself returns that position |
| CharDevice.Device.WriteEach | aesd-char-driver/main.c:96-148 | any writes one after another leave the device with the commands and pending bytes of the whole stream |
| CharDevice.Device.constructor | aesd-char-driver/aesd-circular-buffer.c:98-101 | an empty device, no block allocated |
| CharDevice.Device.Commit | aesd-char-driver/main.c:127-143 | the pending command moves into the ring; a block is freed if and only if the ring was full, and it is the oldest one |
| CharDevice.Device.AesdWrite | aesd-char-driver/main.c:96-148 | each outcome: interrupted and fault leave the commands and pending bytes, success is the write of the stream; each block keeps one owner, the total stays the sum of sizes, and only the named blocks are freed |
| CharDevice.Device.AesdRead | aesd-char-driver/main.c:52-94 | delivers the bytes of the content from the position to the end of that command or the count, and moves by as many; fails exactly at and past the end |
| CharDevice.Device.ReadBack | server/aesdsocket.c:134-136 | reading on with any positive counts delivers the content from the position on, all of it within as many reads as bytes |
| CharDevice.Device.AesdLlseek | aesd-char-driver/main.c:150-200 | modes 0, 1 and 2 succeed if and only if the target is a byte of the content and otherwise keep the position; an unknown mode keeps the lock |
| CharDevice.Device.AesdIoctlSeekTo | aesd-char-driver/main.c:219-249 | the seek by slots, always inside the content; for each request exactly when its answer is that of the command of that age, which it always is with the oldest in slot 0 |
| CharDevice.Device.SeekFollowsStore | aesd-char-driver/main.c:226-249 | the device's seek lands where the commands ever committed say, and nothing else in its state matters |
| CharDevice.Device.SeekThenRead | aesd-char-driver/main.c:219-249 | with the oldest command in slot 0, the read after a seek delivers the command of that age from the byte asked for on, cut to the count; the seek fails exactly when there is no such command or byte |
| SocketServer.ReadIsDeviceRead | server/aesdsocket.c:134-136 | a read of the step system delivers as many bytes as the device does into the server's buffer: up to the end of the command that holds the position |
| SocketServer.RunKeepsInv | server/aesdsocket.c:78-142 | in every interleaving: the holder of the mutex is the one thread that writes, the stream is what the threads wrote in mutex order, and each client's bytes are in it in one piece |
| SocketServer.WholePackets | server/aesdsocket.c:90-126 | in every interleaving the device has whole packets in the order of taking the mutex, none interleaved or repeated, and a first part of the holder's packet |
| SocketServer.NothingPendingBetweenPackets | server/aesdsocket.c:90-126 | if the last chunk of every packet brings a newline, nothing is pending whenever the mutex is free |
| ServerPackets.PacketEnds | server/aesdsocket.c:103-123 | what is accepted of a packet is the data up to and with the first chunk whose last received byte is a newline, whatever follows; or all, without such a chunk |
| ServerPackets.TerminatedIsTaken | server/aesdsocket.c:103-123 | a packet is terminated if and only if the last of the chunks taken that has data brings a newline |
| ServerPackets.LeavesAtPacketEnd | server/aesdsocket.c:103-126 | in every interleaving a thread that has left the mutex has handled exactly the chunks up to that one, in order, and written their data |
| ServerPackets.WritesUpToNewline | server/aesdsocket.c:103-126 | the same for a packet given by what comes before that chunk and what after |
| ServerPackets.ReadsFromLastSeek | server/aesdsocket.c:105-109 | in every interleaving a client begins to read where its last seek that found a place has put it, and at 0 without one |
| ServerPackets.LoneSeekReceives | server/aesdsocket.c:105-136 | a client that is alone and sends one seek receives the content from the place of that seek on, or all of it if there is none |
| ServerPackets.LoneSeekReceivesCommand | server/aesdsocket.c:105-136 | with the oldest command in slot 0, it receives first the command asked for, from the byte asked for on |
| SocketServer.OwnPacketInContent | server/aesdsocket.c:126-136 | a committed packet is in the content as long as what was evicted lies before it in the stream |
| SocketServer.ClientReceivesContent | server/aesdsocket.c:126-136 | a client received the content of its last read from its start on if nothing was evicted between the first read that delivered something and the last; and in it its own packet if it read from 0, the packet is terminated and only commands from before it were evicted |
| SocketServer.EvictedBeforePacketIff | server/aesdsocket.c:126-136 | that last condition holds if and only if the evicted bytes lie before the packet in the stream |
| SocketServer.AllReceiveContent | server/aesdsocket.c:126-136 | in a run without eviction all of that holds for every client |
| ReaderPlaces.ReceivesInOrder | server/aesdsocket.c:134-136 | in every interleaving, whatever is evicted, a client has bytes of the stream, in their order and none twice |
| ReaderPlaces.ReceivesContentIff | server/aesdsocket.c:126-136 | for every run and every client that is done: it received the content of its last read, byte for byte from the places that content has in the stream, if and only if no read delivered anything or nothing was evicted between the first that did and the last |
| EvictionSchedule.EvictionCanMislead | server/aesdsocket.c:126-136 | for every capacity a schedule with one eviction between first and last read, after which a client has other bytes than those of the content of its last read |
| ServerSchedules.ReadsAreBounded | server/aesdsocket.c:134-136 | in every interleaving a client's successful reads and the bytes they deliver are at most the bytes of all packets |
| ServerSchedules.StepsAreBounded | server/aesdsocket.c:78-142 | in every interleaving only so many events do anything, bounded by the packets alone |
| ServerSchedules.SomeThreadCanStep | server/aesdsocket.c:78-142 | in every interleaving, while some client is not done, some thread can make a step |

## Left out

- Kernel plumbing: module and device registration, open and release, debug output, and the ioctl
  requests that are not `AESDCHAR_IOCSEEKTO` (that path unlocks without having locked).
- CharDevice.Device.AesdWrite: does not model a failing `kmalloc` or `krealloc`, nor the bytes that a
  faulting copy may leave behind the end of the pending command, which nothing reads before they are
  overwritten.
- C integer widths in sizes, offsets, scores and the interval: all are unbounded here. A negative
  offset is rejected, as after conversion to `size_t`.
- Sockets, signals, thread creation and cancellation, the log, the timer thread and the parsing of
  the seek text: a received chunk is data, or the text of a seek command with the numbers in it.
- A chunk is a seek command by its own kind; the program compares the first bytes of the buffer.
- The initial bytes of a mino test where the shape byte is zero: the program reads the field there,
  even outside the rows, and the value does not matter.
- TetrisRules.OverStaysOver: does not model the key that starts the next game from the game over or
  title screen; the next game is a new run.
- The display, bitmaps, title, key driver, score file and real time. A tick is an event, the next
  mino's type and angle are part of it.
- `CIRCLEQ_REPLACE` and `CIRCLEQ_FOREACH_REVERSE_SAFE` do not expand to valid code; static
  initialisers, and the plain and safe loops of the kinds of queue whose loops are not listed above,
  would repeat what is proved.
- The GPIO driver, examples, finder-app, and scripts.
