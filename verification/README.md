# Verified models of the evilos kernel and its libraries

evilos is a small teaching kernel with its own C library and a bundled boot
loader. Most of it is port input and output; what is not are eight algorithms
with real state. This project models them in Dafny and proves what they promise.

| file | models | main results |
|---|---|---|
| `Canvas.dfy` | the dirty-block canvas (`gui/canvas.c`, `gui/box.c`) | what every pixel shows after an update of any frame, blocks that are passed over included; exactly when that is the naive painter's picture, and a discipline that is enough for it |
| `Getopt.dfy` | `getopt` for short options (`lib/getopt.c`) | full runs in all three orderings end and report the options in order; a permuting run leaves the vector stably partitioned; exactly when a prefix of the option string spoils a run |
| `Tftp.dfy` | the TFTP client of the boot loader (`fsys_tftp.c`) | over a network that loses, repeats and reorders packets, what is delivered is the file; all of it, when the missing blocks come in order among whatever else; when the size is found, and exactly when it is wrong |
| `Calendar.dfy`, `CInt.dfy` | `gmtime_r`, `localtime_r`, `mktime`, ISO weeks (`lib/time.c`) | for exactly which 32-bit times and zones `mktime` undoes the conversions, and the reverse; the exact range of -1; normalisation keeps the instant; the closed form equals the sum |
| `Scheduler.dfy` | task list, scheduler, timer tick (`task.c`, `timer.c`) | a ready task comes to run if and only if some task is running or may take over from TASK0, and then within a bound |
| `Semaphores.dfy` | semaphores and the SIMPLEQ queue (`sem.c`, `queue.h`) | counters, queues and task states agree over every interleaving; exactly which runs hold all waiting tasks back; posts reach every waiting task in turn |
| `NumberText.dfy` | `number` and the integer readers (`vsprintf.c`, `sscanf.c`) | for which flags, bases and values reading undoes printing, with 32-bit words |
| `Allocator.dfy` | the first-fit allocator (`mm.c`) | any run of allocations and frees keeps a partition of the memory map |
| `Pipes.dfy` | pipes (`eeos_pipe.c`) | over any run of calls on all pipes, every open pipe is a queue of at most 4096 bytes |

`Wrappers.dfy` holds two types that several models share.

Operations that the source writes as loops over mutable state are classes and
methods with loops here; each is tied to a function or relation on values, and
the long-run properties are lemmas about those. C integers are unbounded
integers, except for numbers as text and the times of `gmtime_r` and
`localtime_r`, which are 32-bit words.

## Where the code does less than its documentation

Each of these is stated as an exact condition, and where the condition does not
name the inputs itself, together with one on which the code goes wrong.

- `getopt`: only the call that initialises the scan strips a leading `-` or `+`
  from the option string. Later calls look letters up in the unstripped string,
  so the prefix character is taken for an option letter, and a `:` behind it no
  longer asks for silence (`Getopt.PrefixedRunAgrees`; inputs in
  `Getopt.DashTakenForLetter` and `Getopt.SilenceLost`).
- `scheduler`: after a wait that blocks, if TASK0 is the best candidate, it is
  taken for the current task without being marked RUNNING or switched to. Then
  `sem_wait` returns to its caller, asleep and queued
  (`Semaphores.BlockedWaitRuns`, `Semaphores.WaitersHeldBack`), and a ready task
  with a larger priority number than TASK0's never runs
  (`Scheduler.EveryReadyTaskRuns`). Both happen in `Semaphores.StarvingRun`, four
  ticks and one wait after the start. TASK0 itself must not wait at all
  (`Semaphores.Task0MustNotWait`, `Semaphores.Task0Waits`).
- `tftp_dir`: a size that is announced while the file is being counted is added
  to the count (`Tftp.Client.Dir`, `Tftp.LateSizeOnPackets`; a trace in
  `Tftp.UnknownPacketDoublesSize`).
- `number` and the readers: a `+` printed by PLUS is never read back, the `0x` of
  SPECIAL is not understood in base 16, and base 0 does not know `0X`
  (`NumberText.SignedRoundTrip`, `UnsignedRoundTrip`, `SelfDescribing`).
- `mem_malloc`: 0 is returned both for "nothing fits" and for an exact fit of a
  region that starts at address 0 (`Allocator.NullMeans`,
  `Allocator.NullForExactFit`).
- `eeos_pipe_init`: its guard is set from the start, so it always fails; the
  pipes work because static memory is zero (`Pipes.PipeMgr.Init`).

The dirty mark of a canvas box is the client's part of the interface, not a
defect: `Canvas.Canvas.Update` says what an update does for any frame, and
`Canvas.MoveCleanBox` what a client sees who moves a box without setting it.

## Model

| member | source | states |
|---|---|---|
| `Canvas.LocalPaintsAll` | evilos/gui/canvas.c:149-173 | on the canvas, the boxes queued in a block paint what all boxes of the frame paint there |
| `Canvas.TopIsFirst` | evilos/gui/canvas.c:185-188 | the picture meant is that of the first request covering a pixel, or 0 |
| `Canvas.SubsequenceLocal` | evilos/gui/canvas.c:157-170 | if one frame's boxes are a subsequence of another's, so are the boxes of each block |
| `Canvas.SameLengthSamePicture` | evilos/gui/canvas.c:182 | the counting argument: a subsequence of full length paints the same picture |
| `Canvas.SkippedBlockIsCurrent` | evilos/gui/canvas.c:182 | under the discipline, what is queued in a block with nothing dirty is a subsequence of what was queued there before, and with an unchanged count the same picture |
| `Canvas.KeptBoxesDisciplined` | evilos/gui/canvas.c:110-117 | if every clean box was drawn in the last frame, with the same rectangle and colour and in the same relative order, the frame keeps the discipline |
| `Canvas.FillRow` | evilos/gui/box.c:32-34 | exactly one stretch of the buffer takes the colour, also when it is empty |
| `Canvas.FillRows` | evilos/gui/box.c:31-36 | exactly the pixels of a rectangle take the colour, also when it has no area |
| `Canvas.DrawLocal` | evilos/gui/box.c:3-37 | draw_box changes exactly the pixels of its block that the box covers, wherever the box lies |
| `Canvas.Clear` | evilos/gui/canvas.c:32-39 | exactly the pixels of one block become 0 |
| `Canvas.Canvas.constructor` | evilos/gui/canvas.c:75-91 | a fresh canvas satisfies the invariant, for any size |
| `Canvas.Canvas.InitBlock` | evilos/gui/canvas.c:59-68 | one block gets its place and its flip call, and no other block changes |
| `Canvas.Canvas.Init` | evilos/gui/canvas.c:49-73 | every block gets its own place in the buffer and an empty queue, and is due for painting whatever is drawn first |
| `Canvas.Canvas.BlocksMet` | evilos/gui/canvas.c:118-155 | the clipped corners divided by the block size bound exactly the blocks in which the box covers some pixel of the canvas |
| `Canvas.Canvas.Clip` | evilos/gui/canvas.c:118-147 | every early return is for a box that meets no block, and no other box returns early |
| `Canvas.Canvas.Enqueue` | evilos/gui/canvas.c:149-173 | exactly the blocks in range get the box, at block-local coordinates, and a dirty box spoils their count |
| `Canvas.Canvas.DrawBox` | evilos/gui/canvas.c:110-174 | the request joins the scene, queues and scene stay in step, the box turns clean, and exactly the blocks that a dirty box meets become due for painting; a box without area changes nothing |
| `Canvas.Canvas.SkipsWhen` | evilos/gui/canvas.c:182 | the count test passes a block over if and only if no repaint is due, nothing dirty was queued, and as much is queued as on record |
| `Canvas.Canvas.Repaint` | evilos/gui/canvas.c:183-188 | painting a queue from its end to its front shows, in the block and nowhere else, the first box covering each pixel, the boxes taken as they are at that time; then the display's callback is called once, and finds that picture |
| `Canvas.Canvas.ClearBlock` | evilos/gui/canvas.c:184 | the block is painted with nothing, and the rest of the buffer stays |
| `Canvas.Canvas.RunQueued` | evilos/gui/canvas.c:185-188 | with the queue painted behind a call, running that call leaves it painted from the call on |
| `Canvas.Canvas.RunNode` | evilos/gui/canvas.c:186-187 | one call of a queue paints its box, as it is then, in the block and nowhere else, or is the one call of the display's callback |
| `Canvas.Canvas.QueueLooks` | evilos/gui/canvas.c:163-168 | what a block will paint: the requests that met it when they were made, with the size and colour the boxes have now |
| `Canvas.Canvas.UpdateBlock` | evilos/gui/canvas.c:182-191 | a block is painted, or passed over and left as it is; its record says which queue it shows; every other block keeps its pixels and its queue |
| `Canvas.Canvas.UpdateNext` | evilos/gui/canvas.c:181-192 | one turn of the loop: the blocks before are dealt with, the others as they were |
| `Canvas.Canvas.UpdateBlocks` | evilos/gui/canvas.c:181-192 | for any frame, after the loop every canvas pixel shows its block's queue, or, in a block passed over, the queue on that block's record; the callback has been called for exactly the blocks painted, row by row |
| `Canvas.Canvas.DisciplineAgrees` | evilos/gui/canvas.c:182 | where every block passed over is disciplined towards its record, each has the new picture on record |
| `Canvas.Canvas.FrameDiscipline` | evilos/gui/canvas.c:182 | a frame that is disciplined towards the last one is so in every block |
| `Canvas.Canvas.StaleNeedsNoDiscipline` | evilos/gui/canvas.c:195-203 | after a redraw the discipline asks for nothing |
| `Canvas.Canvas.Update` | evilos/gui/canvas.c:176-193 | for any frame, boxes altered since they were drawn included: what each pixel shows; with unaltered boxes, every canvas pixel has the colour of the first-drawn box covering it, or 0, if and only if the blocks passed over have the same picture on record; the discipline is enough |
| `Canvas.Canvas.Redraw` | evilos/gui/canvas.c:195-203 | every block is due for painting, so the next update needs no discipline |
| `Canvas.MoveCleanBox` | evilos/gui/canvas.c:110-193 | a box moved without its dirty mark, through the canvas itself: its old pixel stays and its new one does not appear |
| `Canvas.PaintTwo` | evilos/gui/canvas.c:110-193 | two overlapping boxes on two blocks, pixel by pixel, and the two flips |
| `Getopt.MyIndex` | evilos/lib/getopt.c:214-226 | the tail of the string from the first occurrence of the letter on |
| `Getopt.RotateBottomShort` | evilos/lib/getopt.c:342-358 | swapping a shorter lower segment to the top leaves a smaller rotation with the same outcome |
| `Getopt.RotateTopShort` | evilos/lib/getopt.c:359-375 | swapping a shorter upper segment to the bottom leaves a smaller rotation with the same outcome |
| `Getopt.Scanner.SwapSegments` | evilos/lib/getopt.c:349-355 | two disjoint segments change places and nothing else moves |
| `Getopt.Scanner.Exchange` | evilos/lib/getopt.c:304-382 | the vector becomes old[middle..top) in front of old[bottom..middle), everything else in place, and the loop ends |
| `Getopt.Scanner.Flush` | evilos/lib/getopt.c:557-566 | all options passed so far come to stand in front of all non-options skipped so far, each group in order |
| `Getopt.Scanner.SkipAll` | evilos/lib/getopt.c:570-571 | optind stops at the first element that is not a non-option, and all before it count as skipped |
| `Getopt.Scanner.GatherOrdinary` | evilos/lib/getopt.c:557-573 | afterwards the non-options skipped so far, in order, end right at optind |
| `Getopt.Scanner.PassDashes` | evilos/lib/getopt.c:580-587 | "--" joins the options, in front of the skipped non-options |
| `Getopt.Scanner.EndOptions` | evilos/lib/getopt.c:580-591 | everything behind "--" joins the non-options, and the scan is at its end |
| `Getopt.Scanner.BackUp` | evilos/lib/getopt.c:593-603 | at the end the vector is options in order, then non-options in order, with optind at the first of these |
| `Getopt.Scanner.Stops` | evilos/lib/getopt.c:550-603 | when the scan ends, and that it then leaves the finished vector; otherwise the invariant and the next element are kept |
| `Getopt.Scanner.Advance` | evilos/lib/getopt.c:548-620 | in each ordering: stop, hand out a non-option, or enter the next option element of the original vector |
| `Getopt.Scanner.TakeArgument` | evilos/lib/getopt.c:921-966 | where the argument comes from: rest of the element, next element, or missing, which alone sets optopt |
| `Getopt.Scanner.ScanLetter` | evilos/lib/getopt.c:774-968 | on the permuted vector the letter is read as it would be on the original one; optopt takes the letter if and only if it is unknown or lacks its argument |
| `Getopt.Scanner.DecodeLetter` | evilos/lib/getopt.c:774-968 | the same, keeping the invariant and the marks of options and arguments |
| `Getopt.Scanner.Next` | evilos/lib/getopt.c:534-969 | one call does what reading the unpermuted vector at optind calls for, and keeps the invariant or finishes |
| `Getopt.Scanner.Initialize` | evilos/lib/getopt.c:389-453 | the ordering that the prefix and POSIXLY_CORRECT ask for, and the invariant |
| `Getopt.Scanner.Getopt` | evilos/lib/getopt.c:511-981 | a call from any reachable state; only an initialising call strips the prefix |
| `Getopt.RequiredArgumentTaken` | evilos/lib/getopt.c:935-966 | for a letter followed by one ':' in the option string: the text behind it, else the next element, as it is, else its argument is missing; and where the scan goes on |
| `Getopt.OptionalArgumentTaken` | evilos/lib/getopt.c:921-934 | for a letter followed by two: the text behind it or none, and never the next element |
| `Getopt.NoArgumentTaken` | evilos/lib/getopt.c:774-781 | for a letter without ':': no argument, and the next letter or element follows |
| `Getopt.UnknownLetter` | evilos/lib/getopt.c:782-796 | any other letter, and ':' itself, is answered with '?' and put into optopt |
| `Getopt.ParsePermuted` | evilos/lib/getopt.c:546-620 | each permuting call reports the head of the options still to be reported, and stops when none is left |
| `Getopt.ParseInOrder` | evilos/lib/getopt.c:608-614 | each call that does not permute reports the head of what is still to be reported, which for REQUIRE_ORDER ends at a non-option |
| `Getopt.RunPermute` | evilos/lib/getopt.c:94-97 | for any vector and option string, calling until -1 ends, reports exactly the options in order, and leaves the stable partition with optind at the first non-option |
| `Getopt.RunExample` | evilos/lib/getopt.c:971-981 | a permuting run over ten elements, written out: events, vector and optind |
| `Getopt.PartitionedPermutes` | evilos/lib/getopt.c:94-97 | the partition is a permutation of the vector and keeps what stands before the start |
| `Getopt.RunInOrder` | evilos/lib/getopt.c:608-614 | for any vector and any option string that does not ask for permuting, calling until -1 ends, leaves the vector alone, and reports in order everything, or the options up to the first non-option with optind there |
| `Getopt.RunOthers` | evilos/lib/getopt.c:404-417 | a strict and an in-order run, written out |
| `Getopt.LetterMisread` | evilos/lib/getopt.c:774-790 | for one letter, the strings with and without the prefix give the same answer if and only if the letter is not misread |
| `Getopt.PrefixChanges` | evilos/lib/getopt.c:407-416 | a prefix left in the option string changes the options reported if and only if the scan comes to a letter that is misread |
| `Getopt.PrefixedRunAgrees` | evilos/lib/getopt.c:389-453 | a whole run behind '-' or '+' reports the options that the string behind the prefix asks for if and only if no call after the first misreads a letter |
| `Getopt.DashTakenForLetter` | evilos/lib/getopt.c:407-411 | an argument vector, and the two different lists of options it yields |
| `Getopt.SilenceLost` | evilos/lib/getopt.c:956-959 | vectors on which the silent mode and the '+' prefix go wrong |
| `Getopt.CompareOrderings` | evilos/lib/getopt.c:173-178 | actual runs on the same arguments: permuting against '-', and '+' against POSIXLY_CORRECT, agree if and only if no later call misreads a letter |
| `Tftp.Client.SendRrq` | evilos/tools/grub-vbe-patch/netboot/fsys_tftp.c:258-299 | a new session starts with an empty window at position 0 and the default block size |
| `Tftp.Client.TakeOptions` | evilos/tools/grub-vbe-patch/netboot/fsys_tftp.c:132-180 | the options are taken in turn up to the first refused; an accepted acknowledgement sets a block size within the server's, and the file's own size |
| `Tftp.Client.Store` | evilos/tools/grub-vbe-patch/netboot/fsys_tftp.c:246-251 | the payload is appended, and a short one means the end |
| `Tftp.Client.TakeData` | evilos/tools/grub-vbe-patch/netboot/fsys_tftp.c:189-206 | only the next block in sequence extends the window; any other number, or an oversized packet, changes nothing stored |
| `Tftp.Client.TakeOack` | evilos/tools/grub-vbe-patch/netboot/fsys_tftp.c:112-188 | options count only before the first block and never disturb the window |
| `Tftp.Client.AckOptions` | evilos/tools/grub-vbe-patch/netboot/fsys_tftp.c:185-235 | accepted options are acknowledged as block 0, and nothing is stored |
| `Tftp.Client.Accept` | evilos/tools/grub-vbe-patch/netboot/fsys_tftp.c:237-251 | the stored bytes stay a slice of the file ending after the accepted block |
| `Tftp.Client.Acknowledge` | evilos/tools/grub-vbe-patch/netboot/fsys_tftp.c:211-251 | whatever number came in, exactly one acknowledgement goes out, with the number of the last block stored, and acknowledgements rise one by one |
| `Tftp.Client.HandlePacket` | evilos/tools/grub-vbe-patch/netboot/fsys_tftp.c:103-250 | every authentic packet, in any order, keeps the reception invariant, with exactly the progress that the decision on values makes |
| `Tftp.Client.ReceiveOne` | evilos/tools/grub-vbe-patch/netboot/fsys_tftp.c:57-252 | the same for every event, timeouts and aborts included |
| `Tftp.Client.BufFill` | evilos/tools/grub-vbe-patch/netboot/fsys_tftp.c:50-255 | for any trace, the window stays a slice of the file with its start unmoved, the end flag is set only after the short last block, and progress, rest of the trace and result are those of the fill on values |
| `Tftp.ServedStep` | evilos/tools/grub-vbe-patch/netboot/fsys_tftp.c:103-251 | a packet of a trace that supplies the missing blocks is taken, and the rest still supplies what is missing |
| `Tftp.ServedFill` | evilos/tools/grub-vbe-patch/netboot/fsys_tftp.c:50-255 | on a trace that brings the missing blocks in order among any repeated or reordered data packets, a fill succeeds and ends with the buffer full or at the end of the file |
| `Tftp.InOrderSupplies` | evilos/tools/grub-vbe-patch/netboot/fsys_tftp.c:57-252 | the blocks one after the other are such a trace |
| `Tftp.OptionsAccepted` | evilos/tools/grub-vbe-patch/netboot/fsys_tftp.c:132-180 | options are taken exactly when each is a block size of at least 512 or a readable size, and the last of each kind counts |
| `Tftp.FillEnds` | evilos/tools/grub-vbe-patch/netboot/fsys_tftp.c:68-209 | which events end a fill at once, and with which result |
| `Tftp.FillIgnores` | evilos/tools/grub-vbe-patch/netboot/fsys_tftp.c:112-213 | which packets a fill passes over without a trace |
| `Tftp.TimeoutsSurvived` | evilos/tools/grub-vbe-patch/netboot/fsys_tftp.c:73-84 | before anything has come, exactly 20 timeouts are survived |
| `Tftp.TimeoutsFatal` | evilos/tools/grub-vbe-patch/netboot/fsys_tftp.c:73-100 | a timeout after a block, or one after which the request cannot be sent again, ends the fill |
| `Tftp.BufferRoom` | evilos/tools/grub-vbe-patch/netboot/fsys_tftp.c:57 | how many blocks the buffer takes |
| `Tftp.AgreedOptions` | evilos/tools/grub-vbe-patch/netboot/fsys_tftp.c:132-180 | options that the server may agree to are accepted and leave the client with its block size |
| `Tftp.AbortLeaves` | evilos/tools/grub-vbe-patch/netboot/fsys_tftp.c:57-230 | what an aborting fill takes from any trace: timeouts survived, oversized packets and late option acknowledgements, and the event after them |
| `Tftp.Client.WindowSlice` | evilos/tools/grub-vbe-patch/netboot/fsys_tftp.c:366-376 | any stretch of the window is that stretch of the file |
| `Tftp.Client.CopyBytes` | evilos/tools/grub-vbe-patch/netboot/fsys_tftp.c:368-369 | the caller's memory holds what it held, followed by the bytes copied |
| `Tftp.Client.Slide` | evilos/tools/grub-vbe-patch/netboot/fsys_tftp.c:377-382 | moving half a buffer down keeps the window aligned with the saved position and its end where it was |
| `Tftp.Client.MoveHalf` | evilos/tools/grub-vbe-patch/netboot/fsys_tftp.c:379 | the bytes above the middle of the buffer come to its front |
| `Tftp.Client.CopyOut` | evilos/tools/grub-vbe-patch/netboot/fsys_tftp.c:366-382 | the bytes delivered are the next bytes of the file |
| `Tftp.Client.Deliver` | evilos/tools/grub-vbe-patch/netboot/fsys_tftp.c:358-390 | bytes from the window are the file's, and when there are none the window is emptied and its start moved |
| `Tftp.Client.Reopen` | evilos/tools/grub-vbe-patch/netboot/fsys_tftp.c:328-355 | a position before the window starts a new session in a valid state, on what the abort leaves of the trace |
| `Tftp.Client.MoveBack` | evilos/tools/grub-vbe-patch/netboot/fsys_tftp.c:328-355 | moving back is safe when a new session is served, at once at the end of the file, else behind one more data packet |
| `Tftp.Client.ReadOnce` | evilos/tools/grub-vbe-patch/netboot/fsys_tftp.c:359-403 | one turn delivers the next bytes of the file, or uses up some of the trace, or fails |
| `Tftp.Client.ReadForward` | evilos/tools/grub-vbe-patch/netboot/fsys_tftp.c:357-406 | the same as for the whole read, for a position that needs no reopening |
| `Tftp.Client.LockstepRefilled` | evilos/tools/grub-vbe-patch/netboot/fsys_tftp.c:391-403 | with the missing blocks on their way, a refill leaves bytes in the window as long as the file has some |
| `Tftp.Client.Discard` | evilos/tools/grub-vbe-patch/netboot/fsys_tftp.c:464-467 | an emptied window starts where it ended |
| `Tftp.Client.Refill` | evilos/tools/grub-vbe-patch/netboot/fsys_tftp.c:391-403 | progress on the trace or failure, and no failure inside the file while the missing blocks are on their way |
| `Tftp.Client.Read` | evilos/tools/grub-vbe-patch/netboot/fsys_tftp.c:318-407 | for any position, size and trace it ends; a nonzero result equals the size, the bytes are the file's from the old position on; inside the file it succeeds whenever the missing blocks are on their way, or, for a position that needs reopening, those of the new session are, behind what the abort takes |
| `Tftp.Client.CountFile` | evilos/tools/grub-vbe-patch/netboot/fsys_tftp.c:455-478 | reading and discarding everything counts the file's length, plus its length again if it is announced meanwhile |
| `Tftp.FillSize` | evilos/tools/grub-vbe-patch/netboot/fsys_tftp.c:144-156 | only the file's own size is announced, and only before the first block |
| `Tftp.SizeApart` | evilos/tools/grub-vbe-patch/netboot/fsys_tftp.c:144-156 | the size known plays no part in what a fill does, and an accepted announcement replaces it |
| `Tftp.CountStep` | evilos/tools/grub-vbe-patch/netboot/fsys_tftp.c:459-472 | one turn of the count, and whether a size was announced in it |
| `Tftp.KnownKindsAreInTime` | evilos/tools/grub-vbe-patch/netboot/fsys_tftp.c:207-209 | without packets of another opcode no announcement comes too late |
| `Tftp.ToldFill` | evilos/tools/grub-vbe-patch/netboot/fsys_tftp.c:112-188 | on a trace that serves the session, the fill hears a size if and only if one is announced before the first block |
| `Tftp.ServedCount` | evilos/tools/grub-vbe-patch/netboot/fsys_tftp.c:459-475 | counting goes through on such a trace, and uses up exactly what brings the blocks |
| `Tftp.DirSucceeds` | evilos/tools/grub-vbe-patch/netboot/fsys_tftp.c:411-485 | on a trace that serves a session in which the size is announced, or two sessions, tftp_dir succeeds and no size comes too late |
| `Tftp.FillHeard` | evilos/tools/grub-vbe-patch/netboot/fsys_tftp.c:103-209 | before the first block, a fill hears a size if and only if one comes before any unknown packet |
| `Tftp.CountHeard` | evilos/tools/grub-vbe-patch/netboot/fsys_tftp.c:459-472 | the count hears a size if and only if one comes before the first block |
| `Tftp.CountAfterFile` | evilos/tools/grub-vbe-patch/netboot/fsys_tftp.c:459-475 | what the count leaves of the trace is what stands behind the short last block |
| `Tftp.LateSizeOnPackets` | evilos/tools/grub-vbe-patch/netboot/fsys_tftp.c:411-485 | a size is too late if and only if an unknown packet, and after it an accepted size, come before the first block, and none comes at once behind the file |
| `Tftp.UnknownPacketDoublesSize` | evilos/tools/grub-vbe-patch/netboot/fsys_tftp.c:411-485 | a trace on which a file of one byte is found to have two |
| `Tftp.Client.Dir` | evilos/tools/grub-vbe-patch/netboot/fsys_tftp.c:411-485 | on success the file is open at position 0, and the size is twice the file's if it was announced too late, else the file's; result and size are those of the model on values; on a trace that serves it, it succeeds with the file's size |
| `Calendar.BreakDay` | evilos/lib/time.c:114-127 | the year, month, day and day of the year of a day number |
| `Calendar.GmTime` | evilos/lib/time.c:101-131 | for every 32-bit time, canonical fields denoting exactly that second, read as unsigned, with matching yday and wday |
| `Calendar.LocalTime` | evilos/lib/time.c:133-139 | the same for the difference of time and zone as a word |
| `Calendar.CivilUnique` | evilos/lib/time.c:101-131 | two canonical tuples denoting the same second are equal |
| `Calendar.Carry` | evilos/lib/time.c:160-187 | a truncating division with its correction is a floored one |
| `Calendar.NormaliseClock` | evilos/lib/time.c:160-180 | clock fields of either sign come into range without changing the time they denote together with the days carried |
| `Calendar.MonthCarry` | evilos/lib/time.c:181-187 | carrying years out of a month number names the same month |
| `Calendar.WalkMonths` | evilos/lib/time.c:189-206 | the two day loops end inside a month, on the day they started from |
| `Calendar.Normalise` | evilos/lib/time.c:160-207 | for arbitrary fields of either sign the result is canonical and denotes the same second |
| `Calendar.ClosedFormIsSum` | evilos/lib/time.c:222-226 | the quotients and corrections equal the sum of the year lengths from 1970 |
| `Calendar.MonthStartClosed` | evilos/lib/time.c:95-99 | the days before each month in closed form, five months to 153 days from March on |
| `Calendar.MonthLengthClosed` | evilos/lib/time.c:95-99 | and the length of each month |
| `Calendar.InstantSteps` | evilos/lib/time.c:160-187 | what one more second, minute, hour, day or twelve months are worth, for any fields |
| `Calendar.Dated` | evilos/lib/time.c:219-244 | the second of a date from closed forms alone |
| `Calendar.KnownDates` | evilos/lib/time.c:101-131 | dates and the seconds they denote, from 1970 to 2100 |
| `Calendar.KnownMonths` | evilos/lib/time.c:95-99 | a day in each month of a common and of a leap year, and the seconds they denote |
| `Calendar.KnownWeekdays` | evilos/lib/time.c:113 | the weekday of the first day, how weekdays follow each other, and one known Sunday |
| `Calendar.DaysSinceEpoch` | evilos/lib/time.c:219-226 | the day count, and that the early guards fire only past the end of time_t |
| `Calendar.GuardsFireLate` | evilos/lib/time.c:221-223 | a year that trips an early guard starts past the end of time_t |
| `Calendar.NegativeIffBeforeEpoch` | evilos/lib/time.c:208-209 | a canonical date denotes a negative second if and only if its year is before 1970 |
| `Calendar.DayOfYear` | evilos/lib/time.c:228-234 | days since 1 January |
| `Calendar.ToTimeT` | evilos/lib/time.c:241-263 | the overflow checks together are exactly the range checks on the local, the shifted and the corrected second |
| `Calendar.MkTime` | evilos/lib/time.c:151-264 | the normalised fields, yday and wday, and exactly when the result is -1 |
| `Calendar.BreakAndRemake` | evilos/lib/time.c:133-264 | over all 32-bit times and zones, mktime of localtime_r gives the time back if and only if it and the shifted time are in range, or it is -1; every field is left as it was |
| `Calendar.RemakeAndBreak` | evilos/lib/time.c:101-264 | gmtime_r of mktime rebuilds the normalised fields |
| `Calendar.RemakeSummerTime` | evilos/lib/time.c:252-260 | with the daylight flag set, the bias comes off, and what it makes negative is refused |
| `Calendar.WeekTests` | evilos/lib/time.c:475-492 | the two tests decide whether the week's Thursday falls in the next year, this one or the last |
| `Calendar.IsoWeek` | evilos/lib/time.c:466-493 | at most two rounds, and the year and week of section 2.2.10 of ISO 8601:2004 |
| `Calendar.KnownWeeks` | evilos/lib/time.c:466-493 | days at year ends and the ISO years and weeks they are in |
| `Calendar.IsoWeekUnique` | evilos/lib/time.c:457-499 | that year and week are unique, and the week lies in 1..53 |
| `Scheduler.ScanChooses` | evilos/task.c:95-102 | the scan finds the last of the runnable tasks of least priority number, if any reaches the bound |
| `Scheduler.ScheduleLeast` | evilos/task.c:89-113 | wherever scheduler may be called, a task runs afterwards, one of least priority number, if and only if the current one was running or another may take over from TASK0; nobody is woken and no priority changes |
| `Scheduler.AgingSeparates` | evilos/timer.c:21-30 | relative to a common shift of 10, a tick sets the running task back by at least 29 and moves no other |
| `Scheduler.TickInNumbers` | evilos/timer.c:21-30 | a tick raises a running task's number by exactly 20, or puts it on -11 from -30 or below; it leaves a sleeper's and lowers any other by 10 |
| `Scheduler.PinnedTick` | evilos/timer.c:23-24 | a tick in which the running task is pinned, written out |
| `Scheduler.TickLeast` | evilos/timer.c:16-34 | the same for a tick, in every state a system can be in |
| `Scheduler.TickShortens` | evilos/timer.c:16-34 | a tick never lengthens a ready task's wait, and shortens it when a running task was not behind |
| `Scheduler.ReadyTaskRuns` | evilos/timer.c:16-34 | the number of ticks until a ready task runs, bounded by the priority differences |
| `Scheduler.NobodyRuns` | evilos/task.c:89-113 | when TASK0 stands in unmarked and nobody may take over, no task ever runs |
| `Scheduler.EveryReadyTaskRuns` | evilos/timer.c:16-34 | in every state a system can be in, a ready task comes to run if and only if some task is running or may take over from TASK0, and then within the bound |
| `Scheduler.Kernel.NewTask` | evilos/task.c:115-129 | the new task stands right behind the current one, runnable, and the list is otherwise the same |
| `Scheduler.Kernel.Pick` | evilos/task.c:95-102 | following the list makes the scan's choice |
| `Scheduler.Kernel.SwitchTo` | evilos/task.c:108-110 | the two tasks change states and the processor changes hands |
| `Scheduler.Kernel.Dispatch` | evilos/task.c:89-113 | on the linked list, the scheduling decision of the model |
| `Scheduler.Kernel.Age` | evilos/timer.c:21-30 | every task in the list ages once |
| `Scheduler.Kernel.DoTimer` | evilos/timer.c:16-34 | on the linked list, the tick of the model |
| `Semaphores.WaitKeeps` | evilos/sem.c:95-113 | a wait keeps count, queue, task states and holder of the processor in agreement |
| `Semaphores.LegalWaitFreesNothing` | evilos/sem.c:44-46 | a legal wait never frees a task structure |
| `Semaphores.PostKeeps` | evilos/sem.c:114-128 | a post keeps them in agreement and wakes the longest waiting task |
| `Semaphores.TickKeeps` | evilos/timer.c:16-34 | a tick keeps them in agreement |
| `Semaphores.RunKeeps` | evilos/sem.c:18-128 | over every interleaving: count is initial + posts - waits, queue length max(0, -count), so that min(waits, initial + posts) callers are not queued; the sleepers are exactly the queued tasks, each queued once; wake-ups follow the sleeps; at most one task runs |
| `Semaphores.StepMovesUp` | evilos/sem.c:18-128 | only a post moves a waiting task up in its queue, by one, and wakes the first |
| `Semaphores.WokenInTurn` | evilos/sem.c:63-128 | over any run, the (p + 1)st post wakes the task that stood at position p |
| `Semaphores.WaiterRuns` | evilos/sem.c:63-128 | that task then comes to run if and only if some task is running or may take over from TASK0, and within the scheduler's bound |
| `Semaphores.InitialInv` | evilos/sem.c:89-93 | fresh semaphores satisfy the invariant |
| `Semaphores.BlockedWaitRuns` | evilos/task.c:89-113 | after a blocking wait a task is RUNNING, and the waiter has lost the processor, if and only if another runnable task than TASK0 has a priority number no larger than TASK0's |
| `Semaphores.HolderOk` | evilos/task.c:103-112 | whenever a decision leaves a task running, the jump has given it the processor |
| `Semaphores.WaitersHeldBack` | evilos/sem.c:95-113 | over a whole run no queued task ever executes if and only if every blocking wait finds a runnable task that may take over from TASK0 |
| `Semaphores.StarvingRun` | evilos/task.c:89-113 | a legal run from fresh semaphores after which the waiter still has the processor and a ready task never runs |
| `Semaphores.Task0MustNotWait` | evilos/sem.c:32-52 | if TASK0 blocks it is queued, and still asleep if and only if no other runnable task has a priority number as small |
| `Semaphores.Task0Waits` | evilos/sem.c:32-52 | TASK0 waiting on a used-up semaphore: queued and runnable at once, and freed when it waits there again |
| `Semaphores.TaskQueue.constructor` | evilos/include/queue.h:310-313 | an empty queue |
| `Semaphores.TaskQueue.InsertTail` | evilos/include/queue.h:321-325 | the linked items become the old ones followed by the new one |
| `Semaphores.TaskQueue.RemoveHead` | evilos/include/queue.h:333-336 | the linked items lose their first |
| `Semaphores.Semaphore.constructor` | evilos/sem.c:89-93 | the given count and an empty queue |
| `Semaphores.Semaphore.Enqueue` | evilos/sem.c:37-49 | the current task joins the queue's end unless it is its head, when its structure is handed to kfree |
| `Semaphores.Semaphore.Append` | evilos/sem.c:42-47 | the current task joins the queue's end |
| `Semaphores.Semaphore.SleepOn` | evilos/task.c:156-171 | the current task sleeps, unless it is TASK0 |
| `Semaphores.Semaphore.GoToSleep` | evilos/sem.c:37-50 | asleep and queued, and no other task touched |
| `Semaphores.Semaphore.SleepOnQueue` | evilos/sem.c:18-59 | a sleeping caller changes nothing; any other is put to sleep, queued, and the processor handed on |
| `Semaphores.Semaphore.WakeUp` | evilos/task.c:172-178 | exactly one task becomes runnable |
| `Semaphores.Semaphore.WakeUpQueue` | evilos/sem.c:63-87 | the head becomes runnable and leaves the queue |
| `Semaphores.Semaphore.DropHead` | evilos/sem.c:83 | the queue loses its first task |
| `Semaphores.Semaphore.Wait` | evilos/sem.c:95-113 | on the linked structures, the wait of the model, and exactly when it frees a task structure |
| `Semaphores.Semaphore.Post` | evilos/sem.c:114-128 | on the linked structures, the post of the model |
| `NumberText.DigitLoop` | evilos/lib/vsprintf.c:69-73 | the digits of the word, least significant first, never more than 32 |
| `NumberText.Emit` | evilos/lib/vsprintf.c:77-98 | exactly the positive part of the count is written, and where the count ends |
| `NumberText.EmitHead` | evilos/lib/vsprintf.c:80-89 | the sign and the prefix of the base |
| `NumberText.EmitNumber` | evilos/lib/vsprintf.c:93-96 | zeros up to the precision, then the digits in reading order |
| `NumberText.EmitDigits` | evilos/lib/vsprintf.c:95-96 | the digits found least significant first come out in reading order |
| `NumberText.EmitField` | evilos/lib/vsprintf.c:76-99 | of the three padding loops exactly the one for the flags writes anything |
| `NumberText.TakeSign` | evilos/lib/vsprintf.c:56-68 | sign, magnitude and the width left, INT_MIN included |
| `NumberText.Number` | evilos/lib/vsprintf.c:43-100 | the whole field for any width, precision, base and flags, and null for a bad base |
| `NumberText.UnpaddedField` | evilos/lib/vsprintf.c:56-61 | a field without room to spare: sign, zeros and digits, with no sign character that was not asked for |
| `NumberText.SpecialField` | evilos/lib/vsprintf.c:82-89 | what SPECIAL puts between sign and number |
| `NumberText.PaddedField` | evilos/lib/vsprintf.c:76-98 | the width of a field is the maximum of what is asked for and what is printed, and where the padding goes |
| `NumberText.DigitsInCase` | evilos/lib/vsprintf.c:47-73 | digits come from the table for their case, without leading zeros |
| `NumberText.PrintedPositive` | evilos/lib/vsprintf.c:43-100 | numbers printed with and without sign flags, written out |
| `NumberText.PrintedNegative` | evilos/lib/vsprintf.c:56-58 | negative numbers, INT_MIN included, written out |
| `NumberText.PrintedPrecision` | evilos/lib/vsprintf.c:74-75 | a precision, and -1 as a word, written out |
| `NumberText.PrintedPrefix` | evilos/lib/vsprintf.c:82-89 | prefixes and padding, written out |
| `NumberText.WrapStep` | evilos/lib/sscanf.c:30 | reducing modulo the word at every digit is reducing once at the end |
| `NumberText.ReadDigits` | evilos/lib/sscanf.c:28-32 | the value of the longest run of digits, modulo the word, and where the run ends |
| `NumberText.StrToUL` | evilos/lib/sscanf.c:13-36 | the same with the base announced by the text when it is 0 |
| `NumberText.StrToL` | evilos/lib/sscanf.c:44-49 | the signed reading, and the end of the text read |
| `NumberText.ScanInt` | evilos/lib/sscanf.c:235-298 | blanks skipped, then the reading and where scanning goes on, or nothing where no number starts |
| `NumberText.WhiteSkipped` | evilos/lib/sscanf.c:235-236 | exactly six characters are white space, and any of them in front changes nothing |
| `NumberText.StartsAtDigit` | evilos/lib/sscanf.c:238-247 | a number is read exactly from a digit of the base on, or from a '-' in front of one |
| `NumberText.ReadsUpTo` | evilos/lib/sscanf.c:28-35 | reading takes the digits of the base, and goes on with what follows them |
| `NumberText.ReadAnyBase` | evilos/lib/sscanf.c:17-27 | what base 0 reads behind 0x, behind 0, and otherwise, modulo the word |
| `NumberText.NoHexDigit` | evilos/lib/sscanf.c:22 | 0x without a hexadecimal digit is the number 0, and x is left |
| `NumberText.TwoNumbers` | evilos/lib/sscanf.c:235-298 | two numbers printed with a blank between them are read one after the other |
| `NumberText.DigitsValue` | evilos/lib/vsprintf.c:69-73 | the digits printed are digits of the base and denote the number |
| `NumberText.SignedRoundTrip` | evilos/lib/vsprintf.c:43-100 | for every 32-bit number, width, precision and flags, %d is read back as the number if and only if PLUS has not put a '+' in front |
| `NumberText.UnsignedRoundTrip` | evilos/lib/vsprintf.c:43-100 | for bases 8, 10 and 16 the word is read back if and only if there is no PLUS and no "0x" in front of a nonzero number |
| `NumberText.SelfDescribing` | evilos/lib/sscanf.c:17-27 | read with base 0, a SPECIAL octal or hexadecimal field gives the number back if and only if there is no PLUS and the prefix is not "0X" or the number is 0 |
| `NumberText.PrintAndScan` | evilos/lib/sscanf.c:235-293 | the signed round trip through the two procedures themselves |
| `Allocator.SplitTotal` | evilos/mm.c:85-92 | cutting a region in two keeps the total size |
| `Allocator.SplitManages` | evilos/mm.c:85-92 | and the bytes covered |
| `Allocator.SplitPartition` | evilos/mm.c:85-92 | and keeps regions non-empty and disjoint |
| `Allocator.MallocKeeps` | evilos/mm.c:75-109 | an allocation keeps the partition, the bytes managed, their total, the reserved regions, and used = live |
| `Allocator.FreeKeeps` | evilos/mm.c:110-119 | a free of a live allocation keeps the same |
| `Allocator.RunKeeps` | evilos/mm.c:75-119 | so does every run of allocations and frees |
| `Allocator.LiveApart` | evilos/mm.c:75-119 | allocations held at the same time never overlap |
| `Allocator.NullMeans` | evilos/mm.c:75-109 | null is returned if and only if no free region is large enough, or the first that is fits exactly and starts at 0 |
| `Allocator.NullForExactFit` | evilos/mm.c:79-81 | a region at 0 that fits exactly: used, live, and null to the caller |
| `Allocator.FrontLinks` | evilos/mm.c:62-68 | linking an entry in front of the list |
| `Allocator.SplitLinks` | evilos/mm.c:85-92 | linking the cut-off entry behind the one that shrank: still every entry once |
| `Allocator.Memory.AddRegion` | evilos/mm.c:54-71 | a memory map entry joins the front of a list that visits every table entry once |
| `Allocator.Memory.Find` | evilos/mm.c:76-85 | following the list finds the first free region that is large enough |
| `Allocator.Memory.Malloc` | evilos/mm.c:75-109 | on the linked table, the allocation of the model, with a full table too unless a split is needed |
| `Allocator.Memory.Mark` | evilos/mm.c:79-81 | one region changes its kind |
| `Allocator.Memory.SplitOff` | evilos/mm.c:85-92 | the end of a region becomes a used region of its own, listed behind it |
| `Allocator.Memory.Free` | evilos/mm.c:110-119 | on the linked table, the free of the model |
| `Allocator.Memory.Locate` | evilos/mm.c:111-117 | the first region that starts at the address |
| `Allocator.Memory.GetSize` | evilos/mm.c:121-128 | its size; an address that starts no region is where the function falls off its end |
| `Pipes.SlotsDiffer` | evilos/eeos_pipe.c:130-131 | positions less than a ring apart use different places in the ring |
| `Pipes.ByteQueue.Open` | evilos/eeos_pipe.c:89-103 | an empty queue with both ends open and a ring of its own |
| `Pipes.ByteQueue.CopyOut` | evilos/eeos_pipe.c:130-133 | the oldest buffered bytes, as many as there are and are wanted |
| `Pipes.ByteQueue.Consume` | evilos/eeos_pipe.c:134-135 | the bytes taken leave the front of the queue |
| `Pipes.ByteQueue.Read` | evilos/eeos_pipe.c:129-136 | delivered bytes are the front of what was buffered, and the rest stays in order |
| `Pipes.WindowGrows` | evilos/eeos_pipe.c:165-168 | writing one slot ahead of a ring that is not full appends to what is buffered |
| `Pipes.ByteQueue.CopyIn` | evilos/eeos_pipe.c:164-172 | as many bytes as fit are appended, across the end of the ring |
| `Pipes.ByteQueue.Write` | evilos/eeos_pipe.c:163-174 | accepted bytes join the back, never beyond the capacity |
| `Pipes.ByteQueue.Release` | evilos/eeos_pipe.c:199-204 | the slot is vacant again |
| `Pipes.PipeMgr.constructor` | evilos/eeos_pipe.c:42 | as static memory stands: eight separate vacant slots, and the guard of init set |
| `Pipes.PipeMgr.Init` | evilos/eeos_pipe.c:46-60 | fails and changes nothing while the guard is set, which nothing ever clears |
| `Pipes.PipeMgr.FindFree` | evilos/eeos_pipe.c:82-85 | the first vacant slot |
| `Pipes.PipeMgr.Create` | evilos/eeos_pipe.c:80-109 | the create of the model: the first vacant slot becomes an empty pipe with two descriptors, or -1 |
| `Pipes.PipeMgr.Read` | evilos/eeos_pipe.c:111-146 | the read of the model: the front of what that pipe holds, nothing for a bad or closed descriptor, and no other pipe touched |
| `Pipes.PipeMgr.Write` | evilos/eeos_pipe.c:148-181 | the write of the model: as much of the data as there is room for |
| `Pipes.PipeMgr.Close` | evilos/eeos_pipe.c:183-206 | the close of the model, and -1 exactly for a descriptor that is not open |
| `Pipes.CallIsFifo` | evilos/eeos_pipe.c:111-206 | one call on a pipe: what was buffered and what comes in is what goes out and what is buffered then; other pipes are not touched |
| `Pipes.RunIsFifo` | evilos/eeos_pipe.c:80-206 | over any run of calls on all pipes: the same for all bytes in and out of a pipe that stays open, which never holds more than its ring |
| `Pipes.DeliveredIsPrefix` | evilos/eeos_pipe.c:80-206 | from its creation on, the bytes out of a pipe are a prefix of the bytes in |
| `Pipes.Descriptors` | evilos/eeos_pipe.c:105-106 | which descriptors belong to a slot, and which to none |
| `Pipes.ReadAmount` | evilos/eeos_pipe.c:129-136 | a read at an open end delivers min(count, bytes held) from the front |
| `Pipes.WriteAmount` | evilos/eeos_pipe.c:163-174 | a write at an open end is accepted up to 4096 bytes held |
| `Pipes.WrongEnd` | evilos/eeos_pipe.c:119-156 | a read at a write end, or a write at a read end, is nothing |
| `Pipes.WrittenIsRead` | evilos/eeos_pipe.c:111-181 | what is written to an empty pipe comes out of the next large enough read, whole and in order |
| `Pipes.WriteThenRead` | evilos/eeos_pipe.c:80-181 | the same through the calls, on a fresh pipe |
| `Pipes.FreedByLastClose` | evilos/eeos_pipe.c:199-204 | a slot becomes vacant if and only if its last open end is closed |

## Left out

- C integers are unbounded but for numbers as text and the times of gmtime_r and localtime_r: no overflow of priorities, pipe positions, tm fields or pixel coordinates.
- TFTP: timing, UDP and ARP, packet bytes, the draining of old packets and the CONGESTED build; the server sends at most 65535 blocks (numbers do not wrap) of one size between 512 and 1432 bytes.
- Tftp.Client.Read: success is claimed for traces in which the missing blocks come in order among data packets and late option acknowledgements; a timeout before the first block may be survived too, but is not counted among these.
- Canvas: what the flip callback does with the pixels it is called on (it is taken to leave the buffer alone), canvas_release and a failing realloc; `dirty` is 0 or DIRTY; rows are counted in pixels and the buffer holds whole blocks, as pitch and block loops require.
- Getopt: long options and `-W;`, error texts, the `_LIBC` flag string, optind changed by the caller in the middle of a run, and letters whose codes are 1 or -1; the environment lookup is a parameter.
- Calendar: strftime apart from ISO weeks, and the printing of %V, %G and %g; dstbias is taken to be non-negative, as line 257 does.
- Scheduler: TSS, LDT and the jump itself (a switch is a change of `current`, of two states and of the holder of the processor), insert_task and remove_task.
- Scheduler.EveryReadyTaskRuns: nobody blocks or wakes and the set of tasks is fixed during the ticks counted.
- Semaphores: the mutex (operations are atomic), a failing kmalloc and the printing functions; waits by a task that is not RUNNING, such as one that escaped, are not followed further; what becomes of a freed task structure.
- Allocator: multiboot parsing, printing; frees of addresses not held are modelled but no promise is made about runs with them.
- Allocator.Memory.Malloc: does not cover a split with a full table, the branch marked "fix me".
- Pipes: the semaphore per descriptor, the mutex, select and isset, a failing allocation, and deinit.
- NumberText: format strings, `*` widths, %s, %c and %p, field widths when scanning, and 64-bit readers; the text ends where the string does.
- NumberText.ScanInt: only the conversion without qualifier; h, L and z store the same reading, or a 64-bit one, in another width.
- Drivers, assembly, paging, keyboard, mouse and screen output.
