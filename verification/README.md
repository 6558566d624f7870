# NeForce: a Dafny model of its terminal, logging and framing cores

The project models five parts of the NeForce C++ library and proves properties of the model.
Every modelled loop is a method proved against a function, every object whose methods change it
is a class, and the results are lemmas about those functions.

* **Frame diff and repaint.** `ScreenDiff` is `screen::to_string` as a function from two frames to
  terminal operations; `ScreenLoops` proves that the loops write it byte for byte; `Terminal` is a
  terminal with a grid, wide glyphs, a pending wrap and a rendition (CUP as in section 8.3.21 and
  SGR as in section 8.3.117 of ECMA-48); `ScreenRefinement` and `ScreenTheorem` prove that the bytes
  turn the old picture into the new one. `Palettes` has the colours a terminal shows for the numbers
  that are written, `ScreenLinks` the hyperlinks that the written glyphs get. `Screens` is the
  buffer that is cleared and resized in place. `Reconcilers` adds invalidation, colour depth,
  resizes and repaints, and proves that every flush leaves the screen showing the frame that is kept
  for the next diff, and that no partial diff is ever on it.
* **Asynchronous logger.** `AsyncLogger` is a step relation: one step per locked region or atomic
  operation, any number of producers, drains and flushes, one controller that enables and disables.
  `LoggerConservation`, `LoggerLiveness`, `LoggerStranding`, `LoggerDelivery`, `LoggerFlush`,
  `LoggerOverrun`, `LoggerFifo` and `LoggerDrains` prove conservation, absence of stranded events
  with its exact conditions, delivery under every schedule, what a flush guarantees, which event an
  overrun loses, order, and that there is one drain. `LoggerTree` is the tree of loggers with
  inherited levels, on objects with parent and child references.
* **Terminal input.** `InputFeed` says what one byte does, `InputParsers` is the class;
  `InputInvariant` proves the invariant of all reachable states; `InputText`, `InputBatches`,
  `InputPaste`, `InputMouse`, `InputKeys`, `InputStrokes` and `InputReports` each have a keyboard or
  terminal of their own and prove that what it sends is what is delivered.
* **Image codecs.** Sixel (`Sixel`, `SixelBands`, `SixelEncoder`), Kitty graphics (`Base64`,
  `Kitty`) and PNG (`PngFilter`, `PngFile`), each against an independent reader or writer.
* **Kernels.** Scrollbar and mouse arithmetic (`Scrollbar`, `Dispatchers`), windows of long lists
  (`VirtualWindow`), the Internet checksum (`Checksum`) and SMTP dot-stuffing (`DotStuffing`).

`dafny verify dfyconfig.toml` checks everything.

## Where the code does not do what one would expect

Where a lemma is named it gives a concrete input, or the exact condition under which the code does
meet the property, or both.

* The style that `to_string` tracks starts as `cell::reset()`, whose foreground is opaque black
  (include/NeForce/tui/screen.hpp:227), while the terminal starts with its default foreground.
  Black ink written before any other foreground is therefore shown in the default colour
  (`BlackInkIsLost`), and stays so until the cell is written again or everything is repainted;
  everything else is exact (`DiffRefines`, `EveryFlushShows`).
* A repaint whose frame is empty and whose cursor is hidden writes no cursor sequence and leaves a
  visible cursor visible (`CursorLeftBehind`).
* A diff takes it for granted that no hyperlink is open, but leaves that of its last written cell
  open, so that the next frame can write plain text under it (`LinkLeaks`; `NextFrameLinks` has the
  exact condition). Link numbers are compared across frames although each frame numbers its own
  (`StaleLink`).
* A repaint erases the display before it opens the synchronized-output bracket, so that an empty
  screen can be seen (`FlushPresents`); nothing else in between ever is.
* With 256 colours greys are rounded down to the ramp, not to the nearest value (`IndexShows` has the
  exact grey), so that four greys the palette has exactly are written as darker ones
  (`PaletteRoundTrip`).
* `submit_drain` learns of a refused task only if the pool tracks tasks
  (include/NeForce/core/async/thread_pool.hpp:1089), and a stopped pool goes on accepting tasks it
  will never start, so that events can be stranded (`RefusalStrands`, `RestartStrands`).
* A flush can be acknowledged and return while an event that was logged before it was called is
  still in the hands of a drain (`AcknowledgedInFlight`; `FlushWritesAllIff` has the exact
  condition).
* A batch of input that ends inside a character loses the first part of it and types U+FFFD for
  each of its other bytes (`EuroCut`; `BatchedRoundTrip` has the exact condition).
* A drag forgets where the thumb was grabbed, so that a press on the thumb and a drag event at the
  same cell may scroll (`ThumbJumps`; `DragInPlace` has the exact condition). The painter of a
  scroll view, other than that of a virtual list, does not clamp a negative offset
  (`PaintInRangeIff`).
* A paste is given up when marker and text together pass 1 MiB before the marker is complete, so
  the limit on the text is 1 MiB less five bytes (`PasteOverflows`).
* Byte sequences that RFC 3629 forbids are not told from characters: overlong ones type the
  character they stand for, surrogates and values past U+10FFFF type U+FFFD (`SequenceIsOneKey` has
  the exact condition, `OverlongIsAccepted` the shortest input).
* A press is attributed to a scrollbar by position alone: one beside the first cell of a vertical
  bar, or below that of a horizontal one, is taken as a press on the bar, and there and on the first
  cell of a horizontal bar the drag goes across it (`PressCredited`, `BesideIsCaptured`).
* For lists with measured heights the fill loop starts at +skip although the first item starts at
  -skip, so rows at the bottom can stay empty (`GapAtTheBottom`; `MeasuredCovers` has the exact
  condition for any heights).
* Packets of more than 131074 bytes can overflow the 32-bit sum (`NeverWrapsIff`,
  `WrappedSumIsWrong`).
* Ctrl with h, i, j or m cannot be told from Backspace, Tab and Enter, and Ctrl with [ is the escape
  (`StrokeRoundTrip` has the exact condition).
* The odd last byte of a packet is added at the wrong end of its word on big-endian hosts
  (`MeetsRfc`).
* A dot after a bare line feed is doubled although RFC 5321 does not let the receiver undo it
  (`StrictRecoversUnless`), and a message that ends in CRLF gains an empty line (`DeliveredLines`).
* `encode_sixel` writes no colour definitions, so its numbers mean the intended colours only on a
  terminal whose registers already hold them (`RegistersForAll`, `DefaultRegistersFail`). It does not
  ask for transparent pixels to be left alone either, and a terminal may fill them with its
  background (`TransparencyLost`; `SurvivesIff` has the exact condition).
* A Kitty continuation chunk starts its control data with a comma (src/tui/image.cpp:374). A
  terminal that overlooks the empty field gets every image, one that does not gets those of at most
  3072 bytes (`StrictlyReceived`, `StrictLosesPixels`).

## Assumptions

* Frames are well formed: a wide glyph is followed by one continuation cell, which the renderer
  resets so that it has no text (src/tui/renderer.cpp:754-758, 933-936); other cells hold one
  printable code point whose cached width is the terminal's. `Terminal` leaves open which glyphs
  are wide and what remains of a wide glyph that loses one half. The renderer does not always keep
  to this, and its other frames are outside the results: a wide glyph that starts in the last column
  gets no continuation cell, and overwriting a wide glyph's cell with a narrow one leaves its
  continuation behind.
* The terminal keeps the default rendition between flushes and is resized only to a size the next
  flush can observe; what the renderer paints is an input (`Picture`).
* The logger's memory is sequentially consistent; there is one controller; waits may end at any
  time; sinks do not fail. The flush mutex is left out, which only adds interleavings. A parked
  producer whose condition holds is taken to be woken at some time, on which `RestIsEmpty` and
  `EveryEventIsDelivered` rely. The code sees to it by notifying
  under the queue's mutex wherever it empties the queue (src/logging/logger.cpp:189, 270, 429); the
  notification at line 167 is outside the mutex and may be missed, but the one at line 189 follows.
  A stopping pool waits for drains that have started and clears those that have not
  (src/core/async/thread_pool.cpp:1119-1188); the model lets started ones go on, which again only
  adds interleavings. Replacing the pool and its policy is one step. A pool given from outside is
  not stopped by others.
* Every painted scrollbar has a state. The painter also registers bars of scroll views without one
  (src/tui/renderer.cpp:416, 437), whose null state the mouse handler would read; they are outside
  the model. Bars that share a state are covered if they have equally much to scroll
  (`SharedOutOfRange` shows why).
* Words are 64 bits, `int` is 32 bits where a number is printed or counted; `split_params` and
  window arithmetic use mathematical integers.

## Model

| member | source | states |
|---|---|---|
| Bytes.AppendNumber | src/tui/image.cpp:34-42 | The 20-byte buffer filled from the back is large enough for every 64-bit value, and what is appended is its shortest decimal numeral |
| Bytes.DecRoundTrip | src/tui/image.cpp:34-42 | A numeral followed by anything but a digit is read back as the number, and the rest is untouched |
| Terminal.LexSerialize | src/tui/screen.cpp:105-139 | The operations a diff writes can be told apart again in its bytes: reading the serialized string gives the same operations |
| Cells.ImageInjective | include/NeForce/tui/screen.hpp:191-206 | Two cells with the same 44 bytes in memory are the same cell, so a byte comparison misses no change |
| Cells.ShapeIsDrawn | src/tui/screen.cpp:322-343 | The number written for a cursor shape selects, by the table of DECSCUSR, the form and the blinking that its name says |
| Cells.ClampIsNearest | src/tui/screen.cpp:316-319 | A cursor outside the screen is put on the nearest cell |
| Palettes.FindClosest | include/NeForce/core/utility/color.hpp:213-227 | The loop returns the level that is nearest to the value, the lower one on a tie |
| Palettes.IndexShows | include/NeForce/core/utility/color.hpp:661-690 | In the xterm palette, written out on its own, the colour under the index is nearest channel by channel for every colour that is not grey; for a grey it is the exact step of the ramp at or below it, black below 8 and white above 248 |
| Palettes.PaletteRoundTrip | include/NeForce/core/utility/color.hpp:661-690 | From index 16 on, the colour of an index is written as that index again if and only if it is not one of four greys of the cube |
| Palettes.BasicShows | include/NeForce/core/utility/color.hpp:700-740 | Of the eight basic colours the one with exactly the strongest channels, white if the other two are strong as well, black for greys below 64 and white for others |
| Palettes.WantShows | src/tui/screen.cpp:15-45 | At every depth: a transparent colour is the terminal's default, an opaque one itself, the nearest of the palette, or the basic one |
| Screens.Screen.Clear | src/tui/screen.cpp:167-219 | Every cell becomes the blank one and cursor and links are forgotten: the cleared frame of the repaint |
| Screens.Screen.Resize | src/tui/screen.cpp:184-190 | The cleared frame of the new size, whatever was in the buffer |
| Screens.Screen.RegisterHyperlink | src/tui/screen.cpp:192-204 | The number of the link, under which it is found; a known link keeps its number, a new one is appended, and 0 is given exactly when 255 others are taken |
| ScreenLoops.FirstChangedByte | src/tui/screen.cpp:53-72 | The 16-byte blocks and the tail return the least differing index, or the length when there is none |
| ScreenLoops.LastChangedByte | src/tui/screen.cpp:74-103 | The 128-byte, 16-byte and single steps return the greatest differing index, or 0 when there is none |
| ScreenLoops.FirstByteIsFirstCell | src/tui/screen.cpp:372-376 | The first differing byte lies in the first changed cell, and there is none exactly when the rows are equal |
| ScreenLoops.LastByteIsLastCell | src/tui/screen.cpp:377 | The last differing byte lies in the last changed cell |
| ScreenLoops.ChangedSpan | src/tui/screen.cpp:364-377 | A row is skipped exactly when it is unchanged, the span runs from the first to the last changed cell, and whether the previous frame is flagged blank makes no difference |
| ScreenLoops.MeasureRun | src/tui/screen.cpp:398-423 | The run is the longest of adjacent emitted cells with the same style, and its width is the sum of the glyph widths |
| ScreenLoops.AppendRow | src/tui/screen.cpp:378-447 | The cell loop over a span writes exactly the operations of the row and leaves the pen where they do |
| ScreenLoops.ToString | src/tui/screen.cpp:348-464 | The whole output string is, byte for byte, the serialized diff; it is empty when nothing was written and the cursor did not change |
| ScreenRefinement.FoldStyle | src/tui/screen.cpp:255-308 | After update_cell_style the terminal's rendition is the one the new style asks for, from any previous style, including the shared resets of bold and dim and of both underlines |
| ScreenRefinement.MoveLands | src/tui/screen.cpp:113-139 | CUP, CUF and CUD as chosen put the cursor on the cell, also out of a pending wrap |
| ScreenRefinement.MoveIsShort | src/tui/screen.cpp:113-139 | Where the cursor is known, a place further on in its row or straight below takes a relative move of no more than the distance, and the next place nothing |
| ScreenRefinement.GlyphsPaint | src/tui/screen.cpp:442-445 | The glyphs of a run fill its cells, wide ones over both halves, cutting up wide glyphs they overwrite |
| ScreenRefinement.RunPaints | src/tui/screen.cpp:396-446 | One run leaves exactly its cells repainted in its style |
| ScreenRefinement.LinePaints | src/tui/screen.cpp:359-447 | One row of the diff turns a terminal row that shows the old row into one that shows the new row |
| ScreenTheorem.DiffRefines | src/tui/screen.cpp:348-464 | On any terminal that shows the old frame with default rendition, the diff leaves it showing the new frame and cursor with default rendition; to the letter if and only if no visible opaque-black cell is written before the first foreground change |
| ScreenTheorem.OutputRefines | src/tui/screen.cpp:348-464 | The same for the byte string that is printed |
| ScreenTheorem.DiffFollows | src/tui/screen.cpp:348-464 | Cell by cell: after the diff a cell is exact if and only if the diff did not wash out its ink and, where the diff left it alone, it was exact before |
| ScreenTheorem.DiffEmpty | src/tui/screen.cpp:450-455 | The diff is empty exactly when no cell visibly changed and the cursor is the same or hidden in both frames |
| ScreenTheorem.UnchangedShows | src/tui/screen.cpp:391-394 | When no cell changed the terminal already shows the new frame |
| ScreenTheorem.CursorLands | src/tui/screen.cpp:310-346 | append_cursor alone puts the cursor where the frame has it, in its shape and visibility, whatever it was before |
| ScreenTheorem.HiddenWhilePainting | src/tui/screen.cpp:450-464 | From the first sequence of a diff to the last the cursor is hidden, so it is never seen where it does not belong |
| ScreenTheorem.BlackInkIsLost | include/NeForce/tui/screen.hpp:223-230 | A concrete frame shows the exception: the tracked style starts with opaque black while the terminal starts with its default foreground |
| ScreenLinks.DiffLinks | src/tui/screen.cpp:255-260 | On a terminal without an open hyperlink every glyph a diff writes gets exactly the link of its cell, and the link of the last written cell stays open |
| ScreenLinks.OpenLinkIff | src/tui/screen.cpp:348-464 | With a link open beforehand the written glyphs still get their links if and only if nothing is written or the first written cell has a link |
| ScreenLinks.NextFrameLinks | src/tui/screen.cpp:450-464 | Of two frames in a row the second gets its links right if and only if the last written cell of the first has none, the second writes nothing, or its first written cell has one |
| ScreenLinks.LinkLeaks | src/tui/screen.cpp:457-463 | The exception: a linked letter and then a plain one, which is printed under the link of the first |
| ScreenLinks.StaleLink | src/tui/screen.cpp:44-50 | A letter whose link changed, but not the number of it, is not written again |
| Reconcilers.Reconciler.constructor | src/tui/reconciler.cpp:76-98 | The state Fresh: two cleared frames of the console's size, or 80 by 24 without one, and nothing painted yet |
| Reconcilers.Reconciler.Mount | src/tui/reconciler.cpp:157-165 | The object is mounted and flushed: the first frame is painted whatever the flags were |
| Reconcilers.Reconciler.MarkDirty | src/tui/reconciler.cpp:182 | The next flush paints, against the frame kept as previous |
| Reconcilers.Reconciler.Invalidate | src/tui/reconciler.cpp:184-188 | Forgets the painted size, so that the next flush repaints |
| Reconcilers.Reconciler.SetColorDepth | src/tui/reconciler.cpp:136-142 | Both frames change depth together and the next flush repaints |
| Reconcilers.Reconciler.SetTermSize | src/tui/reconciler.cpp:130-134 | Records the forced size and marks the object dirty |
| Reconcilers.Reconciler.RefreshTermSize | src/tui/reconciler.cpp:117-128 | A forced size wins, a nonsensical console size is ignored |
| Reconcilers.Reconciler.Compose | src/tui/reconciler.cpp:418-436 | Erase, synchronized-output brackets and diff in this order; an idle frame gets no brackets; what the brackets do is FlushPresents |
| Reconcilers.Reconciler.Flush | src/tui/reconciler.cpp:367-452 | The new state and the bytes printed, for every combination of resize, repaint and idle frame |
| Reconcilers.ErasedShows | src/tui/reconciler.cpp:419-424 | Erasing the display shows the cleared frame exactly |
| Reconcilers.FlushShows | src/tui/reconciler.cpp:391-443 | After a flush the terminal shows the frame kept as previous; exactly if and only if the diff keeps its black ink; its cursor is right if and only if something was written or it was right already |
| Reconcilers.QuietFlush | src/tui/reconciler.cpp:425-436 | A flush prints nothing exactly when it need not repaint and neither a cell nor the cursor visibly changed |
| Reconcilers.WrappedPrefix | src/tui/reconciler.cpp:418-436 | On a terminal that holds its picture back between DEC mode 2026 set and reset: after any part of a flush the screen is what it was, erased once a repaint has begun, and only the whole flush changes it further |
| Reconcilers.FlushPresents | src/tui/reconciler.cpp:367-443 | Every flush ends with the mode off and the screen up to date; with synchronized output no partial diff is ever on the screen, and nothing but the erasing of a repaint precedes the new frame |
| Reconcilers.StepHolds | src/tui/reconciler.cpp:117-188 | Mounting, marking dirty, flushes, invalidations, depth changes, forced sizes and terminal resizes keep the invariant that a terminal of the painted size shows the previous frame |
| Reconcilers.RunTracks | src/tui/reconciler.cpp:117-452 | Over any run, which cells have lost black ink since the last repaint, and whether the cursor is the frame's, follow from the frames alone; every other cell is displayed to the letter |
| Reconcilers.EveryFlushShows | src/tui/reconciler.cpp:367-452 | In every run of a new object on any terminal, after every flush that paints, output is not held back and the screen shows the frame kept as previous, except that black ink may be in the default colour; exactly if and only if no ink is lost since the last repaint; its cursor is right if and only if the flush wrote something, or it was right before, or before a repaint it was hidden |
| Reconcilers.ChangeIsPainted | src/tui/reconciler.cpp:130-188 | No change is lost: after any calls one of which mounts, marks dirty, invalidates, or changes depth or size, the next flush of a mounted object paints the picture in the size of the terminal, and erases the display first if it was invalidated or changed depth |
| Reconcilers.IdleFlush | src/tui/reconciler.cpp:367-376 | A flush without a change since the last one, or of an object that is not mounted, prints nothing and changes nothing |
| Reconcilers.SizeIsRefreshed | src/tui/reconciler.cpp:117-134 | The size that is painted: the one forced last if it is sensible, else the console's if that is, else the old one |
| Reconcilers.NewObject | src/tui/reconciler.cpp:76-98 | A new object is dirty, not mounted and has painted nothing; its frames have the size of the console, or 80 by 24 |
| Reconcilers.RunPresents | src/tui/reconciler.cpp:117-452 | After any run the screen is the picture the terminal holds, and nothing is held back |
| Reconcilers.ColouredInkStays | src/tui/screen.cpp:391-446 | A frame without visible opaque-black ink loses none |
| Reconcilers.CursorLeftBehind | src/tui/reconciler.cpp:419-437 | The exception for the cursor: repainting an empty frame with a hidden cursor leaves a visible cursor visible |
| AsyncLogger.PhasesKept | src/logging/logger.cpp:135-198 | Every step keeps what the flags mean in each phase of enabling and disabling; in particular the queue is empty whenever it is replaced |
| LoggerConservation.StepConserves | src/logging/logger.cpp:160-433 | No step of any thread or of the controller gains or loses an event |
| LoggerConservation.EveryRunConserves | src/logging/logger.cpp:160-433 | In every interleaving each event that entered is written, in a thread's hands, queued or dropped by policy; the queue never exceeds its capacity; under block nothing is dropped |
| LoggerConservation.ShutdownWritesAll | src/logging/logger.cpp:160-219 | When all calls have returned and the logger is disabled, block has written every event exactly once, parked producers included |
| LoggerLiveness.StepAttended | src/logging/logger.cpp:233-433 | Every step keeps the queue attended and, under a running pool, a claimed drain owned |
| LoggerLiveness.AttendedServes | src/logging/logger.cpp:233-433 | From such a state the calls and tasks already under way can empty the queue, without any new call |
| LoggerLiveness.ServedExactlyWhen | src/logging/logger.cpp:160-433 | In every reachable state, under any pools and restarts, the calls under way can still take the queue if and only if it is empty, the controller takes it without having to wait for a drain, a drain or flush is under way, or the drain is unclaimed and somebody pushes |
| LoggerLiveness.NoneStranded | src/logging/logger.cpp:160-433 | In every interleaving, whether the pool accepts or refuses, no event is stranded, if pools report refusals and a stopped pool is replaced only when no call is between push and submit: some continuation of the calls under way takes it |
| LoggerDelivery.RunIsBounded | src/logging/logger.cpp:160-433 | Without new calls every schedule ends: the number of steps is at most a bound computed from the state and from how often flushes go on waiting |
| LoggerDelivery.RestIsEmpty | src/logging/logger.cpp:160-433 | When nothing under way can move, the queue is empty, every call has returned and no producer is parked |
| LoggerDelivery.EveryEventIsDelivered | src/logging/logger.cpp:160-433 | Under the conditions of NoneStranded, in every schedule of every run: the calls under way come to rest within the bound, and then every event that was ever logged is written or was dropped by policy |
| LoggerFlush.RunOnce | src/logging/logger.cpp:160-433 | Over any run every push number is in exactly one place: written, queued, in one thread's or the controller's hands, or evicted |
| LoggerFlush.FlushReturns | src/logging/logger.cpp:403-431 | When a flush returns, each event pushed before it took the queue is written, evicted, or in the hands of another drain, flush or the controller; and it is written or evicted if nobody else held it when the queue was taken |
| LoggerFlush.FlushWritesAllIff | src/logging/logger.cpp:403-431 | At the return: everything pushed before is written or evicted if and only if nobody then holds an earlier event |
| LoggerFlush.FlushGuarantee | src/logging/logger.cpp:403-431 | At the moment the queue is taken: however things go on until the flush returns, everything pushed before is then written or evicted, if and only if nobody holds an earlier event at that moment |
| LoggerFlush.AcknowledgedInFlight | src/logging/logger.cpp:260-296 | A run in which no wait runs out, the drain acknowledges the flush, takes an event logged before the flush was called, and still holds it when the flush returns |
| LoggerStranding.RefusalStrands | src/logging/logger.cpp:247-253 | A run in which a pool without task tracking refuses the drain and the event stays queued with nobody left |
| LoggerStranding.RestartStrands | src/logging/logger.cpp:135-158 | A run in which a producer hands its drain to the stopped pool while the logger is enabled again, and the next event stays queued |
| LoggerStranding.StrandsExactlyWhen | src/logging/logger.cpp:233-258 | Over all runs: events are never stranded if and only if both conditions are imposed; ServedExactlyWhen is the characterization of single states |
| LoggerFifo.SingleDrainFifo | src/logging/logger.cpp:200-296 | While the pool accepts and nobody flushes or disables: at most one thread holds the drain, and written, in-flight and queued events are the pushed ones in order, less those evicted by overrun_oldest |
| LoggerFifo.WrittenInPushOrder | src/logging/logger.cpp:260-296 | Written events have increasing push numbers and the values that were pushed |
| LoggerFifo.EvictOne | src/logging/logger.cpp:226-229 | Evicting one event leaves the order of the others; which one it is, is LoggerOverrun.StepLoses |
| LoggerOverrun.StepLoses | src/logging/logger.cpp:219-232 | What one step of any thread loses: nothing, unless an event enters a full queue; then under overrun_oldest the queued event with the least push number, and under discard the entering event; no other event leaves its place unwritten |
| LoggerOverrun.OldestGoesFirst | src/logging/logger.cpp:219-232 | Over every run from the start the queue is in push order and every evicted number is below every queued one |
| LoggerFifo.EnableIsQuiet | src/logging/logger.cpp:140-157 | The last four steps of enable_async lead to the state these results start from |
| LoggerDrains.OneDrainWithFlushes | src/logging/logger.cpp:239-296 | While the pool accepts, flushes included: no two threads have claimed a drain or are one, and the flag is set exactly while one has or is |
| LoggerDrains.FlushIsServed | src/logging/logger.cpp:403-416 | In every state such runs reach, a flush about to look for a drain can be acknowledged by one, by threads already under way and without running out of time |
| LoggerTree.Logger.Propagate | src/logging/logger.cpp:70-85 | Exactly this logger and those that inherit from it, directly or through others, get the level |
| LoggerTree.Logger.PropagateToChildren | src/logging/logger.cpp:56-84 | The loop over the children changes exactly the loggers that inherit from this one |
| LoggerTree.Logger.UpdateEffectiveLevel | src/logging/logger.cpp:47-68 | The logger and everything that inherits from it get its explicit level, else its parent's level, else INFO; all others keep theirs |
| LoggerTree.Logger.RegisterChild | src/logging/logger.cpp:86-91 | The child joins the tree under this logger with the level it should have, and no other level changes |
| LoggerTree.Logger.SetLevel | src/logging/logger.cpp:93-96 | Setting a level, INHERIT included, leaves every registered logger with the level of its nearest explicit self or ancestor |
| LoggerTree.ThroughChildren | src/logging/logger.cpp:62-67 | What inherits from a logger inherits from it through one of its children that is set to INHERIT, and conversely |
| LoggerTree.NearestSource | src/logging/logger.cpp:47-54 | The level each logger should have is the explicit level of the first logger on its way to the root that has one, or INFO at the root |
| LoggerTree.NearestElsewhere | src/logging/logger.cpp:47-68 | Changing one explicit level leaves the level of loggers that do not inherit from it |
| LoggerTree.ParentNameIs | src/logging/logger.cpp:463-467 | The parent of a dotted name is what stands before its last component, that of a name without a dot the root |
| LoggerTree.OnTheWayIs | src/logging/logger.cpp:456-473 | The names that asking for a name can create are the name itself and what stands before one of its dots, if not nothing |
| LoggerTree.Registry.constructor | src/logging/logger.cpp:435-438 | A tree with the root alone |
| LoggerTree.Registry.CreateLogger | src/logging/logger.cpp:456-473 | Finds or creates the logger and its missing ancestors; terminates on the name; every name keeps its logger and its level; the tree stays one tree with correct levels |
| LoggerTree.Registry.GetLogger | src/logging/logger.cpp:447-454 | The empty name and "root" mean the root, any other name its own logger |
| Sixel.LexSerialize | src/tui/image.cpp:138-146 | Sixel data is read back as the tokens it was written from, run lengths of one included |
| Sixel.Decodes | src/tui/image.cpp:431-440 | Introducer, raster attributes, data and terminator are read back |
| SixelEncoder.MakePalette | src/tui/image.cpp:98-115 | The loops build the 216-colour cube followed by 40 greys |
| SixelEncoder.PaletteIs | src/tui/image.cpp:98-115 | The cube has equal steps of 51 in each channel, and the greys are the nearest to forty equal steps from 0 to 255 |
| SixelEncoder.DistanceIs | src/tui/image.cpp:91-96 | The distance is the sum of the squared differences of the three channels |
| SixelEncoder.NearestIsClose | src/tui/image.cpp:91-136 | The chosen colour is never further away than one that differs by 25 in every channel |
| SixelEncoder.NearestColor | src/tui/image.cpp:121-136 | The first of the nearest palette colours, also with the early exit |
| SixelEncoder.IndexPixels | src/tui/image.cpp:418-429 | Every pixel gets its nearest colour, fully transparent ones get -1 |
| SixelEncoder.AppendSixelRun | src/tui/image.cpp:138-146 | Nothing for an empty run, no count for a run of one |
| SixelEncoder.MarkUsed | src/tui/image.cpp:445-453 | A colour is marked exactly when some pixel of the band has it |
| SixelEncoder.ColumnMask | src/tui/image.cpp:464-473 | The mask has the bits of exactly the rows of that colour |
| SixelEncoder.AppendRuns | src/tui/image.cpp:461-482 | The loop over the columns writes the run-length encoded masks of one colour |
| SixelEncoder.AppendPass | src/tui/image.cpp:459-483 | One colour select, the run-length encoded masks of the band, and a carriage return |
| SixelEncoder.AppendPasses | src/tui/image.cpp:445-484 | The colours of the band in increasing order, each with its pass |
| SixelEncoder.AppendBands | src/tui/image.cpp:442-488 | All bands, separated but not ended by a line feed token |
| SixelBands.RunsPaint | src/tui/image.cpp:474-482 | Run-length encoded masks paint what the masks say, column by column |
| SixelBands.PassesPaint | src/tui/image.cpp:455-484 | The passes of a band give each of its pixels the colour of its index |
| SixelBands.PaintsExactly | src/tui/image.cpp:442-488 | For every index image each pixel is painted exactly in its index, transparent pixels and everything outside not at all |
| SixelEncoder.EncodeSixel | src/tui/image.cpp:408-491 | Nothing for an invalid image; otherwise the output decodes to data of the image's size whose pixels are square, so that a terminal that follows the raster attributes draws at every place the pixel the image has there; it gives every pixel the register number of its nearest palette colour and leaves transparent ones alone; whatever the registers hold, the picture is seen in the palette's colours if and only if every register it uses holds the colour of its number; what is under transparent pixels stays if and only if the terminal leaves them alone although P2 is omitted, or only background is under them |
| SixelEncoder.SurvivesIff | src/tui/image.cpp:408-491 | The same for any P2: what is under transparent pixels stays if and only if P2 leaves them alone or only background is under them |
| SixelEncoder.TransparencyLost | src/tui/image.cpp:431 | The exception: one transparent pixel over white on a terminal with a black background that fills when P2 is omitted |
| SixelEncoder.RegistersForAll | src/tui/image.cpp:98-136 | Registers show every image right if and only if each colour of the palette is held under the first number it has there |
| SixelEncoder.DefaultRegistersFail | src/tui/image.cpp:431-440 | The exception: one dark blue pixel on a terminal whose register 1 holds the blue a VT340 starts with |
| Base64.EncodeBase64 | src/tui/image.cpp:49-78 | The loop and its tail write the groups of RFC 4648 |
| Base64.RoundTrip | src/tui/image.cpp:49-78 | The strict decoder of section 4 of RFC 4648 gives the bytes back |
| Base64.EncodedLength | src/tui/image.cpp:55 | Four letters for every three bytes begun |
| Kitty.ReceiveSerialize | src/tui/image.cpp:358-385 | A terminal that frames commands by ESC _ G, semicolon and ESC \ finds exactly those that were written, whatever their control data |
| Kitty.TransmissionIsChunked | src/tui/image.cpp:350-385 | For a terminal that overlooks an empty field: payloads concatenate to the encoding, all but the last are 4096 characters and say m=1, only the last says m=0, and the first names format, size and id |
| Kitty.Transmit | src/tui/image.cpp:350-385 | The loop writes those commands byte for byte |
| Kitty.StrictlyReceived | src/tui/image.cpp:358-385 | For a terminal that takes only key=value pairs: every command is well formed, and the transmission complete, if and only if the image has at most 3072 bytes; of a larger one it gets exactly the first 3072 bytes and no end |
| Kitty.StrictLosesPixels | src/tui/image.cpp:374 | One column of 769 pixels loses its last pixel there, because the second control string starts with a comma |
| Kitty.PlacementReads | src/tui/image.cpp:337-348 | A placement is one command without payload that says a=p, p=1 and the id, and c and r with the columns and rows exactly if both are positive |
| Kitty.FirstAnnounces | src/tui/image.cpp:363-373 | The first control string says a=T, f=32, p=1, q=2 and gives s, v and i the width, the height and the id, each key once |
| Kitty.EncodeKitty | src/tui/image.cpp:331-387 | Nothing for an invalid image; a placement that names the image and its box without transmission; otherwise chunks that announce format, size and id and whose joined payload decodes to the pixels on a terminal that overlooks an empty field, and on a strict one if and only if the image has at most 3072 bytes |
| PngFilter.Paeth | src/tui/image.cpp:80-89 | One of left, up and up-left that is nearest to their estimate, ties in this order |
| PngFilter.UnfilterInverts | src/tui/image.cpp:267-292 | For every filter and row the decoder undoes the filter of section 6 of RFC 2083 |
| PngFilter.FilterInverts | src/tui/image.cpp:267-292 | Conversely every filtered row is the filtering of what it is decoded to |
| PngFilter.UnfilterRow | src/tui/image.cpp:266-292 | The loop over one row, in place over the buffer that still holds an older row, reads no stale byte |
| PngFilter.RowsOfRaw | src/tui/image.cpp:257-304 | For every image and every choice of filters per row the rows are recovered |
| PngFilter.RawOfRows | src/tui/image.cpp:257-304 | Conversely whatever data is decoded to rows is the raw data of those rows with some filters, so that unknown filter numbers are refused |
| PngFilter.RgbaAt | src/tui/image.cpp:294-302 | Pixel (x, y) of the decoded image is pixel x of row y: its three colours, and its own alpha or 255 |
| PngFilter.UnpackRow | src/tui/image.cpp:294-302 | RGB and RGBA pixels land in their place as RGBA |
| PngFilter.DecodeRows | src/tui/image.cpp:257-304 | The two swapped row buffers compute exactly the rows, and an unknown filter makes the image invalid |
| PngFile.WalkChunks | src/tui/image.cpp:163-217 | The chunk loop finds the header and the concatenated IDAT data or rejects the file, as the recursive walk does |
| PngFile.CheckSizes | src/tui/image.cpp:223-247 | The size checks accept exactly the sizes within the decoder's limits; those against the range of size_t never fail |
| PngFile.FitsIs | src/tui/image.cpp:223-247 | The checks come to this: neither the filtered rows nor the RGBA pixels take more than 512 MiB |
| PngFile.DecodePng | src/tui/image.cpp:151-314 | The decoder as a function of the file and of inflate, all rejections included |
| PngFile.FileRoundTrip | src/tui/image.cpp:151-314 | Every RGB or RGBA image with any filters, any split into IDAT chunks and any other chunks decodes to its pixels if it is within the limits and is refused otherwise |
| PngFile.DecodedFile | src/tui/image.cpp:151-314 | Nothing else is decoded: a file that decodes is the signature, a header of eight bits a channel without interlacing, well-formed chunks, an empty IEND and anything after it, whose image data inflate to filtered rows, and the image is those rows |
| InputEvents.SplitParams | src/tui/input_parser.cpp:28-47 | The parameter loop computes the list of numbers |
| InputEvents.SplitView | src/tui/input_parser.cpp:98-108 | The loop finds the parts between separators |
| InputEvents.ParseInt | src/tui/input_parser.cpp:110-125 | Digits up to ten million, otherwise the fallback |
| InputParsers.InputParser.FeedByte | src/tui/input_parser.cpp:228-256 | Every byte in every state leads to the state and event of the specification, and true is returned exactly when there is an event |
| InputParsers.InputParser.FlushBatch | src/tui/input_parser.cpp:258-272 | A lone escape becomes a key, unfinished sequences are dropped, a paste is kept |
| InputParsers.InputParser.FinishCsiSequence | src/tui/input_parser.cpp:361-569 | The key, mouse, focus or paste mode that a CSI sequence means |
| InputParsers.InputParser.ParseKitty | src/tui/input_parser.cpp:380-425 | The Kitty keyboard protocol with modifiers, event type and base key |
| InputParsers.InputParser.Complete | src/tui/input_parser.cpp:664-712 | A complete character becomes a key, a partial one waits |
| InputParsers.InputParser.FeedOscByte | src/tui/input_parser.cpp:633-662 | An OSC string ends at BEL or ST or is dropped at the size limit |
| InputParsers.InputParser.FeedPasteByte | src/tui/input_parser.cpp:714-746 | Collects until the end marker or the size limit |
| InputParsers.Normalize | src/tui/input_parser.cpp:729-741 | The loop turns CR LF and CR into LF |
| InputInvariant.AlwaysSound | src/tui/input_parser.cpp:228-712 | After any bytes, batches and resets: at most 32 bytes of sequence, 1 MiB of paste and of OSC, each buffer only in its own mode, a UTF-8 buffer not empty and shorter than its first byte announces |
| InputInvariant.NeverTooLong | src/tui/input_parser.cpp:688-691 | The branch for a character with too many bytes cannot be reached |
| InputText.OneCharacter | src/tui/input_parser.cpp:274-712 | The RFC 3629 encoding of any non-control scalar value gives exactly its key |
| InputText.EscapedCharacter | src/tui/input_parser.cpp:295-341 | After an escape it gives the same key with alt, except exactly for the three characters that start a longer sequence |
| InputText.TextRoundTrip | src/tui/input_parser.cpp:274-712 | Any text comes out character by character and the parser is ready for more |
| InputText.TextAfterAnything | src/tui/input_parser.cpp:228-272 | After any input that leaves the parser in ground mode, text comes out just so |
| InputBatches.BatchedText | src/tui/input.cpp:169-178 | Text in any batches: a character that no batch cuts is its key, of one that is cut the bytes before the first cut are dropped and each of the others types U+FFFD |
| InputBatches.BatchedRoundTrip | src/tui/input.cpp:169-178 | So text comes out as typed if and only if no batch ends inside a character, except before the last byte of U+FFFD itself; the parser is ready for more either way |
| InputBatches.EuroCut | src/tui/input.cpp:169-178 | A euro sign cut after its first byte types two U+FFFD |
| InputText.SequenceIsOneKey | src/tui/input_parser.cpp:664-712 | A first byte with the continuation bytes it announces is one key; that key's encoding is the bytes again if and only if they are in the table of section 4 of RFC 3629; an overlong sequence types the character it stands for, a surrogate or a value past U+10FFFF types U+FFFD |
| InputText.StrayByte | src/tui/input_parser.cpp:678-683 | A byte from 128 that announces nothing types U+FFFD |
| InputText.CutShort | src/tui/input_parser.cpp:624-631 | A character cut short by another byte leaves no trace |
| InputText.OverlongIsAccepted | src/tui/input_parser.cpp:694-696 | The shortest overlong sequence, C0 AF, is read as a slash |
| InputPaste.PasteBegins | src/tui/input_parser.cpp:547-551 | The opening marker leads to an empty paste without an event |
| InputPaste.NoEarlyEnd | src/tui/input_parser.cpp:715-716 | The end marker is first found at the very end |
| InputPaste.PasteRoundTrip | src/tui/input_parser.cpp:714-746 | Any text without the end marker and within the limit, cut anywhere into batches, is exactly one paste event |
| InputPaste.PasteOverflows | src/tui/input_parser.cpp:717-720 | A text of more than 1 MiB less five bytes is given up when the limit is passed: no event, and the parser is back in ground |
| InputPaste.NormalizedLine | src/tui/input_parser.cpp:731-741 | Line by line, LF, CR and CR LF each end a line and become one LF |
| InputPaste.NormalizedHasNoReturns | src/tui/input_parser.cpp:731-741 | No CR is left, and a text without CR is unchanged |
| InputMouse.TripleRead | src/tui/input_parser.cpp:28-47 | Three numbers written in decimal are read back |
| InputMouse.MouseRoundTrip | src/tui/input_parser.cpp:748-806 | Every button event reported in SGR form is delivered as it was, if the report fits the sequence buffer |
| InputKeys.LegacyRoundTrip | src/tui/input_parser.cpp:436-568 | Every cursor, editing and function key reported in its legacy form with any modifiers is delivered as that key with those modifiers |
| InputKeys.KittyRoundTrip | src/tui/input_parser.cpp:380-425 | Every key code of the Kitty protocol with any modifiers, pressed, repeated or released, is delivered as such |
| InputKeys.KittyText | src/tui/input_parser.cpp:181-206 | A scalar value is the key that types it, except exactly the delete code and the codes of functional keys |
| InputStrokes.StrokeRoundTrip | src/tui/input_parser.cpp:49-81 | Enter, Tab, Backspace and Ctrl with every letter or sign, with or without an escape before it: the key and, after an escape, alt are delivered if and only if it is not Ctrl with h, i, j, m or [; for those it is what Backspace, Tab, Enter and the escape deliver |
| InputStrokes.ControlBytesAreStrokes | src/tui/input_parser.cpp:274-341 | These are all the control bytes |
| InputStrokes.EscapesRoundTrip | src/tui/input_parser.cpp:258-272 | Any number of escapes followed by the end of the batch is as many Escape keys |
| InputStrokes.Ss3RoundTrip | src/tui/input_parser.cpp:571-622 | ESC O and the letter of a key is that key, any other byte there is Escape |
| InputStrokes.NumberedRoundTrip | src/tui/input_parser.cpp:487-555 | CSI number ~ with any modifiers is the key that has the number in the table of the editing keys and of F1 to F12, and nothing for a number that no key has |
| InputStrokes.BareRoundTrip | src/tui/input_parser.cpp:370-379 | Focus gained and lost; cursor keys, Home, End and F1 to F4 without modifiers (lines 441-486) |
| InputStrokes.BackTabRoundTrip | src/tui/input_parser.cpp:466-470 | The back-tab has shift and whatever other modifiers are reported |
| InputStrokes.CodesAreKeys | src/tui/input_parser.cpp:127-206 | A Kitty code is the key that has it in the table of the private codes, F1 to F24 and the four ASCII codes; otherwise from 32 on the character it is, surrogates as U+FFFD; otherwise unknown |
| InputReports.PartsOfJoin | src/tui/input_parser.cpp:98-108 | Splitting undoes joining, for any parts without the separator |
| InputReports.ParamsRead | src/tui/input_parser.cpp:28-47 | Any parameters joined by semicolons are read back, those left out as 0 |
| InputReports.OthersAreSkipped | src/tui/input_parser.cpp:28-47 | Only digits and semicolons count |
| InputReports.NumeralReads | src/tui/input_parser.cpp:110-125 | A numeral is read back up to ten million and is the fallback beyond |
| InputReports.KittyReportRoundTrip | src/tui/input_parser.cpp:380-425 | Every report of the protocol that fits the buffer, with any alternates, with or without modifiers, further modifiers, kind of event and text, is the key of its code with those modifiers, that kind, and the first alternate as base; unknown codes are ignored |
| InputReports.CodeRoundTrip | src/tui/input_parser.cpp:488-497 | CSI 27 ; modifiers ; code ~ is the key of the code with the modifiers, or nothing for an unknown code |
| InputReports.OscRoundTrip | src/tui/input_parser.cpp:633-662 | A command up to its terminator, BEL or ST, goes to the clipboard reader as a whole and is delivered if that finds something; the parser is ready for more |
| InputReports.OscAbandoned | src/tui/input_parser.cpp:638-644 | It is given up without an event when it passes 1 MiB and when its batch ends |
| InputReports.CsiAbandoned | src/tui/input_parser.cpp:343-359 | A control sequence is dropped when its batch ends and at its 33rd parameter byte, and an escape in it starts anew |
| Scrollbar.SizeFits | src/tui/renderer.cpp:409 | The thumb is shorter than the track, and its room no more than the rows to scroll |
| Scrollbar.SizeIsProportional | src/tui/renderer.cpp:409 | The thumb is to the track what the track is to the content, rounded down, but at least one cell |
| Scrollbar.ThumbInside | src/tui/renderer.cpp:1332-1338 | The thumb lies inside the track and touches both ends exactly |
| Scrollbar.ThumbMonotone | src/tui/renderer.cpp:409-414 | The thumb never moves against the offset |
| Scrollbar.MouseTargetRoundTrip | src/tui/event_dispatcher.cpp:143-147 | The offset for a mouse is in range; the repainted thumb is at the target exactly when the rows divide evenly there, else one cell before it, and exact at both ends |
| Scrollbar.AskedRange | src/tui/event_dispatcher.cpp:143-147 | For every track shorter than its content the mouse's offset is in range |
| Scrollbar.StaysIff | src/tui/event_dispatcher.cpp:143-147 | Which thumb target leaves the offset alone, exactly |
| Scrollbar.TargetCentres | src/tui/event_dispatcher.cpp:143-147 | The thumb a mouse on the track asks for lies in the track, under the mouse, and has it in its middle unless it meets an end |
| Scrollbar.WheelInRange | src/tui/event_dispatcher.cpp:105-118 | The wheel moves by its step or to the nearer end |
| Dispatchers.Dispatcher.DispatchMouse | src/tui/event_dispatcher.cpp:68-192 | Release, drag, wheel and press, each taken by the first scrollbar that matches |
| Dispatchers.Dispatcher.PressBar | src/tui/event_dispatcher.cpp:128-189 | On the thumb a press only starts a drag, elsewhere the thumb comes to the mouse |
| Dispatchers.PaintClamps | src/tui/renderer.cpp:393-405 | Painting writes the clamped offset back: of a scroll view limited to what there is to scroll, of a virtual list (lines 1255-1257) limited at both ends |
| Dispatchers.PaintHits | src/tui/renderer.cpp:407-443 | Every hit is a bar with something to scroll, its thumb where the clamped offset puts it |
| Dispatchers.PaintInRangeIff | src/tui/renderer.cpp:1255-1257 | After painting, a virtual list's offset is in range, and a scroll view's (lines 395-404) if and only if it was not negative |
| Dispatchers.PaintInRange | src/tui/renderer.cpp:395-404 | Offsets that are not negative are in range after painting, also where bars share a state |
| Dispatchers.PaintedThumb | src/tui/renderer.cpp:407-443 | Every painted thumb of a track of at least two cells lies inside it, whatever the offsets were before, if none was negative |
| Dispatchers.FrameKeepsRange | src/tui/event_dispatcher.cpp:68-192 | Any offsets that are not negative, any geometry, any event: painting and the event leave every scroll view and every list in range |
| Dispatchers.RunKeepsRange | src/tui/event_dispatcher.cpp:68-192 | Over any run of frames whose geometry changes at will, with offsets set by the application in between, every offset is in the range of the scroll view or list it was last painted for |
| Dispatchers.SharedOutOfRange | src/tui/event_dispatcher.cpp:105-118 | The exception: two scroll views that share a state and have different amounts to scroll |
| Dispatchers.AnchorsUnused | src/tui/event_dispatcher.cpp:79-102 | Where a drag was anchored makes no difference to what it does |
| Dispatchers.DragInPlace | src/tui/event_dispatcher.cpp:79-154 | A press on the thumb and a drag event at the same cell leave the offset alone if and only if the thumb's middle is at the mouse and the rows divide evenly there, or it is one cell before it and the thumb is almost there |
| Dispatchers.ThumbJumps | src/tui/event_dispatcher.cpp:79-154 | A concrete thumb grabbed at its last cell scrolls four rows without a move |
| Dispatchers.PressBringsThumb | src/tui/event_dispatcher.cpp:128-157 | After a press beside the thumb the repainted thumb is at the mouse's target or one cell before it |
| Dispatchers.WheelTurns | src/tui/event_dispatcher.cpp:104-127 | The first vertical bar whose view has the mouse in it scrolls by three rows, up for a turn up and down for a turn down, or to its end; nothing else changes |
| Dispatchers.DragFollows | src/tui/event_dispatcher.cpp:74-102 | Over any gesture: a drag goes on wherever the mouse is until the release, only the last place along the bar counts, no other offset changes, and the release moves nothing |
| Dispatchers.DragCentres | src/tui/event_dispatcher.cpp:79-102 | Wherever on the track a drag is, the repainted thumb is under the mouse or ends just before it, with the mouse within a cell of its middle unless it meets an end |
| Dispatchers.UnhandledIsIgnored | src/tui/event_dispatcher.cpp:68-192 | An event that is not for a bar changes nothing, and every change of an offset asks for a repaint |
| Dispatchers.PressCredited | src/tui/event_dispatcher.cpp:128-192 | For any scrollbars and the first that a press matches: it is on no cell of that bar if and only if it is beside the first cell of a vertical bar or below that of a horizontal one, and the drag it starts goes across the bar exactly there and on the first cell of a horizontal bar |
| Dispatchers.PressOnBar | src/tui/event_dispatcher.cpp:128-192 | A press on a bar is taken by it if and only if no earlier bar has it in its column or row, and drags along it unless it is where a horizontal bar starts |
| Dispatchers.BesideIsCaptured | src/tui/event_dispatcher.cpp:159-187 | A concrete press right of a vertical bar scrolls it and starts a horizontal drag |
| VirtualWindow.ComputeVirtualWindow | src/tui/renderer.cpp:55-99 | The loops compute the measured window, the divisions the uniform one |
| VirtualWindow.MeasuredOffset | src/tui/renderer.cpp:71-90 | The rows above the first item plus the skipped ones are the clamped offset, and the skipped rows belong to the first item |
| VirtualWindow.UniformOffset | src/tui/renderer.cpp:60-66 | The same for the division form |
| VirtualWindow.FormsAgree | src/tui/renderer.cpp:60-90 | For items of equal height both forms give the same first item, skip, limit and content height |
| VirtualWindow.UniformCovers | src/tui/renderer.cpp:67 | The chosen items of the division form fill the viewport |
| VirtualWindow.CoversIff | src/tui/renderer.cpp:91-97 | Every viewport row that has content shows a chosen item if and only if the chosen items end the list or reach the bottom |
| VirtualWindow.MeasuredWindowIs | src/tui/renderer.cpp:71-98 | The window from the offset and the heights alone: the last item whose top is at or above the offset, the rows of it above the offset, and one item more than it takes to reach the viewport's rows counted from those |
| VirtualWindow.MeasuredCovers | src/tui/renderer.cpp:91-97 | For any heights: with k the least number of items that reach the viewport's rows counted from the skipped ones, all rows are covered if and only if k + 1 items end the list or reach viewport plus skipped rows |
| VirtualWindow.BoundaryCovers | src/tui/renderer.cpp:91-97 | In particular always when the clamped offset is the top of an item |
| VirtualWindow.EqualHeightsCover | src/tui/renderer.cpp:91-97 | In particular for equal heights: the chosen items end the list, or the skipped rows do not outweigh what the last item adds |
| VirtualWindow.GapAtTheBottom | src/tui/renderer.cpp:92 | A concrete list leaves two of four rows empty |
| Checksum.CalculateChecksum | src/network/icmp_socket.cpp:9-23 | Both loops, with 32-bit wrap-around and either byte order |
| Checksum.SumBound | src/network/icmp_socket.cpp:10-18 | Up to 131074 bytes the sum does not overflow |
| Checksum.NeverWrapsIff | src/network/icmp_socket.cpp:10-18 | No data of a length overflow the 32 bits if and only if the length is at most 131074 |
| Checksum.WrappedSumIsWrong | src/network/icmp_socket.cpp:10-22 | The exception: 131076 bytes of 255 get 1 where RFC 1071 has 0 |
| Checksum.FoldIs | src/network/icmp_socket.cpp:19-21 | Folding terminates and is reduction modulo 65535, with 65535 for a positive multiple |
| Checksum.BuildEchoRequest | src/network/icmp_socket.cpp:33-45 | Type, code, identifier and sequence number in the places and the byte order of RFC 792, the data after them, and in between the checksum of the packet with zero in its place |
| Checksum.ReceiverSeesZero | src/network/icmp_socket.cpp:34-45 | Summing the packet again gives 0, odd lengths included |
| Checksum.MeetsRfc | src/network/icmp_socket.cpp:9-23 | The stored bytes are those of section 1 of RFC 1071 if and only if the host is little-endian, the length even or the last byte zero |
| DotStuffing.Escape | src/network/smtp_socket.cpp:420-429 | The loop doubles the dots that start a line and appends the terminator |
| DotStuffing.EndsAtTheEnd | src/network/smtp_socket.cpp:423-429 | For every content the terminator is found at the end of the stream and nowhere else |
| DotStuffing.LenientRecovers | src/network/smtp_socket.cpp:424 | A receiver that ends lines at LF recovers every content |
| DotStuffing.StrictRecoversUnless | src/network/smtp_socket.cpp:424 | A receiver by the letter of section 4.5.2 of RFC 5321 recovers the content if and only if no dot follows a bare LF |
| DotStuffing.DeliveredIs | src/network/smtp_socket.cpp:420-429 | By section 4.1.1.4 of RFC 5321 the first CRLF of the terminator belongs to the mail, so one line end more than the content is delivered |
| DotStuffing.DeliveredLines | src/network/smtp_socket.cpp:420-429 | Content and one line end are delivered if and only if no dot follows a bare LF; the content is delivered line by line if and only if, besides, it is not empty and does not end in CRLF already; otherwise an empty line is added |

## Left out

- ScreenTheorem.DiffRefines: stated for cells without hyperlinks, because link ids belong to one frame and are compared across frames; ScreenLinks has the links, operation by operation
- Reconcilers.EveryFlushShows: the guard against a nested flush and the component tree are not modelled
- LoggerFifo.SingleDrainFifo: not for runs with flush or disable, which take the queue beside a drain and may overtake its batch
- PngFile.FileRoundTrip: zlib is a function parameter; checksums of chunks are not looked at by the decoder either
- InputMouse.MouseRoundTrip: reports that do not fit the 32-byte sequence buffer are dropped by the parser
- Checksum.ReceiverSeesZero: up to 131074 bytes; beyond them the 32-bit sum may wrap
- screen::to_plaintext and the bounds-checked cell access: they only read cells
- selection painting, focus, layout, text wrapping and style merging of the renderer
- the horizontal extent of scroll views, hit testing of elements and mouse capture after the scrollbar part of dispatch_mouse
- parse_clipboard_response is a function parameter of the input parser; it is not part of this model
- time: flush timeouts, auto-flush intervals and the re-poke interval are nondeterministic choices; the bound on the steps of a run counts how often a flush goes on waiting
- filters, contexts and message formatting of the logger, and its destructor
- iTerm2 image output, protocol detection and the console, file, socket, TLS and database code
