# A verified model of the console's core

The repository is a terminal emulator that runs directly on the graphics card: it reads programs'
output from a pseudo terminal, keeps the screen as cells, renders glyphs and swaps two frame buffers.
This project models the parts of it whose correctness spans loops, heaps or whole runs, and proves what
they are for. `dafny verify dfyconfig.toml` checks everything.

| File | What it models |
|---|---|
| `BbulkModel`, `BbulkExact`, `BbulkDraw`, `BbulkRun`, `BbulkAgain`, `Bulk`, `BulkArea` | The bulk renderer: which cells are repainted when frames alternate between two buffers, swaps that fail, the pointer sprite, the damage rectangles. `Bulk.Renderer` performs the steps in place; `BbulkModel` states them on values; `BbulkExact` gives each cell's fate in a draw from any state; `BbulkDraw` and `BbulkRun` prove when a draw, and every draw of a run, equals a full repaint; `BbulkAgain` is about frames drawn again, lost swaps, and the frames that go wrong; `BulkArea` is about pixels: where cells, glyphs and rectangles lie on a screen that may be turned. |
| `UnifontSource`, `Unifont`, `Unfold` | The compiler of the built-in font, from the text of its source file on, the look-up in the compiled table, and the scaling of its bitmaps. |
| `Lru` | The glyph cache: a hash table and a recency list that must agree. |
| `Rotate`, `Blend` | Glyph rotation and alpha blending into the frame buffer. |
| `DList`, `HookModel`, `HookRuns`, `Hook`, `Idle` | Linked lists, hooks that change while they are being called, what registrations come to over whole runs, and the idle sources built on them. |
| `EloopModel`, `EloopRuns`, `Eloop` | The event loop: reference counts, shared signals, the array of pending events, dispatch rounds with adversarial callbacks, and what becomes of every event reported. |
| `RingModel`, `Ring` | The output queue of a terminal behind partial, non-blocking writes. |
| `Split`, `SplitGrammar`, `Conf`, `ConfText`, `Json`, `HostSession` | The two-pass string splitters and the grammar of commands, the in-place configuration parser and the files it reads, the JSON string decoder, the login job packer. |
| `Raster`, `Memory` | Row arithmetic without products; bytes, little-endian words, `memcpy` and `memmove`. |

Where the code changes state step by step, a class or an array algorithm does the same and is proved
equal to a function on values; what the code promises is then proved of that function, over every run
where it is about runs. Callbacks, the kernel and users are adversaries: they may do anything that the
interface allows, in any order.

## What turned out to be false

Each of these is stated exactly, by a condition that is necessary and sufficient, or by a lemma about
every state in which it happens; most come with a concrete input.

* Which draws are right (`BbulkExact.DrawShowsFrameIff`). From any state whatever, for any font and any
  frame, a draw equals a full repaint if and only if no cell misses: none is painted although a glyph covers
  it, none is overlaid although none does, and none is left alone with the wrong content. For a settled state
  and a frame without the two marks' numbers there are two ways to miss: a blank replaces a character right of
  a double-width glyph that does not change (`BbulkAgain.BaredCellKeepsOldCharacter`), or a covered cell still
  carries the width flag of an older double-width glyph (`BbulkAgain.ShiftedGlyphLeavesHalf`). Where no flag
  is left over, only the first remains (`BbulkDraw.OnlyBaredCellsMiss`); with a font of single-width glyphs
  there is neither (`BbulkRun.NarrowFontsAlwaysDrawable`).
* Marks as characters. A frame may hold cells whose character is one of the renderer's own two marks. With
  single-width glyphs, from a settled state, the first of two draws shows such a frame if and only if its
  buffer already showed the stored overflow numbers that are not to be repainted, and the second if and only
  if its buffer already showed every stored cell with a mark's number (`BbulkAgain.MarksSurviveIff`). With
  double-width glyphs more is lost: a damage number that was never stored (`BbulkAgain.MarkBesideWideIsLost`),
  and an overflow number at the very first draw (`BbulkAgain.OverflowNumberIsLost`); the condition above
  decides these, too.
* Failed swaps. Without damage support, the buffer that the lost frame was drawn to is right in every later
  draw, with a font of single-width glyphs and for any later frames. The other buffer is right if and only if
  it already showed each cell that has not changed since (`BbulkAgain.LostSwapIff`): a lost cell is repaired
  by its first change and by nothing else. For any font, drawing the lost frame again never repairs it
  (`BbulkAgain.LostSwapIsNotRepaired`).
* The pointer on rotated screens. Its sprite is placed without regard to the chrome, so of the cells that it
  lies over none is marked for repainting, and the screen stays settled if and only if the sprite misses the
  terminal altogether (`Bulk.RotatedPointerSettlesIff`); it need not (`Bulk.UpsideDownPointerStrays`).
  `BulkArea.PointerIsDisplaced` says how far the sprite is from where the pointer points.
* Small and turned screens. With the size that setup starts with, the terminal lies on the screen if and only
  if the screen has room for more columns and rows than the chrome and the margins take
  (`BulkArea.SetupFitsIff`). A wide glyph in the last column is cut to one cell, and what is left is its
  second half on screens turned left or upside down (`BulkArea.CutGlyphShowsFirstHalfIff`). The two damage
  rectangles for the chrome cover it on an unrotated screen; upside down they miss a row of it, and on the
  other two they take columns for rows (`BulkArea.ChromeIsDamagedIff`).
* The font table. It knows every glyph if and only if no run of contiguous glyphs of one width is longer
  than a 16-bit counter holds (`Unifont.TableIsCompleteIff`). The file is written past the end of its buffer
  if and only if some glyph has an odd number of digits, and a text of comments only is accepted although the
  code then reads a glyph that is not there (`Unifont.PackGlyphs`, `Unifont.CompileAndLookUp`).
* Bold double-width glyphs. Each half is thickened on its own, so a stroke in column 7 does not reach
  column 8 (`Unfold.AttributesMean`).
* Reopened terminals. Closing a terminal keeps its queue, and opening one over a queue that is not empty
  stops all output (`RingModel.OpenIsSoundIff`, `RingModel.StaleQueueBlocksOutput`); a blocked write before
  closing is enough for that (`RingModel.StaleQueueIsReachable`).
* Quoting. A list of words survives quoting and splitting if and only if it has no empty word
  (`Split.QuotingRoundTripIff`).
* Login jobs. A job of more than 64 arguments or 512 variables is packed, and then refused
  (`HostSession.JobComesBackIff`). A received message is read beyond its end if and only if its header is
  accepted, it has fewer terminators than strings, and its last byte is not one
  (`HostSession.OverrunsIff`, `HostSession.TruncatedJobOverruns`).
* Idle sources. A registration keeps the sources that were there, unless it finds the event counter full
  and is a single one of a source that is registered already: then it takes that one away
  (`IdleSources.RegisterKeepsOthersIff`). The counter is full only after nearly 2^64 registrations that no
  round read, so this is a matter of the code's logic rather than of practice.
* The event loop's documentation allows callbacks any operation (src/shl/eloop.c:107-110), but the code
  reads the loop after every callback. An operation frees the loop if and only if it gives up a reference
  and that is the last one, the owners' and the bound sources' taken together (`EloopModel.OpFreesIff`);
  the dispatcher loses the loop exactly then (`EloopModel.DispatcherLosesLoopIff`), a callback can do
  that (`EloopModel.CallbackFreesLoop`), and an own reference of the dispatcher prevents it
  (`EloopModel.OwnReferenceIsEnough`).

## Model

| member | source | states |
|---|---|---|
| BbulkRun.EveryDrawIff | src/render/bbulk.c:391-493 | In every run whatever, with any frames, failed swaps, resizes, modesets and pointers, each draw equals a full repaint if and only if no cell misses; it blends one glyph for each cell that changed, was damaged, or whose double-width glyph reaches into a damaged cell, and changes no other cell but those that these glyphs run into. |
| BbulkRun.EveryDrawShowsItsFrame | src/render/bbulk.c:391-493 | In every run of frames in which no cell escapes, of failed swaps that the display's damage or a pending redraw covers, and of pointers that mark what their sprites lie over, each draw leaves the back buffer equal to a full repaint of the requested frame. |
| BbulkRun.UndamagedCellsAgree | src/render/bbulk.c:413-437 | Wherever no cell is marked as damaged when a frame is complete, the pointer included, the new back buffer equals the one on screen. |
| BbulkRun.StepKeepsBetween | src/render/bbulk.c:1037-1069 | Every step keeps what the renderer relies on between frames: one buffer shows every stored cell, the other every cell not marked as damaged, with the roles settled by the display's unspent damage. |
| BbulkRun.PrepareSettles | src/render/bbulk.c:1046-1063 | Preparing a frame, by clearing or by carrying damage over, makes the buffer drawn before the one that shows every stored cell, whether or not the last swap succeeded. |
| BbulkRun.CarryOverSettles | src/render/bbulk.c:1057-1063 | Carrying unspent damage over swaps the roles of the two buffers back after a failed swap. |
| BbulkRun.FreshIsBetween | src/render/bbulk.c:152-217 | A renderer just set up satisfies the invariant although its width flags and both buffers are uninitialised. |
| BbulkRun.PointerMarksWhatItTouches | src/render/bbulk.c:829-860 | Every terminal cell that a sprite centred at the pointer touches is marked, so both buffers will repaint it. |
| BbulkRun.PointerKeepsSettled | src/render/bbulk.c:915-949 | A pointer that marks all that its sprite lies over keeps the screen settled. |
| BbulkRun.PointerSettlesIff | src/render/bbulk.c:915-949 | Wherever the sprite is blended, the screen stays settled if and only if each cell under it is marked, or is covered by a double-width glyph whose cell is. |
| BbulkRun.NarrowFontsAlwaysDrawable | src/render/bbulk.c:401-410 | With single-width glyphs no assumption about neighbouring cells is needed. |
| BbulkExact.DrawShowsFrameIff | src/render/bbulk.c:391-470 | The exact condition for a draw to equal a full repaint, for any state before, any font and any frame: no cell is painted that a glyph covers, none is overlaid that none covers, and none is left alone with the wrong content. |
| BbulkExact.OnlyRepaintsPaint | src/render/bbulk.c:413-468 | From any state, a draw blends one glyph for each cell that it paints, and leaves every cell alone that it neither paints nor overlays. |
| BbulkExact.NarrowTwiceIff | src/render/bbulk.c:413-437 | With single-width glyphs, from any grid without left-over flags and for any frame: drawn to one buffer and then to the other, it is shown by the first if and only if that showed the stored undamaged cells, and by the second if and only if that showed the stored cells. |
| BbulkDraw.OnlyBaredCellsMiss | src/render/bbulk.c:401-411 | Where no width flag is left over, a draw of a frame without marks is right if and only if no cell goes blank beside a double-width glyph that is not repainted. |
| BbulkDraw.FrameDrawn | src/render/bbulk.c:472-493 | A draw from a settled state shows the frame and leaves the two buffers settled with exchanged roles. |
| BbulkDraw.EscapedCellIsKept | src/render/bbulk.c:401-410 | The first cell that escapes keeps what the buffer showed before the draw. |
| BbulkDraw.TakenIsSpill | src/render/bbulk.c:401-410 | The overflow branch is taken exactly for the cells that a double-width glyph covers, unless a stale flag misleads it, and a cell that is left alone shows its content in both buffers. |
| BbulkDraw.RepaintShowsIdeal | src/render/bbulk.c:430-470 | Painting every uncovered cell in row order gives each cell its own glyph or the half that covers it. |
| BbulkAgain.ThirdDrawPaintsNothing | src/render/bbulk.c:414-427 | Drawing the same frame a third time blends nothing: damage lasts exactly for the two buffers. |
| BbulkAgain.LostSwapIff | src/video/drm2d_video.c:211-224 | After a swap that is lost without damage support, with single-width glyphs and any frames behind it, the buffer of the lost frame is always right, and the other one if and only if it already showed each cell that has not changed since. |
| BbulkAgain.LostSwapIsNotRepaired | src/video/drm2d_video.c:211-224 | For any font, drawing the lost frame again leaves the other buffer as it was. |
| BbulkAgain.OneFrameIff | src/video/drm2d_video.c:211-224 | For one frame, the law of lost swaps gives the same with single-width glyphs. |
| BbulkAgain.MarksSurviveIff | src/render/bbulk.c:413-437 | With single-width glyphs, when each of the two draws of a frame that may hold either mark's number shows it. |
| BbulkAgain.ShiftedGlyphLeavesHalf | src/render/bbulk.c:401-410 | A double-width glyph that moves one column left leaves half of itself on the screen. |
| BbulkAgain.BaredCellKeepsOldCharacter | src/render/bbulk.c:401-410 | A blank beside an unchanged double-width glyph keeps showing the character it replaced. |
| BbulkAgain.MarkAsCharacterIsLost | src/render/bbulk.c:107-111 | A requested cell that carries the damage mark's number can miss the second buffer. |
| BbulkAgain.MarkBesideWideIsLost | src/render/bbulk.c:413-437 | With a double-width glyph to its left it can do so although it was never stored. |
| BbulkAgain.OverflowNumberIsLost | src/render/bbulk.c:402-411 | A requested cell that carries the overflow mark's number can keep the half of a glyph that is gone. |
| Bulk.Renderer.RedrawScreen | src/terminal.c:514-547 | One round of prepare, draw, pointer, render and swap, in place, is one step of the machine, whatever the frame holds and wherever the pointer is; an admissible step keeps the invariant, and outside the rectangles of the damaged cells both buffers then show the same; `BulkArea` says where on the screen that is. |
| Bulk.OutsideTheBuffersAgree | src/render/bbulk.c:973-1035 | The rectangles tell the display everything that changed: a terminal cell that lies in none of them is the same in the new back buffer and on screen. |
| BulkArea.CellsTileTheTerminal | src/render/bbulk.c:356-379 | In all four orientations, as long as no coordinate wraps around, the areas of the cells tile the card without its chrome: each pixel of it lies in the area of one cell, no two areas share a pixel, and none reaches into the chrome. |
| BulkArea.TerminalOfFitting | src/render/bbulk.c:118-140 | On an unrotated card that lies on the screen, that is all but two columns at either side, five rows above and four below. |
| BulkArea.OverlapIsByPixels | src/render/bbulk.c:356-379 | A cell counts as lying under an area of a glyph's size exactly if that area and the cell's own share a pixel. |
| BulkArea.DamagedPixelsAreCovered | src/render/bbulk.c:990-1012 | No pixel outside the rectangles shows any of a damaged cell. |
| BulkArea.PixelsOutsideAgree | src/render/bbulk.c:973-1035 | After an admissible step, every pixel of the terminal outside the rectangles belongs to a cell that is the same in both buffers. |
| BulkArea.ChromeIsDamagedIff | src/render/bbulk.c:1013-1022 | Which cells of the chrome its two rectangles cover: all of them on an unrotated screen, all but one row upside down, and on the other two just those whose column, counted from the upper edge, is one of the first five, or at least five more than the terminal has rows. |
| BulkArea.CardIsPlaced | src/render/bbulk.c:118-140 | An upright card is centred from left to right; above it there is a fifth of the free lines, but at least a line of text and never more than a third, as far as there is room. |
| BulkArea.PointerIsDisplaced | src/render/bbulk.c:885-913 | Which point of the card the middle of the sprite covers, unless it is clamped: the one pointed at on an unrotated screen only, and on the others one that is off by the columns and rows of the chrome. |
| BulkArea.SetupFits | src/render/bbulk.c:166-181 | On a screen with room for more columns and rows than the chrome and the margins take, the terminal lies on the screen without wraparound, in every orientation and for every size that setup and resizing allow. |
| BulkArea.SetupFitsIff | src/render/bbulk.c:166-181 | With the size that setup starts with, every cell lies on the screen if and only if the screen is that large. |
| BulkArea.GlyphTurnsWithTheCard | src/render/bbulk.c:439-452 | Turning a glyph and placing it, a wide one of a screen turned left or upside down at its second cell, shows each of its pixels exactly where turning the whole upright card would. |
| BulkArea.CutGlyphShowsFirstHalfIff | src/render/bbulk.c:457-463 | A wide glyph cut in the last column shows its first half if and only if the screen is unrotated or turned right, and else its second half. |
| BbulkModel.BlinkingHides | src/render/bbulk.c:472-493 | The requested frame: while blinking just the cells that blink are blanked, in their own look; a visible cursor replaces just the cell under it. |
| BbulkModel.KeptIsNearest | src/render/bbulk.c:927-928 | The pointer is moved to the nearest position that is half a glyph away from the terminal's edges, and not at all if it is at one. |
| Bulk.BorderFits | src/render/bbulk.c:118-140 | A card no larger than the screen lies on it, so that no coordinate wraps around. |
| Bulk.Renderer.Prepare | src/render/bbulk.c:1037-1069 | The two full redraws after a change of colours or a modeset, the carry-over of damage, and the counters. |
| Bulk.Renderer.DrawCell | src/render/bbulk.c:391-470 | The cell's stored content, both flags, the neighbour's damage and the blended area, for every branch. |
| Bulk.Renderer.Draw | src/render/bbulk.c:472-493 | The loops over rows and columns draw the frame that the cursor and blinking make of the screen. |
| Bulk.Renderer.MarkDamaged | src/render/bbulk.c:829-860 | Exactly the cells at the clamped position, right of it, below it and right below it are marked. |
| Bulk.Renderer.DrawPointer | src/render/bbulk.c:915-949 | In all four orientations, the cells around the pointer are marked, and the sprite is blended over the cells whose areas overlap it, after clamping in wrapping 32-bit arithmetic. |
| Bulk.SpriteCoversWhatItTouches | src/render/bbulk.c:875-913 | On an unrotated screen, shifting the pointer by the chrome and clamping it to the card move it over no other cell. |
| Bulk.UnrotatedSpriteIsMarked | src/render/bbulk.c:829-913 | So there the pointer marks all that its sprite lies over, wherever it is. |
| Bulk.RotatedPointerSettlesIff | src/render/bbulk.c:895-907 | On a rotated screen, no cell under the sprite is marked, so the screen stays settled if and only if the sprite lies over no cell. |
| Bulk.UpsideDownPointerStrays | src/render/bbulk.c:895-898 | A pointer on a screen turned upside down is drawn two columns and five rows away from the cells it marks. |
| Bulk.Renderer.ComputeDamage | src/render/bbulk.c:973-1022 | In all four orientations every damaged cell lies in a rectangle, every rectangle but the two of the chrome is bounded on each side by a damaged cell of one row, and the rectangles fit the array. |
| Bulk.Renderer.ComputeRow | src/render/bbulk.c:990-1012 | A row adds at most a quarter as many rectangles as it has columns, rounded up. |
| Bulk.Renderer.MergeDamage | src/render/bbulk.c:959-967 | The last rectangle becomes the smallest one around itself and the new cell. |
| Bulk.RectsFit | src/render/bbulk.c:184-185 | Within the limits of a resize, all rows together need no more rectangles than were allocated. |
| Bulk.Renderer.Resize | src/render/text.c:317-323 | Sizes beyond the allocated maximum are refused, and an accepted one asks for two full redraws and lays the card out anew. |
| Bulk.Renderer.Render | src/render/bbulk.c:1024-1035 | Damage is handed over only to displays that take it, and not after a modeset. |
| Bulk.Display.Swap | src/video/drm2d_video.c:211-224 | A successful swap exchanges the buffers and spends the damage; a failed one changes nothing. |
| Bulk.Display.SetDamage | src/video/drm_shared.c:800-818 | New damage replaces the old, unless the display was just set up, takes no damage, or is given no rectangle. |
| Unifont.CompileAndLookUp | src/font/genunifont.c:223-319 | From the text of the source file to a glyph: a text is refused exactly if it is empty, a line is neither comment nor glyph, or a code point repeats; one without glyphs makes the compiler read a glyph that is not there, and one with an odd number of digits makes it write past its buffer; otherwise, whatever the order of the lines, a code point is found exactly if a line gives it, and with the bytes that the digits of that line spell, two to a byte, the high one first and in either case. |
| Unifont.SpeltIsAccepted | src/font/genunifont.c:256-305 | A text spelt line by line from glyphs, with comments anywhere, is accepted as exactly these glyphs, unless a code point repeats, each listed with the bytes that its digits spell. |
| Unifont.BitmapIsSpelt | src/font/genunifont.c:207-211 | Any digits that spell bytes, two to a byte and of either case, are packed to just these bytes. |
| Unifont.WidthIsCells | src/font/genunifont.c:100-108 | A glyph is as many cells wide as its bytes make columns of 16 lines, if that is one or two, and of no width otherwise. |
| UnifontSource.TextIsRead | src/font/genunifont.c:74-98 | Any list of comments and glyphs, code points in any sufficient number of digits of either case, is read back from its text. |
| UnifontSource.BuildGlyph | src/font/genunifont.c:74-98 | A line gives the number before its first colon and the digits behind it up to the end of the line or a terminator, and none without a colon. |
| UnifontSource.ReadLine | src/font/genunifont.c:256 | A line ends behind its newline, after 253 characters or with the text. |
| Unifont.TableIsCompleteIff | src/font/genunifont.c:129-174 | The table knows every listed glyph if and only if no run of contiguous glyphs of one width overflows its 16-bit counter. |
| Unifont.OverflowLoses | src/font/genunifont.c:148-151 | The glyph that overflows the counter empties the whole block, and its first code point is lost. |
| Unifont.StaysLost | src/font/genunifont.c:148-170 | No later glyph brings a lost code point back. |
| Unifont.GlyphIsLocated | src/font/genunifont.c:129-174 | Every glyph lies in a block, at the distance from its start that the look-up will compute. |
| Unifont.OnlyListed | src/font/genunifont.c:129-174 | No block holds a code point that was not listed. |
| Unifont.BlocksAreOrdered | src/font/genunifont.c:129-174 | Blocks are disjoint and ascending, as the binary search needs them. |
| Unifont.BlockStays | src/font/genunifont.c:147-170 | Once begun, a block keeps its code point, offset and width and only ever grows. |
| Unifont.GlyphList.Insert | src/font/genunifont.c:285-305 | The list stays ascending, gains just the new glyph, and refuses exactly a repeated code point, also through the shortcut at the tail. |
| Unifont.GlyphList.FindPlace | src/font/genunifont.c:285-298 | The place found separates the smaller code points from the others. |
| Unifont.ReadGlyphs | src/font/genunifont.c:242-305 | Reading any text gives the ascending permutation of the glyphs that it lists, or fails exactly if it is empty, a line is none, or a code point repeats. |
| Unifont.GenBlocks | src/font/genunifont.c:129-174 | The loop over the list, in a table that grows by doubling, builds the blocks of the specification. |
| Unifont.PackGlyphs | src/font/genunifont.c:176-221 | For glyphs of any sizes, the file is exactly the block count, the packed blocks and the bitmaps, unless there is no glyph, or one has an odd number of digits: exactly then the buffer is too small. |
| Unifont.SizeIsEnoughIff | src/font/genunifont.c:189-214 | The size computed first is what is written if and only if no glyph has an odd number of digits, and too small otherwise. |
| Unifont.IndexOfPacked | src/font/font_unifont.c:172-186 | Reading the packed index back gives the blocks that were written. |
| Unifont.LookupBlock | src/font/font_unifont.c:91-115 | For ordered blocks and any code point, the search ends, stays inside the index even after a wrapped first probe, and finds a block if and only if one contains the code point. |
| Unifont.FindGlyph | src/font/font_unifont.c:172-197 | Looking up in the packed file returns just the bitmap of a listed code point and nothing for others; the out-of-range branch is never taken. |
| Unfold.NewGlyph | src/font/font_unifont.c:117-156 | Every pixel of the scaled glyph shows the column and line of the bitmap it was scaled from, for any scale and both widths, and no write leaves the buffer. |
| Unfold.AttributesMean | src/font/font_unifont.c:72-84 | Underlining fills the last line; bold thickens every stroke one column to the right, except across the middle of a double-width glyph. |
| Unfold.LinesAreWords | src/font/font_unifont.c:117-156 | Column by column, a line of a wide glyph is the sixteen bits of its two bytes, the first byte on the left, and that of another glyph the eight bits of its byte. |
| Lru.CacheIsRecent | src/shl/lru.h:91-156 | After any history of look-ups the cache holds exactly the most recently used distinct keys, in order. |
| Lru.HitIff | src/shl/lru.h:91-109 | A key is a hit if and only if fewer than the maximum of other keys were used since. |
| Lru.RankCountsOthers | src/shl/lru.h:91-109 | A key's rank in the recency list is the number of distinct keys used after it. |
| Lru.Cache.Get | src/shl/lru.h:91-109 | A hit returns the stored value and moves its key to the front; a miss changes nothing; table and list keep agreeing. |
| Lru.Cache.Evict | src/shl/lru.h:111-131 | The least recently used entry leaves both table and list, and is always found in the table. |
| Lru.Cache.Insert | src/shl/lru.h:133-156 | Inserting after a miss evicts only when full, never exceeds the maximum and never fails. |
| Lru.GlyphCache.FindGlyph | src/render/bbulk.c:318-351 | Whatever was cached or evicted, the glyph is the one that rendering afresh gives, and failures are not cached. |
| Lru.GlyphIdIsInjective | src/font/font.h:80-83 | Two different characters or attributes never share a cache key. |
| Rotate.RotateGlyph | src/render/bbulk.c:254-316 | For any width and height each pixel of the turned glyph is the one the orientation asks for, and no write leaves the buffer. |
| Rotate.RightThenLeft | src/render/bbulk.c:283-313 | Right and left undo each other, in both orders, so rotation loses no pixel. |
| Rotate.TwiceIsUpsideDown | src/render/bbulk.c:283-313 | Two quarter turns to the same side are upside down. |
| Rotate.TurnsAgree | src/render/bbulk.c:283-313 | Two turns to the right, two to the left and one upside down give the same glyph, and three to the right the same as one to the left. |
| Rotate.FourTurns | src/render/bbulk.c:283-313 | Four turns to the same side give the glyph back. |
| Blend.DrawBlend | src/video/drm2d_render.c:44-118 | Exactly the pixels of the request, clipped to bitmap and screen, are blended, the row padding stays, and requests that start outside or wrap around are refused unchanged. |
| Blend.ShiftDivides | src/video/drm2d_render.c:81-106 | The shift trick equals division by 255 rounded to nearest for every sum of two weighted channels, and stays in 0 to 255. |
| Blend.MixedIsNearest | src/video/drm2d_render.c:81-109 | Each channel of the mixture is the integer nearest to the mean that weighs the foreground with the mask; it lies between the two, and exchanging them inverts the mask. |
| Blend.PixelHoldsChannels | src/video/drm2d_render.c:86-109 | A pixel holds the mixed red in its third byte, green in its second and blue in its lowest. |
| Blend.BlendPixel | src/video/drm2d_render.c:86-109 | The three branches compute the same mixture of foreground and background. |
| DList.List.LinkAt | src/shl/dlist.h:62-69 | Linking between two neighbours inserts at that position and keeps the ring consistent in both directions. |
| DList.List.Unlink | src/shl/dlist.h:81-92 | Unlinking removes just that node, reconnects its neighbours and clears its pointers. |
| DList.List.MoveToFront | src/shl/lru.h:102-106 | Unlinking and linking again at the front permutes the list as a cache hit needs. |
| HookModel.AlwaysSafe | src/shl/hook.h:84-227 | At every moment of every run with adversarial callbacks the cursor is a linked entry or the sentinel, the count equals the linked entries and a oneshot in flight, no entry is called after its removal, and nothing is released twice. |
| HookModel.CallIsComplete | src/shl/hook.h:200-227 | When a call ends, each entry that was there at its start ran exactly once and in order, unless it was removed; entries added meanwhile ran too, unless the last one was running already. |
| HookModel.OneshotRunsOnce | src/shl/hook.h:210-220 | Over a whole run, whatever callbacks do, a oneshot entry is called at most once, and is gone once it was. |
| HookRuns.RegisteredIsWhatRuns | src/shl/hook.h:113-131 | A registration links one entry, behind all others, and whatever ever runs under its id has the callback, the data and the oneshot flag that were asked for. |
| HookRuns.CalledWasRegistered | src/shl/hook.h:113-153 | Behind every callback that starts there is an earlier registration of just this callback, data and flag. |
| HookRuns.RegisteredIsCalled | src/shl/hook.h:200-227 | A callback registered for good stays linked until it is removed, and every whole call that begins after the registration calls it exactly once, unless it was removed by then. |
| HookRuns.OneshotIsCalledOnce | src/shl/hook.h:210-220 | A callback registered as a oneshot one is called at most once in the whole run. |
| HookRuns.OneshotIsGoneAfterCall | src/shl/hook.h:210-220 | Once a whole call that began after its registration has passed, it was called exactly once or removed, and is never linked again. |
| HookRuns.WholeCallCallsOnce | src/shl/hook.h:200-227 | No whole call calls an entry twice, and it calls each that was linked when it began, unless that is removed meanwhile. |
| HookRuns.SingleIsNotDoubled | src/shl/hook.h:133-153 | A single registration of what is linked already, whatever its oneshot flag, and any registration of a null callback change nothing. |
| HookRuns.RmTakesLast | src/shl/hook.h:155-176 | Of all matching entries the last one is taken away and no other, and without one nothing changes. |
| HookRuns.RmAllLeavesOthers | src/shl/hook.h:178-198 | Just the entries that do not match are left, in their order. |
| HookModel.FreedInCallIsReleasedAtItsEnd | src/shl/hook.h:84-103 | A hook freed by its own callback lives until the call ends and is then released exactly once. |
| HookModel.StepKeepsInv | src/shl/hook.h:113-227 | Every operation, wherever it happens, keeps the invariant behind these results. |
| Hooks.ShlHook.Call | src/shl/hook.h:200-227 | The loop itself, with callbacks that run any list of operations, ends, calls each initial entry unless removed, in order, and releases the hook just if it was freed. |
| Hooks.ShlHook.RmAll | src/shl/hook.h:178-198 | All matching entries go, from the back, and a running call is moved past them. |
| Hooks.ShlHook.Rm | src/shl/hook.h:155-176 | Only the last matching entry goes, and a running call is moved past it. |
| Hooks.ShlHook.AddSingle | src/shl/hook.h:133-153 | The search ends, and an entry is added, as asked for, exactly if none with this callback and data is linked. |
| IdleSources.NoIdleSourceIsLost | src/shl/eloop.c:517-544 | Between rounds the counter is positive while an idle source is registered, and the round that reads it calls every source not removed meanwhile. |
| IdleSources.IdleStepKeeps | src/shl/eloop.c:2290-2339 | Registrations, removals and oneshots inside and outside idle callbacks keep the counter positive as long as needed. |
| IdleSources.RegisterKeepsOthersIff | src/shl/eloop.c:2299-2312 | A registration keeps all sources that were there, unless the counter is full, the registration is a single one and the source is registered already. |
| IdleSources.FailedSingleForgets | src/shl/eloop.c:2299-2312 | In that case just one source is lost. |
| EloopModel.RemovedIsNeverServed | src/shl/eloop.c:808-826 | In every run, whatever callbacks do, a slot that is read names a live, bound source that was not removed since the loop waited, and no source is called after its removal. Callbacks may give up the last reference; the run ends then, as `DispatcherLosesLoopIff` says. |
| EloopRuns.ServedIff | src/shl/eloop.c:808-823 | In every run, a slot that is read is served, if it is the loop's own, always, if it names a source, exactly if that has a callback and is enabled at that moment, and, if it was cleared, never. |
| EloopRuns.EveryReportIsServed | src/shl/eloop.c:804-840 | Whatever the callbacks of a round do, the slot of each reported source is read, and by the end of the round the source was called exactly once if by then the slot still held it, it had a callback and was enabled, and else not at all; the slot holds it unless the source was flushed or removed in between. |
| EloopRuns.OnlyReportedIsServed | src/shl/eloop.c:804-840 | A source that was not reported is not called in the round. |
| EloopRuns.OpTakesBack | src/shl/eloop.c:734-745 | No operation calls a source, and none takes a pending event back but flushing its source or removing it, as the release of a signal and of the loop do, too. |
| EloopModel.ReferencesAreCounted | src/shl/eloop.c:1369-1428 | At every moment the loop's references are its owners and its bound sources, and each source's are its holders and the loop. |
| EloopModel.OpFreesIff | src/shl/eloop.c:685-723 | An operation frees the loop if and only if it gives up a reference and the owners and the bound sources together have no other: the exact condition for every operation that drops one. |
| EloopModel.DispatcherLosesLoopIff | src/shl/eloop.c:782-851 | In every run the loop is gone under its dispatcher exactly after a callback's operation of that kind. |
| EloopModel.OwnReferenceIsEnough | src/shl/eloop.c:107-110 | While one more owner than the operation gives up remains, no operation frees the loop. |
| EloopModel.CallbackFreesLoop | src/shl/eloop.c:107-110 | A run in which a callback gives the only reference back and the dispatcher goes on without a loop. |
| EloopModel.LastReferenceLeavesNothing | src/shl/eloop.c:685-723 | A step that frees the loop finds no shared signal and no child callback except the one it removes itself. |
| EloopModel.UnrefFindsNothing | src/shl/eloop.c:699-707 | The clean-up of signals and children on the last reference never has anything to do. |
| EloopModel.StepKeepsInv | src/shl/eloop.c:782-851 | Every step of a round and every allowed operation keeps references, signals, children and pending events consistent. |
| EloopModel.UnregisterChildKeeps | src/shl/eloop.c:2259-2267 | The loop stays registered for SIGCHLD exactly while somebody waits for children, also when a child callback unregisters. |
| Eloop.EvLoop.Dispatch | src/shl/eloop.c:782-851 | A round with adversarial callbacks keeps the invariant and never serves a removed source, ends unless a callback frees the loop, says so exactly if one does, and a nested round is refused without effect. The sources it says were called are those of its log, in order; and where callbacks do nothing, just the reported sources that have a callback, in the order of the report. |
| Eloop.EvLoop.ServeSlot | src/shl/eloop.c:812-825 | One slot: its source is called exactly if it has a callback and is enabled, the loop's own always, and a cleared one never. |
| Eloop.EvLoop.RmFd | src/shl/eloop.c:1402-1428 | Removing a source clears its pending events during a round, drops both references and frees what nobody refers to. |
| Eloop.EvLoop.Unref | src/shl/eloop.c:685-723 | Dropping the last reference unregisters, frees the shared signals and then the loop, through the recursion of the code. |
| Eloop.EvLoop.FlushEvents | src/shl/eloop.c:734-745 | Exactly the pending events of the source are cleared, and only during a round. |
| Eloop.EvLoop.Round | src/shl/eloop.c:804-840 | The array of pending events takes no more than fits, and doubles exactly when it was filled. |
| Eloop.EvLoop.UnregisterSignal | src/shl/eloop.c:2202-2220 | One callback goes, and the shared signal with it when it was the last. |
| RingModel.StreamIsPreserved | src/misc/pty.c:395-605 | For any interleaving of writes, partial or blocked kernel writes and drains within one open, sent bytes followed by queued bytes are the accepted bytes in order, and queued bytes have write events asked for. |
| RingModel.DrainedMeansSent | src/misc/pty.c:395-419 | When no write events are asked for, everything accepted has been sent. |
| RingModel.OpenIsSoundIff | src/misc/pty.c:521-572 | Opening a terminal keeps these promises if and only if its queue is empty, since closing does not flush it. |
| RingModel.StaleQueueBlocksOutput | src/misc/pty.c:574-605 | Over a stale queue no write ever reaches the descriptor again until a reader gives up. |
| RingModel.StreamOverStale | src/misc/pty.c:395-605 | Over whatever queue a terminal was opened, sent bytes followed by queued bytes are the old queue followed by the accepted bytes, until it is opened again. |
| RingModel.StaleQueueIsReachable | src/misc/pty.c:521-605 | Opening, a blocked write, closing and opening again lead to an open terminal with a queue that nobody waits for. |
| RingModel.WriteAppends | src/shl/ring.h:92-131 | Writing appends exactly the bytes and keeps every chunk between 1 and 512 bytes. |
| RingModel.PeekSees | src/shl/ring.h:133-156 | Peeking sees the bytes at the offset, and nothing only past the end. |
| RingModel.DropRemoves | src/shl/ring.h:158-183 | Dropping takes just that many bytes off the front. |
| Ring.Queue.Write | src/shl/ring.h:92-131 | The linked chunks on the heap hold what the specification says after filling up and extending the list. |
| Ring.Queue.Peek | src/shl/ring.h:133-156 | The walk over the chunks returns the contiguous piece at the offset. |
| Ring.Queue.Drop | src/shl/ring.h:158-183 | Whole chunks are unlinked and the rest of the first one is moved to its front. |
| Ring.Terminal.Write | src/misc/pty.c:574-605 | A write goes directly to the descriptor only while nothing is queued, queues the rest, and fails only if nothing was accepted. |
| Ring.Terminal.SendBuf | src/misc/pty.c:395-419 | Draining sends in order until the descriptor blocks, and stops asking for write events only when the queue is empty. |
| Ring.Terminal.ReadBuf | src/misc/pty.c:444-453 | A reader that gives up asks for write events again exactly if bytes are queued. |
| Split.SplitCommand | src/shl/misc.h:177-384 | A command is accepted exactly if its quotes close and no backslash ends it; the filling pass produces the counted words inside the counted bytes, and they are the words of the quoting grammar, which `SplitGrammar` characterises. |
| Split.Count | src/shl/misc.h:191-266 | The counting pass finds exactly the number and the size of the grammar's words. |
| Split.Fill | src/shl/misc.h:272-378 | The filling pass fills exactly the allocation it was given. |
| SplitGrammar.WrittenIsRead | src/shl/misc.h:177-384 | Whatever is written is read: words whose parts are plain characters, characters behind a backslash, and text in single or double quotes, in any mixture and with any blanks between, come back without the empty ones; a command that ends in an open quote or with a lone backslash is refused. |
| SplitGrammar.SplitIff | src/shl/misc.h:177-384 | For every string and list: the string is split into just that list if and only if it can be written so. |
| SplitGrammar.RefusedIff | src/shl/misc.h:177-384 | A string is refused if and only if it ends in an open quote of either kind or with a backslash that has nothing behind it. |
| Split.SplitOfRender | src/shl/misc.h:177-384 | Splitting the double-quoted rendering of any words gives the words back without the empty ones. |
| Split.QuotingRoundTripIff | src/shl/misc.h:177-384 | A list survives quoting and splitting if and only if it has no empty word. |
| Split.EmptyWordIsDropped | src/shl/misc.h:196-203 | The list of one empty word comes back empty. |
| Split.SizeIsBounded | src/shl/misc.h:191-266 | The buffer needs at most one byte more than the command. |
| Split.SplitString | src/shl/misc.h:118-172 | The result is the plain split with empty pieces kept or dropped, the loop that never tests for the end of input ends, and joining the kept pieces restores the input. |
| Split.PiecesIff | src/shl/misc.h:118-172 | The pieces are the only list of strings without a separator that joins to the input. |
| Split.FillPieces | src/shl/misc.h:153-166 | The filling loop meets exactly the pieces that were counted. |
| Conf.ParseBuffer | src/misc/conf.c:486-508 | For every buffer, terminators inside it included, the in-place parser ends and makes exactly the option calls of the simple reading, up to the first hard error; without one, the options that ask for a check are then checked in order, up to the first that fails. |
| Conf.ChecksAreThose | src/misc/conf.c:498-505 | An option is checked after the last line exactly if it asks for it. |
| Conf.ReadLine | src/misc/conf.c:392-484 | One line yields the pair of its simple reading, and nothing behind the line is changed. |
| Conf.EndPiece | src/misc/conf.c:414-456 | The scans stop only at a newline, a hash, an equals sign or the end, so neither error branch is reached. |
| Conf.StripSpaces | src/misc/conf.c:372-390 | The string is trimmed in place and no byte outside it is written. |
| Conf.CutsAgree | src/misc/conf.c:404-462 | Cutting while scanning agrees with removing the comment first and then splitting at the first equals sign. |
| Conf.TrimIsTheMiddle | src/misc/conf.c:372-390 | A trimmed text is the original without the blanks at both ends and nothing else. |
| ConfText.FileIsRead | src/misc/conf.c:392-484 | Written lines, each with a key, perhaps an equals sign and a value, perhaps a comment, and blanks anywhere around these, are read back as just these keys and values in order; lines without a key mean nothing. |
| Conf.LockedIsLeftAlone | src/misc/conf.c:321-370 | Options locked by the command line are never changed by a file, and every call was asked for by a pair of the file: of the first option that answers to its key, set unless the key is the form with "no-", and with its value. |
| Conf.ResolveMeans | src/misc/conf.c:321-370 | A pair leads to a call exactly if it asks for one, and is refused exactly if no option answers to its key, or an option that does not read files itself lacks an argument or has one too many. |
| Json.ParseString | src/misc/asciinema.c:98-200 | For every text, decoding stops at the quote that the first scan found, the output never outgrows the allocation, and the only error is EINVAL. |
| Json.DecodeMatchesScan | src/misc/asciinema.c:110-185 | Decoding ends where the scan ended, and no longer than what it read. |
| Json.ItemMatchesScan | src/misc/asciinema.c:125-184 | Each escape, a surrogate pair included, takes exactly the characters the scan steps over and produces no more bytes than that. |
| Json.TextSurvives | src/misc/asciinema.c:98-200 | Any Unicode text, each character written as it is, as a short escape or as hexadecimal digits of either case with surrogate pairs, comes back as its UTF-8. |
| Json.DecodeOfWritten | src/misc/asciinema.c:123-190 | Any sequence of valid pieces is read as what the pieces mean, whatever stands around it. |
| HostSession.OverrunsIff | src/misc/host_session.c:231-276 | For every message, unpacking reads beyond its end if and only if the header is accepted, there are fewer terminators than strings, and the last byte is not one. |
| HostSession.TruncatedJobOverruns | src/misc/host_session.c:231-276 | A job of 13 bytes, cut off before its terminator, makes it read on. |
| HostSession.UnpacksIff | src/misc/host_session.c:231-276 | For every message: it unpacks to two lists exactly if it starts with their packed job and their numbers are in range. |
| HostSession.JobComesBackIff | src/misc/host_session.c:184-276 | A packed job gives the same lists back for 1 to 64 arguments and up to 512 variables, and is refused beyond. |
| HostSession.PackJob | src/misc/host_session.c:184-229 | The message is the header and all strings with their terminators; without arguments it is refused. |
| HostSession.Packer.AppendCstr | src/misc/host_session.c:164-182 | The string is appended, the length never exceeds the capacity, and the capacity grows to 256 or to less than twice what is needed. |
| HostSession.Packer.Finish | src/misc/host_session.c:209-224 | Moving the body up by the header's size overlaps itself and still keeps every byte. |
| HostSession.UnpackJob | src/misc/host_session.c:231-276 | For every buffer and length, the walk over the strings accepts, refuses or runs over the end exactly as the specification does, and only the message's own bytes decide which. |
| Memory.MemMove | src/misc/host_session.c:218 | An overlapping move arrives whole in either direction. |

## Left out

- BbulkRun.EveryDrawShowsItsFrame: assumes that every glyph can be rendered; the return in the middle of a cell when memory runs out is not modelled.
- Bulk.Renderer.RedrawScreen: what is shown of a sprite or a cell that reaches over the screen's edge is left to `Blend`, the creation of the damage blob always succeeds, the legacy page flip is not part of the model, and nothing is drawn while a swap is pending.
- Bulk.Renderer.DrawCell: pixels of a cell are one value per cell area, so where inside a glyph a pixel lies is left to `Rotate`, `Unfold` and `Blend`.
- BulkArea.SetupFitsIff: screens have fewer than 2^28 pixels in either direction, and room for one cell.
- BulkArea.ChromeIsDamagedIff: is about where the chrome's cells lie from top to bottom, the rectangles being as wide as the screen.
- Bulk.Renderer.ComputeDamage: assumes that the display takes rectangles as they are; rows two beyond the terminal are included as in the code.
- HookModel.AlwaysSafe: the list is a sequence with entry identities; `DList` proves that linking and unlinking do the same to pointers.
- EloopModel.RemovedIsNeverServed: one loop; nested loops, timers, counters and the exit flag are users of the operations modelled here, and the kernel's calls do not fail except for an interrupted wait.
- Eloop.EvLoop.Dispatch: a round is broken off, and says so, when the loop is freed or an operation is none that a user may do; sources live in a map by address, so that freeing and the reuse of addresses can be stated.
- IdleSources.NoIdleSourceIsLost: reading the counter does not fail, and no error condition is reported for it.
- Lru.Cache.Insert: assumes a miss, as its only caller guarantees.
- Lru.Cache.Get: the hash table is a function from keys to buckets with chains; its growth is not modelled.
- Unifont.CompileAndLookUp: zlib is taken for an exact inverse, glyphs fit the file format's counters and do not overflow a block's, and nothing is said about tables with glyphs of an even number of digits other than 32 and 64.
- UnifontSource.BuildGlyph: a code point of more than 32 bits wraps around, although the code computes it in a signed int, for which C leaves the result open.
- Unifont.GlyphList.Insert: the singly linked list is a sequence.
- Unfold.NewGlyph: the font's size is 8 by 16 times the scale, as its initialisation makes it.
- Split.SplitCommand: strings are shorter than the 32-bit counters can count.
- Conf.ParseBuffer: reading the file into memory is not modelled; option callbacks and checks answer as they like.
- Json.ParseString: the UTF-8 encoder is a parameter of at most three bytes in the Basic Multilingual Plane and four beyond; events, delays and playback are not modelled.
- HostSession.UnpackJob: what is found behind the message when the walk runs over its end is not modelled.
- HostSession.PackJob: both sides store words with the low byte first, and lists have fewer than 2^32 members.
- Blend.DrawBlend: pixels are addressed as words, the stride being a multiple of four bytes.
- RingModel.StreamIsPreserved: reading from the terminal is modelled only where it changes the event mask.
- Running out of memory, error numbers, logging and assertions.
- DRM and KMS calls, EGL, fbdev, udev, libseat, D-Bus, netlink, process creation and sockets.
- libtsm, xkbcommon, freetype, pango and zlib.
- Chrome painting, logos, colours, the OpenGL renderer and its textures.
- Terminal and seat mode flags, the status readers, input handling and the module registry.
- Copying options between configuration contexts, option types and command-line parsing.
