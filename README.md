# Terminal video player: rendering and playback core

This project is a Dafny model of the rendering and playback core of
`terminalplayer.py`, a Python program that plays a video as coloured glyphs in a
terminal, or converts it into a video of glyph images. The model covers five parts.

- **Playback controls** (`player_state.dfy`, module `PlayerControl`). This is the
  shared `PlayerState`: paused, running and a speed multiplier clamped to
  [0.1, 5.0]. It also covers the keyboard callback `on_press`, which maps keys to
  pause, quit, speed-up (×1.2, at most 3.0) and slow-down (÷1.2, at least 0.3).
- **Glyph mapper** (`glyph_mapper.dfy`, module `GlyphMapper`). This is
  `render_frame` from the resized RGB raster on. It computes the output height
  `int(width * h / w * 0.5)`, the BT.601 luma brightness, and the quantised index
  into the chosen character set. It builds the grid of (glyph, colour) cells with
  the source's nested loops.
- **Frame cache** (`frame_cache.dfy`, module `FrameCache`). This is the reading
  loop of `pre_render_video`. It keeps the non-empty renderings in order and
  records the first height. It stops at the end of the video or after 5000 frames
  read. The module also covers the tuple handed to `run_player`.
- **Differential compositor** (`compositor.dfy`, module `Compositor`). This is
  the update block of `play_video`, over a `prev_frame` screen held in an
  `array2<char>`. For each cell whose glyph changed, in row-major order, it emits
  a cursor move and a coloured glyph, and it records the glyph on the screen.
  The escape sequences are built from the decimal text in `numerals.dfy`
  (module `Numerals`).
- **Raster layout** (`raster.dfy`, module `Raster`). This covers `ascii_to_image`
  and `_draw_character` of the converter, as lists of drawing commands. The image
  is given meaning by a painter: a pixel shows the colour of the last filled
  rectangle that covers it.

Where code changes state, the model does too. `PlayerState` and `KeyboardHandler`
are classes. `RenderFrame`, `PreRender` and `Compositor.Scanned` (the loops of `Composite`) are methods with loops.
Each of these is proved against a specification function, and the properties
are proved about that function. The arithmetic, the key mapping and the raster
layout are pure functions.

Three behaviours of the code are easy to misread, and the model follows the code.
- The output height is truncated by `int()` (terminalplayer.py:241), not rounded.
- The 5000 limit counts frames read, not frames cached (terminalplayer.py:455-461).
- A reported frame count below 1 is refused (terminalplayer.py:405-410), although
  the count is otherwise used only for the progress display.

## Model

| member | source | states |
|---|---|---|
| PlayerControl.ClampSpeed | terminalplayer.py:124-126 | the clamped speed lies in [0.1, 5.0], equals the request when that is in range, and is the nearer bound otherwise |
| PlayerControl.SetSpeedClamps | terminalplayer.py:124-126 | setting a speed gives max(0.1, min(5.0, s)) and leaves pause and running as they were |
| PlayerControl.TogglePauseTwice | terminalplayer.py:116-118 | toggling pause twice restores the state |
| PlayerControl.PlayerState.constructor | terminalplayer.py:110-114 | a new state is not paused, is running, and has speed 1.0 |
| PlayerControl.PlayerState.TogglePause | terminalplayer.py:116-118 | flips is_paused only, and keeps the speed in range |
| PlayerControl.PlayerState.Stop | terminalplayer.py:120-122 | clears is_running only |
| PlayerControl.PlayerState.SetSpeed | terminalplayer.py:124-126 | stores the clamped speed only |
| PlayerControl.Press | terminalplayer.py:137-154 | in the corrected dispatch, exactly 'q' and Esc end the listener, and they stop the player; exactly 'p', ' ' and Space flip pause; only 'f' and 's' change the speed |
| PlayerControl.PressAsWritten | terminalplayer.py:137-154 | as written, only 'q' ends the listener and only 'p' and ' ' flip pause, so Esc and Space do nothing; only 'q' changes is_running |
| PlayerControl.KeyboardHandler.OnPress | terminalplayer.py:137-154 | the new state, and whether the listener keeps running, are those of the corrected key dispatch `Press` applied to the old state; the speed stays in range (as written, Space and Esc do nothing: `PressAsWritten`) |
| PlayerControl.PauseKeys | terminalplayer.py:140-151 | in the corrected dispatch, 'p', ' ' and Space toggle pause, change nothing else, and keep the listener running (as written, Space does nothing) |
| PlayerControl.QuitKeys | terminalplayer.py:142-154 | in the corrected dispatch, 'q' and Esc stop playback, change nothing else, and end the listener (as written, Esc does nothing) |
| PlayerControl.SpeedUpKey | terminalplayer.py:145-146 | 'f' sets the speed to min(3.0, speed × 1.2), never above 3.0, and never lowers a speed of at most 3.0 |
| PlayerControl.SlowDownKey | terminalplayer.py:147-148 | 's' sets the speed to max(0.3, speed / 1.2), never below 0.3, and never raises a speed of at least 0.3 |
| PlayerControl.OtherKeysIgnored | terminalplayer.py:137-154 | every key outside the table leaves the state unchanged and the listener running |
| PlayerControl.PressInvariant | terminalplayer.py:124-154 | no key press takes the speed out of [0.1, 5.0] or restarts a stopped player |
| PlayerControl.DeliverInvariant | terminalplayer.py:137-157 | over any sequence of key presses, the speed stays in range and a stop is never undone |
| PlayerControl.QuitEndsDelivery | terminalplayer.py:142-157 | after a quit key, later keys have no effect, and the player is stopped |
| PlayerControl.RepeatedSpeedUp | terminalplayer.py:145-146 | any number of 'f' presses stays within the range and at most 3.0, never lowers a speed of at most 3.0, and leaves pause and running alone |
| PlayerControl.RepeatedSlowDown | terminalplayer.py:147-148 | any number of 's' presses stays within the range and at least 0.3, never raises a speed of at least 0.3, and leaves pause and running alone |
| PlayerControl.SpecialKeysIgnoredAsWritten | terminalplayer.py:138-154 | as written, Esc neither stops playback nor ends the listener, and Space does not pause; the corrected dispatch does both |
| PlayerControl.AsWrittenAgreesOnCharKeys | terminalplayer.py:138-148 | as written and corrected, the dispatch agrees on every key that has a character |
| GlyphMapper.CharSet | terminalplayer.py:256 | every set has at least two glyphs, and an unknown name selects "detailed" |
| GlyphMapper.TruncDiv | terminalplayer.py:241 | the quotient rounds toward zero: below the exact value for n ≥ 0 and above it for n < 0, by less than one |
| GlyphMapper.OutputHeight | terminalplayer.py:239-241 | for a non-negative width, h is the largest integer with h × 2w ≤ width × h_frame; for a width ≤ 0, h ≤ 0 |
| GlyphMapper.SquareFrameHeight | terminalplayer.py:239-241 | a square frame rendered 4 glyphs wide is 2 rows tall |
| GlyphMapper.Brightness | terminalplayer.py:268 | the brightness is the integer part of the luma (299r + 587g + 114b) / 1000 |
| GlyphMapper.GlyphIndex | terminalplayer.py:269 | the index is below the set size and is the integer part of v / 255 × (n − 1) |
| GlyphMapper.MapPixel | terminalplayer.py:268-276 | the glyph is the one at position i of the set with 255 i ≤ v (n − 1) < 255 (i + 1) for the brightness v; the colour is the pixel's with colour on and a grey with it off |
| GlyphMapper.RenderFrame | terminalplayer.py:230-284 | the result is ([], 0) exactly when the frame width is 0 or the height is ≤ 0; otherwise it has the computed height of rows, each `width` cells long, and each cell maps its pixel |
| GlyphMapper.BrightnessMonotone | terminalplayer.py:268 | brightness does not decrease when any channel increases |
| GlyphMapper.BrightnessExtremes | terminalplayer.py:268 | black has brightness 0 and white has 255 |
| GlyphMapper.BrightnessOfGray | terminalplayer.py:268 | a grey pixel's brightness is its grey level, under exact luma arithmetic |
| GlyphMapper.GlyphIndexMonotone | terminalplayer.py:269 | the glyph index does not decrease as brightness increases |
| GlyphMapper.GlyphIndexExtremes | terminalplayer.py:269-270 | brightness 0 picks the first glyph and 255 the last |
| GlyphMapper.MapPixelMonotone | terminalplayer.py:268-270 | a pixel that is brighter in every channel never gets an earlier glyph |
| GlyphMapper.ColorizeOnlyChangesColor | terminalplayer.py:268-276 | the glyph does not depend on the colour flag; the colour is the pixel's with colour on, and the brightness grey with it off |
| GlyphMapper.MinimalSet | terminalplayer.py:101 | the "minimal" set is five glyphs, from a space through ▒ to █ |
| GlyphMapper.MinimalBlack | terminalplayer.py:268-276 | with the "minimal" set and colour off, black becomes a space |
| GlyphMapper.MinimalWhite | terminalplayer.py:268-276 | with the "minimal" set and colour off, white becomes █ |
| GlyphMapper.MinimalMidGray | terminalplayer.py:268-276 | with the "minimal" set and colour off, grey 128 becomes ▒, under exact luma arithmetic |
| Numerals.Decimal | terminalplayer.py:561 | the decimal text of a number is non-empty, all digits, and has no leading zero |
| Numerals.ParseDecimalRoundTrip | terminalplayer.py:561 | reading back the decimal text of n gives n |
| Numerals.DecimalInjective | terminalplayer.py:561 | different numbers have different decimal texts |
| FrameCache.FramesRead | terminalplayer.py:455-461 | the loop reads all the frames, or exactly 5000 when there are more |
| FrameCache.Cached | terminalplayer.py:450-451 | the cache is no longer than the results it is built from, and holds no empty frame |
| FrameCache.FirstHeight | terminalplayer.py:450-453 | the recorded height is never negative |
| FrameCache.FirstHeightIsFirst | terminalplayer.py:450-453 | the recorded height is 0 exactly when no result has rows and a positive height; otherwise it is the height of the first such result |
| FrameCache.EffectiveFps | terminalplayer.py:404 | the frame rate is never 0: a non-zero report is kept and 0 becomes 30 |
| FrameCache.PreRender | terminalplayer.py:395-493 | a capture that cannot be opened, or whose frame count is below 1, fails with the matching reason; otherwise the cache is built from the first min(n, 5000) frames, and an empty cache fails; a success carries the cache, the width, the first height and the frame rate (30 when reported as 0), with 1 to 5000 frames |
| FrameCache.CachedIsNonEmptySubsequence | terminalplayer.py:441-453 | the cache is the in-order subsequence of the non-empty results: entry k is the k-th non-empty result, positions increase strictly, and position i is used exactly when result i is non-empty |
| FrameCache.EmptyPrefixFails | terminalplayer.py:450-461 | if none of the first 5000 frames renders, the cache is empty, whatever later frames would give |
| FrameCache.LongVideoIsCut | terminalplayer.py:450-461 | a video of 5000 or more frames that all render gives exactly 5000 cached frames |
| FrameCache.TargetHeightOfFirstFrame | terminalplayer.py:450-453 | the recorded height is the row count of the first cached frame, and it is positive |
| FrameCache.ReturnedAsWritten | terminalplayer.py:401 | as written, every failure returns 4 values and a success returns 5 |
| FrameCache.Returned | terminalplayer.py:493 | the corrected tuple always has 5 values |
| FrameCache.FailureEndsAppAsWritten | terminalplayer.py:606 | as written, unpacking a failure's 4 values into 5 names ends the application |
| FrameCache.RunPlayer | terminalplayer.py:606-609 | a tuple that is not 5 long ends the application; a 5-tuple with a false flag returns to the menu; playback gets exactly the frames, width, height and frame rate of the tuple |
| FrameCache.RunPlayerPlaysIffPrepared | terminalplayer.py:606-609 | with 5 values, a failure returns to the menu, and playback starts exactly for a built cache, with its frames, width, height and frame rate |
| FrameCache.ReturnedAgreesOnSuccess | terminalplayer.py:493 | the corrected tuple differs from the original only on failure |
| Compositor.NewScreen | terminalplayer.py:524 | the screen starts as height × width spaces |
| Compositor.CursorTo | terminalplayer.py:561 | a cursor move starts with ESC [ and ends with H |
| Compositor.CursorToReadsBack | terminalplayer.py:561 | the two fields of a cursor move, before and after its ';', read back as y + 1 and x + 1 |
| Compositor.PaintCell | terminalplayer.py:563 | a paint directive starts with ESC [38;2; and ends with m and the cell's glyph |
| Compositor.PaintCellReadsBack | terminalplayer.py:562-563 | the three fields of a paint directive, separated by ';' and closed by 'm', read back as the cell's red, green and blue |
| Compositor.ChangedCells | terminalplayer.py:558-560 | a cell is listed exactly when its glyph differs from the screen, and the list is strictly increasing in row-major order |
| Compositor.Composite | terminalplayer.py:557-564 | the output is the directives for the changed cells of the old screen, and the new screen is the frame's glyphs laid over the old one |
| Compositor.Scanned | terminalplayer.py:558-564 | the nested loops emit, cell by cell in row-major order, the output of every cell, and leave every scanned cell holding the frame's glyph |
| Compositor.DrawFrame | terminalplayer.py:557-564 | a frame with a cell below or to the right of the screen writes nothing and ends playback; rows without cells index nothing and may lie below the screen; otherwise the result is Composite's |
| Compositor.EmptyRowsFit | terminalplayer.py:558-560 | adding rows without cells below a frame never makes it too large for the screen |
| Compositor.CompositeCell | terminalplayer.py:559-564 | one cell adds its cursor move and glyph only if its glyph changed, and records the glyph on the screen |
| Compositor.Directives | terminalplayer.py:561-563 | each changed cell adds exactly two strings |
| Compositor.DirectivesAt | terminalplayer.py:561-563 | string 2k moves the cursor to the k-th changed cell, and string 2k + 1 paints that cell in its colour |
| Compositor.Overlay | terminalplayer.py:564 | the screen keeps its dimensions |
| Compositor.EmittedIsDirectives | terminalplayer.py:557-564 | what the scan has emitted up to any position is the directives for the changed cells it has passed |
| Compositor.ScanSound | terminalplayer.py:558-560 | every listed cell has a changed glyph and lies before the scan position |
| Compositor.ScanComplete | terminalplayer.py:558-560 | every changed cell before the scan position is listed |
| Compositor.ScanOrdered | terminalplayer.py:558-559 | cells are listed strictly in row-major order, so none is listed twice |
| Compositor.UnchangedEmitsNothing | terminalplayer.py:560 | a frame whose glyphs all match the screen emits nothing |
| Compositor.RedrawIsIdle | terminalplayer.py:557-564 | drawing the same frame a second time emits nothing |
| Compositor.OverlayCoversScreen | terminalplayer.py:564 | when the frame covers the screen, the new screen is exactly the frame's glyphs |
| Compositor.FirstFrameDrawsNonBlank | terminalplayer.py:524-564 | on the blank start screen, the first frame draws exactly its non-space cells |
| Compositor.CursorToInjective | terminalplayer.py:561 | different cells get different cursor moves |
| Raster.AsciiToImage | terminalplayer.py:789-809 | no data draws nothing; data whose first row is empty is a division by zero; otherwise the data is drawn |
| Raster.DrawCharacter | terminalplayer.py:815-842 | every glyph draws at least one command; exactly the block glyphs █, ▓ and ▒ start with a filled rectangle, and any other glyph is a single command |
| Raster.GlyphCommands | terminalplayer.py:815-842 | each block glyph first fills its whole cell in its colour, in BGR order; any other glyph is one text stamp 5 pixels above the cell's bottom |
| Raster.DrawRow | terminalplayer.py:806-807 | the cells of a row draw nothing exactly when there are none |
| Raster.DrawRows | terminalplayer.py:805-807 | the rows draw nothing exactly when they hold no cell |
| Raster.PixelAtAppend | terminalplayer.py:821-831 | drawing a + b is drawing b over the image a left |
| Raster.PixelAtSingle | terminalplayer.py:821 | a filled rectangle paints the pixels between its corners, edges included, and leaves the rest |
| Raster.FullBlockFillsCell | terminalplayer.py:820-821 | █ paints its whole cell in its colour and nothing else |
| Raster.DarkShadeHasBlackMiddle | terminalplayer.py:822-825 | ▓ is its colour in its cell, except for black from a quarter to three quarters each way |
| Raster.MediumShadeCommands | terminalplayer.py:826-833 | ▒ is the full cell, then the black quarters (0,0) and (1,1) |
| Raster.MediumShadeChecksQuarters | terminalplayer.py:826-833 | ▒ is its colour in its cell, except that the top-left and bottom-right quarters are black |
| Raster.CellOrigin | terminalplayer.py:798-807 | cell (y, x) is drawn at origin (x × (width // columns), y × (height // rows)), after every earlier row and every earlier cell of its row |
| Raster.CharacterInBox | terminalplayer.py:815-834 | every rectangle of a glyph has both corners inside its own cell, from (x, y) to (x + w, y + h) |
| Raster.CharacterWithin | terminalplayer.py:815-834 | every rectangle of a glyph lies on the image whenever its cell does |
| Raster.LayoutWithinImage | terminalplayer.py:798-807 | rectangular data is drawn, and every rectangle lies within [0, width] × [0, height]; a closing edge may fall one past the last pixel, where cv2 clips it |
| Raster.FullBlockMosaic | terminalplayer.py:789-821 | art made only of █ comes out as a mosaic: each pixel in the drawn area shows the colour of cell (py // ch, px // cw), with shared edges going to the later cell, and every other pixel stays black |

## Left out

- Video decoding, resampling (cvtColor, Lanczos, cv2.resize) and video encoding are left out, because they are foreign library calls. The resized RGB raster, the render results of the frames, and what the capture reports are inputs.
- Floating point is left out. Speeds are exact reals, and luma, height and glyph index are exact rational arithmetic truncated as `int()` does. In IEEE doubles the luma of white is exactly 255.0, but for 65 of the 256 pure greys (1, 2, 4, 8, 11, 13, 16, …, 128, …) the sum falls just below the grey level v, so `int()` gives v − 1: grey 128 sums to 127.99999999999999 and becomes 127. Every pixel of a greyscale video is a pure grey.
- GlyphMapper.BrightnessOfGray: holds for the exact luma only; in doubles grey 128 has brightness 127, and so do 64 other grey levels.
- GlyphMapper.MinimalMidGray: holds for the exact luma only; in doubles grey 128 with the "minimal" set and colour off becomes ░ in (127, 127, 127), not ▒ in (128, 128, 128).
- GlyphMapper.RenderFrame: a failure of the colour conversion or the resampler, which the source catches and returns as ([], 0), is not modelled, except for a zero frame width.
- FrameCache.PreRender: the frame rate and frame count are the capture's reports as reals, and a read that fails ends the input. The auto-width probe (`shutil.get_terminal_size`) is left out, because it probes the environment; the width is an input. The rich and plain progress loops behave the same, so one loop is modelled.
- The playback scheduler is left out, because it is wall-clock and concurrency behaviour: pacing by `time.sleep`, the pause busy-wait, the pause indicator, audio, the listener thread and the lock. The controls are modelled as sequential transitions.
- Compositor.DrawFrame: when a frame has a cell outside the screen, the source has already changed some cells of prev_frame before it raises. The model leaves the screen unspecified in that case, because prev_frame is not used after playback ends.
- Compositor: the output is modelled as the list of strings `output_buffer`. The single write of their concatenation, the cursor hide and show, and the screen clear are left out, because they are I/O.
- Raster: the text branch of `_draw_character` is modelled only as a command. Its pixels, and the fallback rectangle when `cv2.putText` raises, are left out, because glyph rasterisation is foreign. The pixel meaning of the commands is the painter `PixelAt`; clipping at the image border is not modelled.
- Menus, banners, settings prompts, file selection, the converter's video writer and the `SimpleNP` fallback are left out, because they are I/O and UI only.

## Findings

| source | as written | input that shows it | evidently intended | confidence | as-written member | corrected member |
|---|---|---|---|---|---|---|
| terminalplayer.py:137-154 | special keys are handled under `except AttributeError`, but `hasattr(key, 'char')` never raises and is false for special keys, so those keys do nothing | pressing Esc during playback (or Space) | Esc stops playback and ends the listener; Space toggles pause | not executed | PlayerControl.SpecialKeysIgnoredAsWritten | PlayerControl.KeyboardHandler.OnPress |
| terminalplayer.py:401 | every failure path of `pre_render_video` returns 4 values, but `run_player` unpacks 5 (line 606), so the ValueError ends the application | a video file that cannot be opened | a failure returns 5 values and goes back to the menu | not executed | FrameCache.FailureEndsAppAsWritten | FrameCache.RunPlayerPlaysIffPrepared |
