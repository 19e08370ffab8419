# gifsicle unoptimizer, modelled in Dafny

The unoptimizer of the GIF library (`Gif_Unoptimize` in `src/gifunopt.c`)
turns an animation made of partial, disposal-dependent frames into one made
of independent frames. Each new frame covers the whole logical screen, and a
renderer can show it without knowing the frames before it.

It does this by simulating a renderer's virtual screen. The screen is an
array of extended indices: a palette index 0..255, or the sentinel
`TRANSPARENT` (256), meaning that nothing opaque has been drawn there. Frames
are visited in order. For each frame the unoptimizer:

1. draws the frame onto the shared screen, or onto a copy of it when the
   frame's disposal is restore-to-previous;
2. when the composited screen holds the sentinel, picks as the new
   transparent index the smallest palette index that does not occur on it,
   growing the global palette when that index is not yet one of its colours;
   when it holds no sentinel the frame gets no transparent index (-1);
3. writes the composited screen out as the frame's new pixels;
4. applies the frame's disposal to the shared screen (disposal methods are
   described in section 23 of the GIF89a specification), and rewrites the
   frame as a full-screen frame at (0, 0) that is erased to background.

The project has five modules:

- `GifTypes` (`gif_types.dfy`): the stream, frame and colour-table classes,
  whose fields the unoptimizer updates in place, and their value views
  `Frame` and `Palette`.
- `ScreenSpec` (`screen_spec.dfy`): reference definitions, on sequences, of
  drawing a frame (`Composite`) and of erasing a rectangle (`FillRect`), with
  their properties.
- `RemapSpec` (`remap_spec.dfy`): the choice of the transparent index
  (`NewTransparent`), the mapping of sentinel cells (`Flatten`) and palette
  growth (`Grow`).
- `UnoptSpec` (`unopt_spec.dfy`): one frame's rewrite (`StepFrame`) and the
  whole pass over the frames (`Pass`/`StepAt`), which threads the shared
  screen, the frames and the palette from frame to frame.
- `GifUnopt` (`gifunopt.dfy`): the imperative code. It works on an
  `array<Ext>` screen and a `byte` array with nested loops, and on the
  stream's objects. Each method is proved equal to the corresponding
  reference definition.

Two details of the library are kept exactly as its code behaves:

- Restore-to-background erasing reads the frame's transparent index after it
  has been rewritten, and reads the first frame's transparent index as it
  stands at that moment. For every frame after the first, that is the
  first frame's rewritten value if its rewrite succeeded, and its original
  value otherwise. `StepFrame` takes that value as `firstT`, together with whether
  the frame is the first one.
- A frame whose rewrite fails is left as it was. If its disposal is not
  restore-to-previous, its drawing stays on the shared screen and no disposal
  is applied. The driver goes on with the next frame.

## Model

| member | source | states |
|---|---|---|
| ScreenSpec.ClipWidth | src/gifunopt.c:31 | the frame's width clipped at the screen's right edge only; negative when the frame starts beyond it |
| ScreenSpec.ClipHeight | src/gifunopt.c:32 | the frame's height clipped at the screen's bottom edge only; negative when the frame starts below it |
| ScreenSpec.ClipWithinScreen | src/gifunopt.c:31-32 | clipping never widens or heightens a rectangle, keeps it within the right and bottom edges, and cuts it only at those edges |
| ScreenSpec.PixelAt | src/gifunopt.c:35-36 | the source pixel that lands on a screen cell inside the clipped rectangle: row and column relative to the frame's offset, row-major in the frame's pixels |
| ScreenSpec.DrawCell | src/gifunopt.c:37-39 | one cell after drawing: the source pixel when the cell is inside the clipped rectangle and the pixel is not the transparent index, the old value otherwise |
| ScreenSpec.Composite | src/gifunopt.c:27-40 | the screen after drawing a frame: every cell drawn as `DrawCell` says; its properties are stated by `CompositeFrame` |
| GifUnopt.PutImageInScreen | src/gifunopt.c:24-41 | the screen after drawing is the old screen with the frame composited onto it, cell by cell (right and bottom clipping, transparent pixels skipped) |
| ScreenSpec.CompositeFrame | src/gifunopt.c:27-40 | drawing keeps the screen's length and leaves every cell outside the clipped rectangle unchanged; a cell inside it shows the source pixel when that pixel is not the frame's transparent index, and keeps its old value when it is |
| ScreenSpec.CompositeFullScreen | src/gifunopt.c:144-148 | a frame covering the whole screen from (0, 0) shows its own pixel wherever that pixel is not its transparent index, and the screen below elsewhere |
| GifUnopt.PutBackgroundInScreen | src/gifunopt.c:44-66 | the screen after erasing is the old screen with the frame's clipped rectangle filled with the value `Solid` gives for the frame's current transparent index and the first frame's current one |
| UnoptSpec.Solid | src/gifunopt.c:54-59 | the fill value is the sentinel exactly when the frame's or the first frame's transparent index is set, and the stream background otherwise |
| ScreenSpec.FillRect | src/gifunopt.c:61-65 | the screen after erasing: cells inside the clipped rectangle hold the fill value, the rest keep theirs; stated by `FillRectExact` |
| ScreenSpec.FillRectExact | src/gifunopt.c:61-65 | erasing sets every cell inside the clipped rectangle to the fill value and leaves every cell outside it unchanged |
| ScreenSpec.FillAbsorbsComposite | src/gifunopt.c:133-142 | erasing a frame's rectangle after drawing the frame leaves the same screen as erasing alone |
| RemapSpec.FirstUnused | src/gifunopt.c:88-90 | an index the search returns is at least its start and does not occur on the screen |
| RemapSpec.FirstUnusedMinimal | src/gifunopt.c:88-92 | every index the search skips occurs on the screen, and it finds nothing exactly when every index from its start to 255 occurs |
| RemapSpec.NewTransparent | src/gifunopt.c:74-92 | the choice is -1 exactly when the screen holds no sentinel, and a chosen index is in 0..255 and absent from the screen |
| RemapSpec.NewTransparentMinimal | src/gifunopt.c:81-92 | the choice fails exactly when the screen holds the sentinel and all 256 indices occur, and a chosen index is the smallest absent one |
| GifUnopt.IndexChosen | src/gifunopt.c:81-92 | a presence table that records exactly the values on the screen, searched as the code does, yields the index `NewTransparent` chooses |
| GifUnopt.NoIndexLeft | src/gifunopt.c:88-92 | when the presence table shows the sentinel and every index 0..255, the choice of `NewTransparent` fails |
| RemapSpec.Flatten | src/gifunopt.c:100-105 | the new pixels have one entry per screen cell; sentinel cells become the chosen index and the others are copied |
| RemapSpec.FlattenRoundTrip | src/gifunopt.c:100-107 | the flattened pixels, read back with the chosen transparent index, give back the composited screen exactly |
| RemapSpec.FlattenOpaque | src/gifunopt.c:100-105 | without a sentinel on the screen the new pixels are the screen's cells copied verbatim |
| RemapSpec.Resize | src/gifunopt.c:94 | the reallocated colour storage has the requested number of entries and keeps every existing entry at its index |
| RemapSpec.Grow | src/gifunopt.c:93-97 | the palette after the choice stays well formed, never loses colours, and has the chosen index among its colours |
| RemapSpec.GrowKeeps | src/gifunopt.c:93-97 | the colour count only grows, never beyond 256, changes exactly when the chosen index is not yet a colour and then becomes that index plus one, and every existing colour keeps its index |
| GifUnopt.CreateImageData | src/gifunopt.c:69-112 | success exactly when a transparent index can be chosen; on success the frame's transparent index is the chosen one, the new pixels are the flattened screen and the palette has grown as `Grow` says; on failure the frame's transparent index and the palette are unchanged |
| GifUnopt.CopyScreen | src/gifunopt.c:127-131 | the scratch screen is a fresh array holding the same cells as the shared screen |
| GifTypes.Image.MakeFull | src/gifunopt.c:144-149 | the frame becomes a full-screen frame at (0, 0), erased to background after display, holding the new pixels; its transparent index and local-palette flag are kept |
| GifUnopt.UnoptimizeImage | src/gifunopt.c:115-152 | the success flag, the frame, the shared screen and the global palette afterwards are exactly what `StepFrame` gives for their old values; the local-palette flag is kept |
| UnoptSpec.StepFrame | src/gifunopt.c:115-152 | one frame's rewrite yields a well-formed frame and palette and a screen of the same size |
| UnoptSpec.StepPreviousKeepsScreen | src/gifunopt.c:120-142 | a restore-to-previous frame leaves the shared screen exactly as it was, whether its rewrite succeeds or fails |
| UnoptSpec.StepBackgroundErases | src/gifunopt.c:139-142 | after a successful restore-to-background frame, the shared screen is the old screen with only the frame's clipped rectangle filled with the fill value |
| UnoptSpec.StepKeepLeavesDrawn | src/gifunopt.c:133-142 | under any other disposal the shared screen keeps the frame drawn on it |
| UnoptSpec.StepFailure | src/gifunopt.c:120-142 | a rewrite fails exactly when the composited screen holds the sentinel and all 256 indices; a failed rewrite leaves the frame and the palette unchanged and applies no disposal, so the shared screen keeps the frame drawn on it, or is untouched for restore-to-previous |
| UnoptSpec.StepLossless | src/gifunopt.c:100-107 | a successful rewrite gives a full-screen frame at (0, 0) erased to background, whose pixels read back with its transparent index are the composited screen |
| UnoptSpec.StepRendersView | src/gifunopt.c:133-149 | the rewritten frame drawn on any screen shows every cell the composited view has drawn, and leaves that screen visible exactly where the view holds the sentinel |
| UnoptSpec.InitialScreen | src/gifunopt.c:175-178 | the first screen has screen-size cells, all sentinel when the first frame has a transparent index and all background otherwise |
| GifUnopt.NewScreen | src/gifunopt.c:174-178 | the driver's screen is a fresh array holding the initial screen |
| UnoptSpec.Pass | src/gifunopt.c:180-182 | the state after any number of frames is well formed and keeps the number of frames |
| UnoptSpec.StepAt | src/gifunopt.c:181 | frame i's rewrite, taken against the state after the frames before it, yields a well-formed frame and palette and a screen of the same size |
| UnoptSpec.PassNext | src/gifunopt.c:180-182 | the state after i + 1 frames is the state after i frames with frame i's own step applied |
| UnoptSpec.PassFrameAt | src/gifunopt.c:180-182 | frames not yet visited are untouched, and each visited frame holds the result of its own step |
| UnoptSpec.PassOkAt | src/gifunopt.c:180-185 | a pass that succeeded had every visited frame's own rewrite succeed |
| UnoptSpec.PassOk | src/gifunopt.c:158-185 | the pass succeeds exactly when every visited frame's rewrite succeeded |
| UnoptSpec.PassFirstFailure | src/gifunopt.c:180-185 | a failed pass has a first frame whose rewrite failed after all the frames before it succeeded |
| UnoptSpec.PassFlattens | src/gifunopt.c:144-148 | after the pass every visited frame is either a full-screen frame erased to background or unchanged, and after a successful pass every frame is full-screen |
| UnoptSpec.PassPalette | src/gifunopt.c:93-97 | over the whole pass the colour count only grows, stays within 256, and every original colour keeps its index |
| GifUnopt.UnoptimizeAt | src/gifunopt.c:181-182 | rewriting frame i moves the stream, the shared screen and the palette from the pass's state after i frames to its state after i + 1, and reports frame i's own success; every frame's local-palette flag is kept |
| GifUnopt.UnoptimizeAll | src/gifunopt.c:180-185 | after the loop the frames, the shared screen, the palette and the result are those of the complete pass, and every frame's local-palette flag is kept |
| GifUnopt.Unoptimize | src/gifunopt.c:155-186 | with at most one frame the result is success and nothing changes; with a local colour table, or without a global one, the result is failure and no frame or palette changes; otherwise the frames, the palette and the result are those of the pass from the initial screen; on every path each frame's local-palette flag is kept and the stream stays well formed (distinct, well-formed frames and a well-formed global palette) |

## Left out

- Decoding and release of compressed data (src/gifunopt.c:124-125): foreign codec calls. A frame is modelled as already holding its decoded pixels, row-major.
- Installing the new pixel buffer (src/gifunopt.c:149): ownership plumbing. It is modelled as assigning the pixel sequence to the frame (`GifTypes.Image.MakeFull`).
- `Gif_CalculateScreenSize` (src/gifunopt.c:171) is not part of this model. The screen width and height are taken as the stream's given fields.
- GifUnopt.UnoptimizeImage: does not model the failure returns for allocations that fail (src/gifunopt.c:119-121, 128-129). Allocation always succeeds in the model.
- GifUnopt.CreateImageData: does not model the failure of the palette reallocation (src/gifunopt.c:95). Reallocation always succeeds in the model.
- GifUnopt.Unoptimize: does not model the unchecked screen allocation (src/gifunopt.c:174), nor the freeing of the screen (src/gifunopt.c:184).
- Freeing of buffers, and the leak of the scratch screen when a restore-to-previous frame fails (src/gifunopt.c:134-136): memory management, not logic.
- RemapSpec.Resize: the library leaves the colour of palette slots added by the reallocation unspecified; the model makes them black.
- Sizes are unbounded integers. The C code computes `screen_width * screen_height` in `int`, which would overflow for screens of more than 2^31 - 1 cells. The model does not represent that overflow.
- GifTypes.Stream.Valid: requires every frame object to appear only once in the stream, as the library's stream owns its frames. A stream that holds the same frame twice is not modelled.
- Disposal codes 4-7, which are reserved, are not distinguished. Like "none" and "do not dispose", they leave the frame drawn (`Unspecified`/`Asis`).
- The `extern "C"` and header scaffolding.
