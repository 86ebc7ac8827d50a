# Verified models of YartOS components

A Dafny project that models parts of YartOS, a hobby operating system written in C, and proves properties of
them. `dafny verify dfyconfig.toml` checks the whole project.

| files | what they model |
|---|---|
| `Bits`, `BitIO`, `Huffman`, `JpegTables`, `JpegBlock`, `JpegBlockExact`, `JpegBlockIO`, `JpegScan`, `JpegQuant`, `JpegDct`, `JpegIdct`, `JpegEnergy`, `JpegPixels`, `JpegFile`, `JpegRoundTrip`, `JpegPicture`, `JpegEncoder`, `JpegDecoder`, `JpegSamples` | the baseline JPEG encoder and decoder (ITU-T T.81): bits, codes, blocks, scan, quantiser, transforms, colours, file |
| `JpegParts`, `JpegOrder`, `JpegAnyFile`, `JpegColour`, `JpegRender` | the decoder on files of other encoders: any segments, any components and sampling; and the way back to pixels |
| `Rects`, `Damage`, `Blit`, `Compositor`, `Repaint`, `Blend` | the compositor's dirty rectangles, clipped copy, partial repaint and present, and the vector blend |
| `Windows`, `WindowScan`, `Surfaces`, `WindowLayers`, `WindowClicks` | the window table: z-order, hit test, scan reconciliation with the kernel's surface table, and windows as layers of a scene |
| `RxRing`, `Efuse` | the rtw88 driver's receive ring and EFUSE decoder |
| `Calc`, `CalcStuck`, `CalcKeys` | the calculator's evaluator, decimal output and key handler, and what typing on it shows |
| `EditorText`, `Editor` | the text editor's row buffer and the flat text it stands for |
| `Apk`, `ApkPack`, `Launcher` | the package manager's install and remove, the packer's archive, and the launcher's reading of desktop entries |

Each component has specification functions on values, theorems about them, and methods or classes in the form of
the C code (loops over arrays, fields updated in place) that are proved to compute those functions.

How the layers of the codec fit together: `JpegEncoder.JpegEncode` stores exactly `JpegFile.FileBytes`;
`JpegDecoder.Decoder.JpegDecode` returns exactly `JpegFile.DecodeFile` on every input; and
`JpegRoundTrip.FileRoundTripIff` says when the second undoes the first. `JpegEncoder.BitmapRoundTrip` starts from
pixels: it adds colour conversion, transform and quantiser over the reals and holds for every bitmap and quality.
`JpegSamples.BitmapSamples` and `JpegSamples.BitmapMeanSquare` go on to the inverse transform and bound the error of
every sample and the mean-square error of every block. `JpegRender.BitmapPixels` goes back to pixels, which
`JpegRender.DecodePicture` draws. Files of other encoders are the subject of `JpegAnyFile.AnyFileDecodes`: any
segments in any order, any one to three components with any sampling.

For the compositor, `Repaint.Desktop` is the frame loop over a `Compositor.Display`: damage calls, backdrop,
composite, cursor, present. It is proved to leave the last scene on the scanout, through `Repaint.Present`, which
`Repaint.TakeTurn` computes.

Where a property one would expect does not hold, the code is modelled as it is and the exact condition is proved:

- The decoder accepts heights up to 800 while the encoder accepts 1280, so a file decodes if and only if the
  size passes the decoder's limits and all coefficients are in range (`JpegRoundTrip.FileRoundTripIff`); the
  encoder's own coefficients always are (`JpegPicture.SampledCodable`), and a white bitmap of 16 by 816 pixels
  is one whose file fails (`JpegEncoder.TallBitmapFails`).
- A picture whose first component does not have the highest sampling rate is drawn with luma samples of other
  pixels, or with cells outside the luma plane (`JpegRender.LumaOwnIff`, `JpegRender.LumaOutside`); otherwise every
  pixel is drawn with its own (`JpegRender.PixelShows`).
- A 512th outstanding frame makes the receive ring look empty (`RxRing.InjectSafeIff`), as a burst of 512 frames
  into a ring just started does (`RxRing.BurstPoll`).
- Pressing "=" twice differs from once exactly at the least 64-bit number (`Calc.EqualsIdempotentIff`,
  `Calc.EqualsTwice`).
- The machine stops the calculator at the quotient of the least number and -1, exactly when an expression has one
  (`CalcStuck.EvalStuckIff`); one fits its text (`CalcStuck.ShortStuck`).
- A window opened in a slot whose last window was hidden starts hidden (`Windows.OpenedVisibleIff`); showing the
  desktop before a window goes away gets there (`Windows.NewWindowHidden`), and only that does
  (`Windows.RunShows`).
- The kernel clears a surface's number right after giving it, so all surfaces go by the number 0 and share one
  window: they have windows of their own exactly when there is at most one (`Surfaces.OneWindow`,
  `Surfaces.OwnWindowIff`, `Surfaces.TwoShareOne`). What the window manager does with surfaces of different numbers
  is proved as well.
- At twice the UI scale a window's surface is drawn over the edge of the rectangle it is skipped by
  (`Windows.SurfaceInRectIff`). So a dirty rectangle that touches the surface but not that rectangle erases the
  window there (`WindowLayers.SkipUnseenIff`), as it does for a 400 by 300 window (`WindowLayers.WindowErased`);
  the frame loop is exact where windows keep to their rectangles (`WindowLayers.ConfinedIff`,
  `WindowLayers.WindowsConfined`).
- A click goes to the window seen at its point exactly when the point is in that window's frame and not in the two
  rows above another window's shadow (`WindowClicks.ClickIff`); the first fails at twice the UI scale
  (`WindowClicks.ClickMisses`), the second just above a window on top (`WindowClicks.ClickTaken`).
- An install record written only in part leaves the package neither installable nor removable
  (`Apk.FailedAddIff`, `Apk.CutRecordSticks`, `ApkPack.EmptyRecordSticks`), a desktop entry written in part blocks
  later packages that bring one (`Apk.CutDesktopSticks`), and removal deletes a desktop entry that was there before
  the installation (`Apk.AddDelIff`, `ApkPack.DesktopEntryLost`).
- Newline then backspace, and a typed character then backspace, are the identity except on a full buffer
  (`EditorText.NewlineBackspaceIff`, `EditorText.FullDocumentLoses`, `EditorText.InsertBackspaceIff`,
  `EditorText.FullRowLoses`).
- Showing the desktop twice is the identity exactly when all windows were shown or all hidden
  (`Windows.ToggleTwiceIff`), and a window that opens in between makes it differ (`Windows.ToggleTwiceReached`).

## Model

| member | source | states |
|---|---|---|
| BitIO.BitWriter.PutByte | userland/jpeg_enc.c:21-25 | stores the byte and advances, or reports that the buffer is full and stores nothing |
| BitIO.BitWriter.PutBits | userland/jpeg_enc.c:26-37 | after any successful call the output is the stuffed full bytes of all bits written so far, fewer than eight bits wait in the buffer and they are the rest; a failure means those bytes do not fit |
| BitIO.NoOverflow | userland/jpeg_enc.c:27-28 | with fewer than 8 waiting bits and at most 16 new ones the 32-bit buffer loses nothing, and its value stays below 2^nbits |
| BitIO.BitWriter.Flush | userland/jpeg_enc.c:38-47 | the last byte is filled up with ones and stuffed like the others |
| BitIO.BitReader.Bit | userland/jpeg.c:56-69 | gives the next bit of the unstuffed data; -1 exactly at the end of the data, -2 at a marker |
| BitIO.BitReader.Bits | userland/jpeg.c:70-78 | gives the number in the next n bits and consumes exactly those, or fails when fewer are left |
| Bits.UnstuffStuff | userland/jpeg_enc.c:33 | unstuffing what was stuffed gives the data back, up to the end of the input or a marker |
| Bits.StuffedHasNoMarker | userland/jpeg_enc.c:33 | every 0xFF of the entropy-coded data is followed by 0x00 (section F.1.2.3 of ITU-T T.81) |
| BitIO.StreamRoundTrip | userland/jpeg.c:56-78 | any sequence of numbers written with any widths and flushed is read back, each modulo 2^width, through stuffing and padding |
| Huffman.BuildHuff | userland/jpeg.c:91-108 | computes the canonical table (section C.2 of ITU-T T.81) with 16-bit codes, and fails exactly when more than 256 symbols are counted |
| Huffman.PrefixFree | userland/jpeg.c:91-108 | no canonical code is a prefix of another, whatever the counts |
| Huffman.CodeFits | userland/jpeg.c:91-108 | under Kraft's inequality every code has a length from 1 to 16 and is below 2^length |
| Huffman.HuffDecode | userland/jpeg.c:109-120 | the bit-by-bit linear search finds the symbol of the first entry that matches, consumes exactly its bits, and fails where the specification fails |
| Huffman.DecodeCode | userland/jpeg.c:109-120 | the code of any symbol followed by any bits decodes to that symbol and leaves those bits |
| Huffman.StdMakeCodes | userland/jpeg_enc.c:131-146 | gives every listed symbol the canonical length and code of its last occurrence and 0 to all others |
| Huffman.SameCodes | userland/jpeg_enc.c:131-146 | for distinct symbols encoder and decoder assign the same length and code to each |
| JpegTables.StdTables | userland/jpeg_enc.c:105-115 | the four typical tables satisfy Kraft's inequality and their counts agree with their symbol lists |
| JpegPicture.StdBaseline | userland/jpeg_enc.c:105-115 | the typical tables list exactly the DC sizes 0..11, every AC run with every size 1..10, EOB and ZRL, and no larger size |
| JpegTables.ZigzagInverse | userland/jpeg.c:126-139 | the two zigzag tables are inverse permutations of 0..63 |
| JpegBlock.Category | userland/jpeg_enc.c:172 | the size category is the bit length of the magnitude |
| JpegBlock.ExtendMag | userland/jpeg.c:297-301 | the decoder's sign extension inverts the encoder's magnitude bits for every nonzero value |
| JpegBlockIO.EncBlock | userland/jpeg_enc.c:164-189 | appends exactly the bits of the block (DC difference, runs with ZRL, EOB only for trailing zeros) and moves the predictor, or fails because they do not fit |
| JpegBlockIO.ReadBlock | userland/jpeg.c:293-320 | decodes one block as specified from any bits, in natural order, and consumes exactly its bits |
| JpegBlock.BlockRoundTrip | userland/jpeg.c:293-320 | a block in range decodes to the same coefficients and leaves the bits that follow it |
| JpegBlockExact.DecodedInRange | userland/jpeg.c:293-320 | whatever is decoded with baseline tables has AC coefficients of at most 1023 and a DC difference of at most 2047 |
| JpegBlockExact.BlockRoundTripIff | userland/jpeg_enc.c:164-189 | a block survives coding if and only if its AC coefficients are at most 1023 and its DC difference at most 2047 in magnitude |
| JpegScan.EncodeScan | userland/jpeg_enc.c:329-346 | the MCU loop writes exactly the bits of all blocks in interleaved order, or fails because they do not fit |
| JpegScan.SameOrder | userland/jpeg.c:286-291 | for the encoder's 4:2:0 frame the decoder's five nested loops visit the blocks in the encoder's order |
| JpegScan.EncOrderDistinct | userland/jpeg_enc.c:331-344 | no block is visited twice |
| JpegScan.EncOrderComplete | userland/jpeg_enc.c:331-344 | the blocks visited are exactly those of the three planes |
| JpegScan.ScanRoundTripIff | userland/jpeg.c:281-340 | the scan of any image is recovered block for block, with the same DC predictors, if and only if all its blocks are in range |
| JpegQuant.MakeSteps | userland/jpeg_enc.c:199-205 | the quantiser steps of every quality are the scaled standard ones, between 1 and 255 |
| JpegQuant.FinerQuality | userland/jpeg_enc.c:199-205 | from quality 0 on a higher quality never has a larger step |
| JpegQuant.KnownQualities | userland/jpeg_enc.c:199-205 | quality 50 gives the standard tables, and from quality 100 on every step is 1 |
| JpegQuant.Quantise | userland/jpeg_enc.c:242-246 | stores the rounded quotients in zigzag order |
| JpegQuant.RoundNearest | userland/jpeg_enc.c:245 | truncating after adding or subtracting one half rounds to the nearest integer, from the middle away from zero |
| JpegQuant.SameStep | userland/jpeg.c:323 | the step the decoder multiplies by at each natural index is the one the encoder divided by |
| JpegQuant.QuantError | userland/jpeg.c:323 | over the reals each dequantised coefficient is within half a step of the one that was quantised |
| JpegQuant.DequantInjective | userland/jpeg.c:323 | different coefficient blocks dequantise differently |
| JpegRoundTrip.SkipStuffed | userland/jpeg.c:30-43 | rescanning the entropy-coded segment from its start stops exactly at the marker that ends it |
| JpegRoundTrip.DqtRead | userland/jpeg.c:208-223 | a quantiser table is read where it was written and kept in its place |
| JpegRoundTrip.DhtRead | userland/jpeg.c:224-239 | a Huffman table is read where it was written and built into its place |
| JpegRoundTrip.SofSegRead | userland/jpeg.c:240-260 | the frame header gives back width, height and components, or fails when the size is not accepted |
| JpegRoundTrip.HeadersRead | userland/jpeg.c:203-272 | all headers are read at the offsets where they were written, whatever the decoder knew before |
| JpegRoundTrip.PlaceAt | userland/jpeg.c:321-335 | blocks of distinct positions end up each at its own |
| JpegRoundTrip.FileRoundTripIff | userland/jpeg.c:190-390 | decoding an encoded file gives every block at its own grid position times its steps if and only if the decoder accepts the size (width up to 1280, height up to 800, caller limits) and every coefficient is in range; any other size fails |
| JpegRoundTrip.ProbeFile | userland/jpeg.c:271-272 | asking only for the dimensions returns those of any encoded file of acceptable size and fails otherwise |
| JpegParts.NoteRead | userland/jpeg.c:342-349 | an APPn or COM segment with any length from 2 to 65535 and any bytes is passed over: the marker loop goes on behind it knowing what it knew |
| JpegParts.NoteCut | userland/jpeg.c:342-349 | one that promises less than 2 or more bytes than are left fails |
| JpegParts.LoneRead | userland/jpeg.c:350-351 | TEM and restart markers between segments are passed over |
| JpegParts.OtherFails | userland/jpeg.c:352-354 | every other marker fails |
| JpegParts.NotJpeg | userland/jpeg.c:199 | a file that does not start with SOI fails |
| JpegParts.NoMarker | userland/jpeg.c:203-205 | data without a marker fails |
| JpegParts.OutOfOrder | userland/jpeg.c:206-264 | an end before any scan and a scan before any frame header fail |
| JpegParts.OtherScan | userland/jpeg.c:261-269 | a scan header for another number of components, or not of a whole sequential scan, fails |
| JpegParts.OtherFrame | userland/jpeg.c:240-260 | a frame header of another precision, without a dimension, with no or more than three components or with a sampling factor outside 1 to 4 fails |
| JpegParts.PartRead | userland/jpeg.c:203-260 | any segment before the scan - notes, quantiser tables of one or two bytes a step, several tables in one segment, Huffman tables, a frame header of any size and sampling - is read where it stands and tells the decoder exactly its contents |
| JpegParts.PartsRead | userland/jpeg.c:203-260 | so are any such segments in any order |
| JpegParts.IdleIgnored | userland/jpeg.c:342-351 | notes and lone markers among them change nothing |
| JpegOrder.McusCover | userland/jpeg.c:283-284 | the number of MCUs is the least that covers the picture |
| JpegOrder.FrameOrderIs | userland/jpeg.c:286-291 | for any components and sampling the decoder visits exactly the blocks of the MCUs, MCU by MCU, component by component and row by row |
| JpegAnyFile.CodedRoundTrip | userland/jpeg.c:286-320 | the coded blocks of any visits of any components decode to those blocks, when each coefficient is in range |
| JpegAnyFile.AnyFileDecodes | userland/jpeg.c:190-392 | any segments in any order that give an accepted frame and its Huffman tables, the coded blocks of the frame, any notes and the end: the decoder gives exactly those blocks, dequantised with the tables of their components |
| JpegAnyFile.AnyProbe | userland/jpeg.c:271-272 | asked only for the dimensions it gives those of the frame, whatever follows the scan header |
| JpegAnyFile.AnyRefused | userland/jpeg.c:246-248 | segments are refused, whatever follows, if and only if one is a frame header whose size is not accepted |
| JpegAnyFile.NoteFirst | userland/jpeg.c:342-349 | an APPn or COM segment put right behind SOI changes nothing in what any bytes decode to |
| JpegAnyFile.NotesIgnored | userland/jpeg.c:190-390 | an encoded file with notes and lone markers anywhere between its headers decodes and probes as the file without them |
| JpegAnyFile.NotedRoundTripIff | userland/jpeg.c:190-390 | such a file gives every block back if and only if the encoder's own does: size accepted and coefficients in range |
| JpegAnyFile.NotedProbe | userland/jpeg.c:271-272 | asking it only for the dimensions returns those of any accepted size |
| JpegDct.Fdct | userland/jpeg_enc.c:62-77 | the row and column loops compute the separable transform with the table's cosines |
| JpegDct.TransformRange | userland/jpeg_enc.c:62-77 | over the reals the mean coefficient of 8-bit samples lies between -1024 and 1020 and every other between -1022 and 1022 |
| JpegIdct.Idct | userland/jpeg.c:158-180 | the row and column loops compute the separable inverse transform |
| JpegIdct.Orthogonal | userland/jpeg.c:145-154 | the cosine table with both sides' scale factors is orthogonal within one billionth |
| JpegIdct.InverseNear | userland/jpeg.c:158-180 | the decoder's inverse transform of the encoder's transform is within two millionths of every sample |
| JpegPixels.ToYCbCr | userland/jpeg_enc.c:213-224 | the pixel loop stores the luma of every pixel and the chroma of every pixel with even coordinates |
| JpegColour.Channels | userland/jpeg.c:387 | a pixel put together from channels has those channels |
| JpegColour.ColourInverse | userland/jpeg.c:375-377 | over the reals the decoder's conversion undoes the encoder's within 0.001 for every channel of every pixel |
| JpegRender.ColouredBack | userland/jpeg.c:375-387 | a pixel converted, converted back, truncated and clamped loses at most one of each channel |
| JpegRender.ColouredGap | userland/jpeg.c:375-387 | samples that differ by at most el and ec give channels that differ by at most el + 2 ec + 1 |
| JpegPixels.LoadBlock | userland/jpeg_enc.c:238-240 | a block holds its 64 samples of the plane, moved to around 0 |
| JpegPixels.PlaneAt | userland/jpeg_enc.c:228-231 | block (row, column) of a plane is at its row-major position |
| JpegPicture.SampledCodable | userland/jpeg_enc.c:235-269 | the coefficients of 8-bit samples, black blocks included, are in range after quantisation at any quality |
| JpegPicture.PictureRoundTrip | userland/jpeg_enc.c:191-350 | coefficients of 8-bit samples, encoded at any quality, decode, whatever tables earlier files left, each within half of its step when the size is accepted, and to a failure when it is not |
| JpegEncoder.BitmapRoundTrip | userland/jpeg_enc.c:191-350 | the same from pixels: every bitmap the encoder accepts, at every quality |
| JpegEncoder.TallBitmapFails | userland/jpeg_enc.c:193 | a bitmap of 16 by 816 pixels is encoded to a file that never decodes |
| JpegSamples.InverseGap | userland/jpeg.c:323-325 | coefficients within half a step move no sample by more than an eighth of the sum of the steps |
| JpegEnergy.WavesOrthogonal | userland/jpeg.c:145-154 | the scaled rows of the cosine table are orthogonal, each of square 4, within a hundred-millionth |
| JpegEnergy.InverseEnergy | userland/jpeg.c:158-180 | the inverse transform keeps the sum of the squares of a block, up to a factor of one and four hundred-millionths |
| JpegSamples.BlockMeanSquare | userland/jpeg.c:323-325 | the squared sample errors of a block whose coefficients are within half a step add up to at most a quarter of the squared steps, up to rounding |
| JpegSamples.BitmapMeanSquare | userland/jpeg.c:286-335 | the same for every block of every bitmap of accepted size at every quality |
| JpegSamples.BitmapSamples | userland/jpeg.c:286-335 | for every bitmap of accepted size, at every quality, each decoded sample is within an eighth of the sum of the steps, and two millionths, of the one that was encoded |
| JpegRender.StoreBlock | userland/jpeg.c:326-335 | copies the samples of a block to their cells of the plane, leaves out those outside it and touches no other cell |
| JpegRender.PlaneCovered | userland/jpeg.c:275-284 | every sample of a plane lies in a block of the MCUs, so none stays cleared |
| JpegRender.DrawPlane | userland/jpeg.c:275-335 | clearing and storing all blocks leaves the inverse transforms of the decoded blocks, row by row |
| JpegRender.LumaOwnIff | userland/jpeg.c:372 | every pixel is drawn with its own luma sample if and only if the first component has the highest sampling rate, in each direction in which the picture has more than one pixel |
| JpegRender.LumaOutside | userland/jpeg.c:372 | a frame of two pixels with luma at half the rate of chroma, whose second pixel is drawn with a cell outside the luma plane |
| JpegRender.PixelShows | userland/jpeg.c:369-387 | otherwise a pixel of three components has its own luma sample and the chroma samples it lies in, at any sampling |
| JpegRender.GreyShows | userland/jpeg.c:363-367 | a pixel of one component is grey, within one of its sample and clamped |
| JpegRender.Render | userland/jpeg.c:360-389 | the loops draw exactly the specified pixels and no others |
| JpegRender.DecodedFrame | userland/jpeg.c:246-248 | whatever is decoded has a frame of at most 1280 by 800 and within the caller's limits |
| JpegRender.DecodePicture | userland/jpeg.c:190-392 | decodes as specified, fills the planes from the decoded blocks and draws the specified pixels in the caller's buffer, whatever tables and planes earlier files left |
| JpegRender.BitmapPixels | userland/jpeg.c:190-392 | from pixels to pixels: for every bitmap of accepted size, at every quality, each pixel drawn has the luma of the bitmap's pixel and the chroma of the upper left one of its four, off by at most the luma bound of `JpegSamples.BitmapSamples` and twice the chroma one plus 1; where those two pixels are the same it is as near to the pixel itself |
| JpegEncoder.EmitDht | userland/jpeg_enc.c:149-159 | writes the segment of a Huffman table, or fails because the whole file does not fit |
| JpegEncoder.QuantiseLuma | userland/jpeg_enc.c:234-249 | the block loops store the quantised transform of every luma block at its row-major position |
| JpegEncoder.QuantiseChroma | userland/jpeg_enc.c:250-269 | the same for both chroma planes in one pass |
| JpegEncoder.JpegEncode | userland/jpeg_enc.c:191-350 | from pixels: returns the length of the specified file and stores it, or -1 exactly for bad dimensions or too small a buffer |
| JpegDecoder.ByteStream.SkipMarker | userland/jpeg.c:30-43 | finds the next marker past stuffed and fill bytes on any data |
| JpegDecoder.Decoder.ReadDqt | userland/jpeg.c:208-223 | reads a DQT segment of any bytes as specified, entries stored in place |
| JpegDecoder.Decoder.ReadDht | userland/jpeg.c:224-239 | reads a DHT segment of any bytes as specified |
| JpegDecoder.Decoder.ReadSof | userland/jpeg.c:240-260 | reads a frame header of any bytes as specified, with the largest sampling factors |
| JpegDecoder.Decoder.ReadSos | userland/jpeg.c:261-270 | reads a scan header of any bytes as specified |
| JpegDecoder.Decoder.ReadScan | userland/jpeg.c:286-340 | the five nested loops store exactly the specified blocks, or fail where the specification fails |
| JpegDecoder.Decoder.JpegDecode | userland/jpeg.c:190-390 | on every input the marker loop returns what the specification of a file says |
| Rects.ClipIs | userland/gfx.h:142-147 | clipping is intersection of pixel sets |
| Rects.CollideIff | userland/gfx.h:148-150 | nonempty rectangles collide if and only if they share a pixel |
| Rects.MergeIs | userland/gfx.h:151-156 | merging gives the least rectangle around both |
| Damage.DirtyList.DamageAdd | userland/wm_damage.c:8-15 | the list after the call is the specified one: clipped, merged into the first rectangle it touches, appended, or the whole screen |
| Damage.DirtyList.DamageWhole | userland/wm_damage.c:7 | the whole screen becomes the only entry |
| Damage.AddExact | userland/wm_damage.c:8-15 | a rectangle that touches none adds exactly its pixels on the screen while there is room |
| Damage.AddIs | userland/wm_damage.c:8-15 | a rectangle off the screen changes nothing; else the first entry it collides with becomes the least rectangle around both and the others stay; else it is appended; else the screen is the only entry |
| Damage.RunCovers | userland/wm_damage.c:7-15 | after any calls the list has at most 32 nonempty entries on the screen, keeps the damage it had and covers every requested pixel |
| Damage.WholeWins | userland/wm_damage.c:7-15 | a run that damages the whole screen anywhere ends with just that |
| Blit.ClipWindow | userland/gfx.c:214-253 | the successive clips against source, destination and clip rectangle leave exactly the common pixels at an unchanged offset; the final checks change nothing |
| Blit.CopyRow | userland/gfx.c:255-274 | four, two and one pixels at a time, as alignment allows, copy exactly the row |
| Blit.BlitTo | userland/gfx.c:214-275 | changes exactly the pixels in destination, source window and clip, each to its shifted source pixel |
| Blit.PresentRects | kernel/gui/fb.c:100-118 | makes the scanout equal to the back buffer in the given rectangles, overlapping or not, and touches nothing else |
| Compositor.PaintInIs | userland/wm.c:1167-1190 | leaving out layers whose gate misses the rectangle does not show when gated layers draw only inside their gates |
| Compositor.RedrawnIs | userland/wm.c:1415 | with such layers a pixel gets the full scene whichever and however many dirty rectangles cover it |
| Compositor.Display.CompositeRect | userland/wm.c:1167-1211 | repaints backdrop and layers in the rectangle and changes nothing outside it |
| Compositor.Display.CompositeDirty | userland/wm.c:1415 | for any layers, each pixel is what the last dirty rectangle over it painted, and unchanged under none |
| Compositor.Display.Frame | userland/wm.c:1414-1422 | for any layers, the scanout shows what was repainted, under the cursor, is unchanged elsewhere, and the list is empty |
| Repaint.DamageAll | userland/wm_damage.c:7-15 | a turn's damage calls leave the specified list |
| Repaint.TakeTurn | userland/wm.c:1410-1422 | one pass of the frame loop takes scanout and backdrop to the specified ones |
| Repaint.FrameExactIff | userland/wm.c:1414-1422 | with layers inside their gates and a changed backdrop rebuilt, a frame keeps the scanout equal to the full scene if and only if every visible change lies in a dirty rectangle |
| Repaint.RunExact | userland/wm.c:1410-1422 | over any run of such frames whose changes were damaged the scanout equals a full repaint at every pixel |
| Repaint.FirstFrame | userland/wm.c:1410-1422 | whatever scanout and backdrop held, a first frame that damages the whole screen and builds the backdrop makes the run exact |
| Repaint.Desktop | userland/wm.c:1410-1422 | the frame loop on any display, from its first pass, leaves every pixel of the last scene on the scanout |
| WindowLayers.SkipUnseenIff | userland/wm.c:1179-1188 | a dirty rectangle shows a window, whatever its surface holds, if and only if it touches the rectangle the window is skipped by or misses the surface |
| WindowLayers.ConfinedIff | userland/wm_windows.c:172-250 | a window draws only inside the rectangle it is skipped by, whatever it shows, if and only if its surface lies inside |
| WindowLayers.WindowsConfined | userland/wm_windows.c:172-250 | windows not drawn twice as large, or with room in border and shadow, are confined as the frame loop needs |
| WindowLayers.WindowErased | userland/wm_windows.c:241-245 | a 400 by 300 window at twice the UI scale on a 1920 by 1080 screen loses its pixel (700, 500) to a dirty rectangle there |
| Blend.BlendRowScalar | userland/gfx.c:35-44 | blends each of the first n pixels and no other |
| Blend.MixNearest | userland/gfx.c:36-43 | a blended channel is within half a unit of the exact weighted mean |
| Blend.Div255 | userland/gfx.c:31-34 | the shift-and-add division by 255 is exact up to 65152 and does not overflow 16 bits |
| Blend.LaneIsMix | userland/gfx.c:62-77 | each 16-bit lane computes the scalar channel without overflow |
| Blend.BlendRowVector | userland/gfx.c:45-91 | the four-pixel path with its tail and the opaque shortcut equal the scalar reference for every length, content and colour |
| RxRing.FilledPayload | kernel/drivers/rtw_dma.c:84-95 | parsing the descriptor and payload the chip wrote gives the frame back |
| RxRing.LengthIs | kernel/drivers/rtw_dma.c:90-95 | the length of a packet is the low 14 bits of its descriptor, whatever the bits above |
| RxRing.InjectFields | kernel/drivers/rtw_io.c:163-166 | the chip's register write leaves the host's field alone |
| RxRing.PollFields | kernel/drivers/rtw_io.c:85 | the host's register write leaves the chip's field alone |
| RxRing.Driver.constructor | kernel/drivers/rtw_io.c:22-40 | all buffers are posted and the ring holds no frame, whatever the buffers contain |
| RxRing.Driver.ChipInject | kernel/drivers/rtw_io.c:152-167 | the injection step is the specified one |
| RxRing.Driver.RxPoll | kernel/drivers/rtw_io.c:65-87 | the poll step is the specified one: nothing, too big without advancing, or the next frame |
| RxRing.InjectHolds | kernel/drivers/rtw_io.c:152-167 | an injection with fewer than 511 frames outstanding appends to the queue and keeps all descriptors posted |
| RxRing.PollHolds | kernel/drivers/rtw_io.c:65-87 | a poll does what taking from a queue does and reposts the descriptor |
| RxRing.RingIsQueue | kernel/drivers/rtw_io.c:65-87 | over every interleaving with at most 511 frames outstanding the polls return exactly the injected frames, in order and byte for byte |
| RxRing.InjectOverflows | kernel/drivers/rtw_io.c:65-69 | with 511 frames outstanding one more makes the indices meet and the next poll reports nothing |
| RxRing.BurstPoll | kernel/drivers/rtw_io.c:152-167 | from the ring as it starts, a burst of up to 511 frames is polled from its first and a burst of 512 looks like none |
| RxRing.InjectSafeIff | kernel/drivers/rtw_io.c:152-167 | one more injection leaves the oldest frame to be polled next if and only if fewer than 511 frames are outstanding |
| Efuse.TakeEncoded | kernel/drivers/rtw_efuse.c:42-75 | decoding the cells of a well-formed block with one- or two-byte header gives the block back |
| Efuse.TakenIsEncoded | kernel/drivers/rtw_efuse.c:42-75 | whatever cells decode to a block are its encoding |
| Efuse.DecodeEncoded | kernel/drivers/rtw_efuse.c:61-84 | decoding the encoding of blocks applies their writes in order before going on |
| Efuse.DecodeIff | kernel/drivers/rtw_efuse.c:53-86 | decoding arbitrary cells succeeds with a map if and only if they are a log of well-formed blocks whose writes stay in the map and give it |
| Efuse.LastWriteWins | kernel/drivers/rtw_efuse.c:76-83 | every byte of the map is the one of the last block that wrote it, or blank |
| Efuse.PutWordsFits | kernel/drivers/rtw_efuse.c:79 | the words of a block are stored if and only if every word present lies in the map |
| Efuse.DumpPhysical | kernel/drivers/rtw_efuse.c:47-51 | all cells, or failure when one read does not complete |
| Efuse.ReadLogical | kernel/drivers/rtw_efuse.c:53-86 | the loop terminates on any cells, writes only the map and leaves the specified one or fails where the specification fails |
| Efuse.ReadMac | kernel/drivers/rtw_efuse.c:88-95 | the six bytes at 0x120, or failure when decoding fails or all are blank |
| Efuse.MacIsLatest | kernel/drivers/rtw_efuse.c:88-95 | the MAC bytes of a programmed card are the latest written to their addresses |
| Calc.EvalExpr | userland/calc.c:45-54 | the cursor version of the evaluator computes the specified value and stops where specified, on any text, and meets the division the machine does not do exactly where specified |
| Calc.ReadExpr | userland/calc.c:45-54 | an expression printed with minimal parentheses reads as the first part of an expression, whatever follows |
| Calc.EvalPrint | userland/calc.c:28-54 | evaluating any printed tree, with any spaces between tokens, gives its left-associative value and reads to the end |
| Calc.FsItoa | userland/fsutil.c:83-94 | the digit loop prints the specified text; its limit of 22 digits is never reached |
| Calc.EvalItoa | userland/fsutil.c:83-94 | evaluating a printed number gives it back, except for the least 64-bit number, which prints as a lone sign and reads as 0 |
| Calc.EqualsIdempotentIff | userland/calc.c:101-106 | pressing "=" again changes nothing if and only if the value is not the least 64-bit number |
| Calc.EqualsTwice | userland/calc.c:101-106 | an expression of three small tokens on which "=" changes the text twice |
| Calc.BackspaceIff | userland/calc.c:98-109 | backspace takes a typed key back if and only if there was room for it |
| Calc.PressFits | userland/calc.c:18-21 | the text always fits its buffer |
| Calc.Calculator.HandleKey | userland/calc.c:98-109 | a key changes the text as specified, unless the machine stops the program, which it does exactly when "=" is pressed on an expression that meets that division |
| CalcKeys.TypeText | userland/calc.c:98-109 | typing any text without C, B, = and line ends that fits appends exactly that text |
| CalcKeys.ClearEmpties | userland/calc.c:99 | C empties any text |
| CalcKeys.TypedAnswer | userland/calc.c:98-109 | typing any expression that fits into an empty text and pressing "=" shows its value in decimal |
| CalcKeys.TowardsZero | userland/calc.c:40 | quotients are towards zero, for operands of any sign |
| CalcKeys.SumsFirst | userland/calc.c:36-54 | typing 12+3*4= shows 24 |
| CalcKeys.SumsSigned | userland/calc.c:28-54 | typing (2-9)/2= shows -3 |
| CalcKeys.TypeKeys | userland/calc.c:98-109 | the same for the calculator object |
| CalcKeys.Calculate | userland/calc.c:98-109 | typing an expression on the cleared calculator and pressing "=" stops exactly if the expression has the quotient of the least number and -1, and shows its value otherwise |
| CalcStuck.EvalStuckIff | userland/calc.c:36-44 | evaluating any printed tree meets the quotient of the least number and -1 if and only if the tree has such a quotient |
| CalcStuck.StuckIff | userland/calc.c:40 | that quotient is the only one outside the 64-bit range |
| CalcStuck.ShortStuck | userland/calc.c:40 | an expression of at most 63 characters that meets it |
| EditorText.InsertText | userland/gui_apps.c:426-431 | typing is a single-character edit of the flat text at the caret when the row has room and nothing otherwise |
| EditorText.NewlineText | userland/gui_apps.c:432-439 | a line break is a single-character edit while there are rows left and nothing otherwise |
| EditorText.BackspaceText | userland/gui_apps.c:525-530 | backspace removes the character before the caret unless there is none or two rows do not fit one |
| EditorText.NewlineBackspaceIff | userland/gui_apps.c:432-439 | newline then backspace is the identity if and only if a row was left or nothing can be erased |
| EditorText.FullDocumentLoses | userland/gui_apps.c:432-439 | in a document of 64 rows newline then backspace takes a letter |
| EditorText.FullRowLoses | userland/gui_apps.c:426-431 | in a row of 79 letters a typed character then backspace takes a letter |
| EditorText.InsertBackspaceIff | userland/gui_apps.c:426-431 | typing then backspace is the identity if and only if the row had room or nothing can be erased |
| EditorText.CopiedIs | userland/gui_apps.c:456-470 | the rows copied from a selection are the flat text between its two positions |
| Editor.TextEditor.InsertChar | userland/gui_apps.c:426-431 | the row loop in the fixed buffer performs the specified edit |
| Editor.TextEditor.NewLine | userland/gui_apps.c:432-439 | the row loops in the fixed buffer perform the specified edit |
| Editor.TextEditor.Erase | userland/gui_apps.c:525-530 | the character and row loops in the fixed buffer perform the specified edit |
| Editor.TextEditor.Key | userland/gui_apps.c:525-530 | every key code does the specified edit or nothing |
| Editor.TextEditor.SelCopy | userland/gui_apps.c:441-470 | the copy is exactly the flat text between two positions in either order, without truncation |
| Windows.RaiseValid | userland/wm_windows.c:38-41 | raising gives a window the only greatest z and the focus and changes no other |
| Windows.ScanNew | userland/wm_windows.c:74-92 | a new surface takes the first free slot on top of all others with the focus |
| Windows.RunValid | userland/wm_windows.c:38-106 | over any run of scans, raises, closes and Show Desktop active windows have distinct ids and distinct z up to the top, and the focus is none or an active slot |
| Windows.ScanLeaves | userland/wm_windows.c:68-106 | after a scan every active window has the mapping the scan just listed for it |
| WindowScan.ScanServesIff | userland/wm_windows.c:68-106 | after a scan every listed id has a window if and only if the windows there were and the listed surfaces have at most 16 ids |
| WindowScan.SmallIdsServed | kernel/arch/x86_64/syscall.c:4247-4256 | over every run in which only ids below 8 are listed, every listed id has a window after a scan |
| WindowScan.OwnIff | userland/wm_windows.c:8 | listed surfaces have windows of their own if and only if each id has a window and no two surfaces have one id |
| Surfaces.SurfaceTable.WmCreate | kernel/arch/x86_64/syscall.c:4090-4184 | a surface takes the first unused slot, is centred, and goes by the number 0, because the slot is cleared after its number is stored |
| Surfaces.SurfaceTable.WmDestroy | kernel/arch/x86_64/syscall.c:4226-4233 | only the owner and the window manager clear a slot in use |
| Surfaces.SurfaceTable.WmOwnerDied | kernel/arch/x86_64/syscall.c:4387-4392 | clears exactly the slots of the task that ended |
| Surfaces.CreateIff | kernel/arch/x86_64/syscall.c:4090-4184 | a surface is made if and only if it is from 16 by 16 to 1280 by 800, a slot is unused and there is memory; it takes the first unused slot, in the middle of the screen, and no surface changes |
| Surfaces.CreatedListed | kernel/arch/x86_64/syscall.c:4247-4268 | a surface that was made is listed with the id its owner was given, owner and size, in the middle of the screen |
| Surfaces.DestroyIff | kernel/arch/x86_64/syscall.c:4226-4233 | a destroy call clears a slot if and only if it is in use and the caller owns it or is the window manager; no other slot changes |
| Surfaces.DiedIff | kernel/arch/x86_64/syscall.c:4387-4392 | the end of a task clears exactly its slots |
| Surfaces.SurfaceStays | kernel/arch/x86_64/syscall.c:4090-4392 | over every run without a destroy by its owner or the window manager and without the end of its owner a surface stays as it is |
| Surfaces.SurfaceEnds | kernel/arch/x86_64/syscall.c:4226-4392 | each such event clears it |
| Surfaces.SurfaceTable.WmScan | kernel/arch/x86_64/syscall.c:4247-4268 | lists the slots in use in order, up to the number asked for |
| Surfaces.RunKeeps | kernel/arch/x86_64/syscall.c:4098-4118 | over any run of system calls and window manager steps all surfaces and all windows go by the number 0 |
| Surfaces.OneWindow | userland/wm_windows.c:72-74 | over any such run there is never more than one window |
| Surfaces.OwnWindowIff | userland/wm_windows.c:68-106 | after any such run and a scan the surfaces have windows of their own if and only if there is at most one |
| Surfaces.TwoShareOne | kernel/arch/x86_64/syscall.c:4098-4118 | two programs that each create a surface share one window |
| Windows.OpenedVisibleIff | userland/wm_windows.c:74-92 | a new window shows if and only if the slot it took was not left hidden |
| Windows.NewWindowHidden | userland/wm_windows.c:74-92 | from an empty table: a surface appears, the desktop is shown, the surface goes, another appears, and its window does not show |
| Windows.RunShows | userland/wm_windows.c:74-92 | without Show Desktop no slot is ever hidden, over any run |
| Windows.ToggleTwiceIff | userland/wm.c:583-588 | pressing Show Desktop twice restores the table if and only if all windows were shown or all hidden |
| Windows.ToggleTwiceReached | userland/wm.c:589-601 | a surface appears, the desktop is shown, another appears: then pressing twice does not restore the table |
| Windows.Manager.ShowDesktopToggle | userland/wm.c:589-601 | the loops bring all windows back if one was hidden and hide all otherwise |
| Windows.SurfaceInRectIff | userland/wm_windows.c:172-250 | the drawn surface lies inside the rectangle the window is skipped by if and only if it is not drawn twice as large, or the border and shadow leave room for it |
| Windows.PaintSorted | userland/wm.c:1179-1188 | windows are painted in strictly increasing z |
| Windows.PaintHas | userland/wm.c:1179-1188 | the windows painted are exactly the visible ones |
| Windows.TopIsLastPainted | userland/wm_windows.c:30-36 | the window a hit test returns is the last painted of those at the point |
| WindowClicks.SeenPixel | userland/wm.c:1179-1188 | where no window above draws, painting the windows in order shows the surface of the window |
| WindowClicks.ClickIff | userland/wm_windows.c:30-36 | a click on a window seen at a point goes to it if and only if the point is in its frame or eight pixels around it and in no strip of two rows above a higher window's shadow |
| WindowClicks.UndoubledClickIff | userland/wm_windows.c:30-36 | for windows not drawn twice as large only those strips take clicks away |
| WindowClicks.ClickMisses | userland/wm_windows.c:241-245 | a 400 by 300 window at twice the UI scale is seen at (700, 500) and a click there goes to no window |
| WindowClicks.ClickTaken | userland/wm_windows.c:30-36 | a click on a window seen just above the frame of another goes to the other |
| Windows.Manager.WinAt | userland/wm_windows.c:30-36 | returns the visible window under the point with the greatest z, or none if there is none |
| Windows.Manager.BringFront | userland/wm_windows.c:38-41 | the raise step is the specified one |
| Windows.Manager.ScanWindows | userland/wm_windows.c:68-106 | the scan step is the specified one, and a failed scan changes nothing |
| Windows.Manager.CloseDone | userland/wm_windows.c:136-145 | the end of a close frees the slot and drops the focus on it |
| Windows.CloseIs | userland/wm_windows.c:136-145 | a close frees the slot, leaves every other slot and the top z alone and drops the focus only if it was there |
| Windows.CloseGone | userland/wm_windows.c:136-145 | the closed window is neither painted nor a candidate for any hit test, and every other window is as before |
| WindowScan.CloseIds | userland/wm_windows.c:136-145 | the table loses exactly the id of the closed window |
| Windows.FrameFills | userland/wm_windows.c:14-28 | a maximized window has the screen below the panel; any other keeps its size, carries its title bar and stays below the panel |
| Windows.SurfaceSize | userland/wm_windows.c:172-250 | a surface is drawn at its own size, at the size of a maximized frame, or twice as large at scale 2 when the screen has room |
| Windows.VisibleIff | userland/wm_windows.c:31 | an open window shows on its own workspace, or on all if it has none |
| Apk.CheckToken | userland/apk_core.c:150-162 | accepts exactly 1 to 31 allowed characters starting with a letter or digit |
| Apk.ReadHeader | userland/apk_core.c:172-194 | reads and checks a package header as specified |
| Apk.ReadEntry | userland/apk_core.c:387-413 | reads the one file of a package, which must be the package's own path below /bin, as specified |
| Apk.PackageManager.AddPkg | userland/apk_core.c:302-495 | exit code and files after an installation are the specified ones, rollback included |
| Apk.PackageManager.DelPkg | userland/apk_core.c:497-589 | exit code and files after a removal are the specified ones |
| Apk.FailedAddIff | userland/apk_core.c:470-494 | a failed installation changes no file if and only if no desktop entry or record was written in part |
| Apk.CutRecordSticks | userland/apk_core.c:470-494 | after a record was written in part the package counts as installed, without its program, and can neither be added nor removed |
| Apk.CutDesktopSticks | userland/apk_core.c:444-448 | after a desktop entry was written in part every package that brings one fails to install and the name cannot be removed |
| Apk.AddDelIff | userland/apk_core.c:497-589 | removing a fresh installation restores all files if and only if there was no desktop entry before |
| Apk.AddTouches | userland/apk_core.c:302-495 | an installation touches only the package's own three paths |
| Apk.DelTouches | userland/apk_core.c:497-589 | a removal touches only the package's own three paths |
| Apk.RecordLines | userland/apk_core.c:521-536 | a record reads back as the one path it was written with |
| Apk.RunRecorded | userland/apk_core.c:302-589 | over any run with whole records each record names the package's own program, which is there |
| Launcher.ScanEntry | userland/wm.c:325-334 | the line loop reads name, program and icon of a desktop entry as specified |
| Launcher.EntryReads | userland/apk_core.c:450-467 | the launcher reads the desktop text of any package as the package's name, its path below /bin and its icon |
| Launcher.AddLeaves | userland/apk_core.c:302-495 | after a successful installation the program holds the packed data, the record is its path, and the launcher reads name, path and icon from the desktop entry of a package that brings one; for any other package the desktop path is as before |
| Launcher.AddSucceedsIff | userland/apk_core.c:302-495 | adding a usable package that is not installed succeeds if and only if its program and, if it brings one, its desktop entry were not there, and every write and mode change it needs succeeds |
| ApkPack.MakePackage | scripts/mkpkg.py:44-60 | the loop over the files builds the specified archive |
| ApkPack.PackedUsableIff | scripts/mkpkg.py:44-60 | the package manager reads any archive the packer makes as the packed header and file if and only if it has one file, the program of its valid name, and valid version and icon |
| ApkPack.ArchiveRead | userland/apk_core.c:172-413 | a package whose fields hold valid texts up to their terminators and whose first file is the program of its name is read as that, whatever else the fields hold and whatever follows |
| ApkPack.OnlyArchives | userland/apk_core.c:172-413 | every file of bytes that is accepted is such a package |
| ApkPack.DesktopEntryLost | userland/apk_core.c:497-589 | adding and removing a package without a desktop entry deletes the one that was there |
| ApkPack.EmptyRecordSticks | userland/apk_core.c:470-494 | a record opened but not written leaves only itself and blocks the name for adding and removing |

## Left out

- JpegEncoder.JpegEncode: arithmetic on samples and coefficients is over the reals, so the rounding of single-precision floats is not modelled; pixels are given as rows, of which only the first w are read.
- JpegDct.Fdct: the sums are over the reals.
- JpegDct.TransformRange: is the range of the real transform.
- JpegIdct.Idct: the sums are over the reals.
- JpegIdct.InverseNear: is about the real transforms.
- JpegPixels.ToYCbCr: the conversion is over the reals.
- JpegEncoder.BitmapRoundTrip: is about real samples and coefficients, without the rounding of floats.
- JpegSamples.InverseGap: bounds the real inverse transform.
- JpegSamples.BitmapSamples: is about the samples of each block; rounding of floats is not modelled.
- JpegSamples.BitmapMeanSquare: the same.
- JpegDecoder.Decoder.ReadScan: keeps the dequantised blocks by position; `JpegRender.DrawPlane` transforms them and stores their samples after the scan, component by component, where the code does so block by block.
- JpegRender.DecodePicture: colours and samples are over the reals; a picture of two components, which the code draws with what the third plane held, is not drawn; a frame header between the scan and the end of the file is taken for that of the scan.
- JpegRender.BitmapPixels: is about real samples, without the rounding of floats.
- JpegColour.ColourInverse: the conversions are over the reals.
- JpegBlockIO.EncBlock: coefficients are bounded by 32767 in magnitude, far above what the transform of 8-bit samples gives.
- JpegDecoder.Decoder.JpegDecode: integers are unbounded, so a DC size above 31, which no encoder here writes, shifts without overflow; a component that names a quantiser table above 3 gets a table of zeros where the code reads past its array; after a failure only the result is stated, not which tables were already overwritten.
- Blit.CopyRow: the two rows lie in different pixel arrays.
- Blit.BlitTo: coordinates are unbounded integers, surfaces do not alias, and null surfaces are excluded by type.
- Blit.PresentRects: rectangles are required not to wrap around 32 bits, which holds for all entries of the dirty list.
- Compositor.Display.Frame: drawing calls are arbitrary functions from the pixel below to the pixel drawn, confined by the clip; text, icons, blur, shadows and the cursor image are not modelled.
- Compositor.PaintInIs: that a layer stays inside its gate is a hypothesis, proved or refuted for the surfaces of windows only.
- Compositor.RedrawnIs: the same hypothesis; without it `Compositor.Display.CompositeDirty` says what each pixel gets.
- Repaint.FrameExactIff: the same hypothesis, which `WindowLayers.ConfinedIff` decides for windows.
- Repaint.RunExact: that changes are damaged is a hypothesis; which events damage which rectangles, and animation timing, are not modelled.
- Repaint.FirstFrame: the hypotheses of `Repaint.RunExact`.
- Repaint.Desktop: the hypotheses of `Repaint.RunExact`.
- Windows.RunValid: the z counter is unbounded; titles, animation fields and pending launches are not modelled; raising is modelled for active slots, as its callers do; minimising, maximising and the dock's unhiding of a window are not events.
- Windows.Manager.ScanWindows: titles, paths, dirty flags and the damage calls of a scan are not modelled.
- Windows.Manager.CloseDone: the damage of the closed window's rectangle is not modelled.
- Surfaces.SurfaceTable.WmCreate: pages and their mappings are not modelled; whether there is memory is a parameter. Moving and resizing of surfaces and their titles are not modelled.
- RxRing.RingIsQueue: one host and one chip step at a time, frames of at most 11454 bytes as the chip's buffer allows; the transmit ring is not modelled.
- Efuse.ReadLogical: a cell read is either its value or a timeout; the register handshake is not modelled.
- Calc.EvalExpr: signed 64-bit overflow, undefined in C, wraps around; where the machine stops at the quotient of the least number and -1 the value goes on wrapped and an extra result says so.
- Calc.Calculator.HandleKey: drawing, which evaluates the text once more after every key, is not modelled.
- Editor.TextEditor.Key: the cursor keys, mouse, paste and saving are not modelled; pasting only calls the modelled edits.
- Apk.PackageManager.AddPkg: finding or fetching the package is a parameter, as is the outcome of every write (all of the file, nothing, or a part with failure reported), mode change and privilege check; rollback removals succeed; directories, messages and the downloaded copy under /tmp are not modelled.
- Launcher.ScanEntry: listing the directory, skipping entries without name or program, and adding the app to the launcher's list are not modelled.
- Networking, syscalls, PCI and other hardware bring-up, the shell, asset generators and repair scripts.
