# hhuOS in Dafny: image decoders, page tables, undo history, mount table

This project models the four parts of hhuOS whose correctness is hardest to see from the code, and proves what
each of them is for. Imperative code is modelled by classes and methods that keep the program's own state and
loops. Each method is proved against a specification that does not mention the program's tables and buffers.

**Decoders** (`zCustom/img_checker/stb_image.h`).

* *DEFLATE.* `Deflate.dfy` is a decoder for RFC 1951 that reads single bits. `Inflate.dfy` is stb_image's decoder
  with its 32-bit buffer, its nine-bit tables with a preshifted slow path, its growing output and its overlapping
  copies. `Padded.dfy` says which streams it accepts: the bit-by-bit decoder with a cursor that also counts the
  bytes loaded and knows where padding was inserted. stb_image succeeds exactly on those streams, up to room for
  the output. Their output is that of the bit-by-bit decoder on the input followed by zeros, and everything that
  decoder accepts without reading past the end is among them. The checks at lines 4205-4208 and 4236-4237 are proved
  never to fire.
* *PNG.* Rows are rebuilt in two alternating half buffers, with no row of zeros above the first. Decoding
  inverts every encoding, whatever filter each row uses. All five bit depths follow one rule about bits, alpha may be
  added in place, and the seven Adam7 passes cover the image once.
* *GIF.* LZW with linked prefixes writes the pixels of a dictionary decoder, in the row order of GIF89a. That decoder
  is related to the one of Appendix F of GIF89a. The test at line 6757 never holds, because `avail` has already moved
  on, and the entry is right all the same.
* *JPEG.* The tables are built from adjoining intervals of 16-bit words. Table lookup, search and the bit buffer
  with byte stuffing give the symbol whose Annex C code comes next. The one-lookup table for coefficients gives what
  DECODE, RECEIVE and EXTEND give.
* *PSD.* The PackBits decoder inverts every PackBits encoding and touches one channel only.

**Boot-time paging** (`src/GatesOfHell.cpp`). Three runs of `createInitialMapping` produce the intended translation
under the hardware's page walk. The second directory, rebuilt by counting used slots, is right because tables were
allocated in the order of their slots. Write protection later needs only that no two slots share a table.

**Undo history** (`src/application/pic/History.cpp`). After every call of every run in opaque colours, the layers show
the first `currentCommand` commands of the log and the segments of the line that is not finished, up to visibility and
blending bases, exactly if every call met a condition that can be checked before it. The buffers of the layers and of
the snapshots are never shared, and it is said which layers undo deletes.

**Mount table** (`src/filesystem/Filesystem.cpp`). Every reachable table has one mount point above all the others,
and a path is routed to the longest mount point that its components begin with.

Each decoder is also proved against a writer that follows the standard and shares none of its tables: whatever
`DeflateWriter`, `PngPicture`, `GifWriter` and `JpegStream` write is read back. Layer operations, strokes, paths and
mounts have their effects stated in plain fields and laws.

Where the code does not do what its comments or its callers expect, the model keeps the code. The exact
condition is proved:

* A truncated DEFLATE stream may be accepted: the byte 3 alone is one (`ThreeAccepted`, `DecodeThree`). `ParseZlib`
  succeeds exactly on the streams of `Padded.Accepted` whose output fits, and takes more bits than the input has
  exactly if the strict decoder refuses the stream.
* The comments at `zCustom/img_checker/stb_image.h:4249-4251` and `4327-4330` say that consuming any of the sixteen
  inserted bits is caught. It is not (`InsertedBitsTaken`). Of an accepted stream, inserted bits were taken exactly if
  decoding ended more than sixteen bits behind the place of insertion, so all or none were taken
  (`InsertedTakenExactly`). A stream without a dynamic block never takes any (`FixedEndsBefore`, `TakenNeedsDynamic`).
* A JPEG table with 256 symbols whose last code has nine bits or fewer is accepted, but that last symbol's number is
  also the mark for an empty table entry (`HiddenTable`). Words of that symbol are always taken to be ten bits long,
  and some are taken for another symbol (`HiddenWord`). The assertion at line 2140 fails exactly for the words of the
  symbol that are not among its last 64 (`SlowLookup`, `GuessRight`). For all other tables every lookup is right
  (`Lookup`).
* A GIF whose code table is left full for long is legal and refused: stb_image goes on numbering entries where GIF89a
  stops at 4096 (`LongPlainImageRefused`, with clear code and end code in place). The two decoders agree exactly on the data in which no more than
  8191 - 2^size codes follow one clear code (`AgreesExactly`).
* After everything was undone, a new command does not replace the undone ones, because `currentCommand - 1` wraps
  around (`UndoneCommandComesBack`, with the exact condition in `PerformExactly`). The picture is right all the same
  exactly if the operation gives the same with and without the undone commands (`PerformAtStart`), for a new layer
  exactly if the undone commands leave no layer (`AddAtStart`).
* Replayed lines are blended with another base than the lines that were drawn. The history is right for all opaque
  colours and for the eraser (`RunInSync`). For every other colour there is a drawing that undo and redo change
  (`TranslucentLine`), because exactly those colours depend on what lies below (`SolidExactly`).
* A line comes into the log only when the pen is lifted, and `src/application/pic/Pic.cpp:367-370` leaves it pending if
  the mouse is released over the panel. Undo and redo meanwhile take it from the picture, and it still comes into the
  log (`PendingLineLogged`): right exactly if the line leaves no mark on the picture then shown
  (`UndoneLineExactly`), after one undo and redo exactly if it has changed no pixel (`UndoRedoLineExactly`). An
  operation meanwhile is recorded before the line it followed (`PendingDuplicated`): right exactly if it can change
  places with the segments (`OperatedLineExactly`), which is told layer by layer (`CommutesExactly`) and always so if
  they go to layers that keep their numbers and are not copied (`OutOfTheWayCommutes`). A snapshot that is due meanwhile
  shows the line (`PendingInSnapshot`): undo is right then exactly if the line leaves no mark
  (`SnapshotLineExactly`). `StepExactly` and `RunExactly` put this together for all calls and runs.
* Undo deletes as many layers as the snapshot has, also if there are fewer. It deletes only layers that exist exactly
  if the slots it overwrites hold different living layers (`RestoreExactly`). Right after a layer was deleted that is
  exactly if there are at least as many layers as in the snapshot (`RestoreAfterDelete`).
* `deleteFile` compares strings rather than components, so it also refuses some paths that no mount point is below
  (`RefusedWithoutNeed`, with the exact set of refused paths in `BlockedTable` and `ProtectedExactly`).

## Model

| member | source | states |
|---|---|---|
| `Bits.BitReverse16IsRev` | zCustom/img_checker/stb_image.h:4107-4114 | the four mask-and-shift exchanges reverse the low sixteen bits of any number |
| `Bits.BitReverseIsRev` | zCustom/img_checker/stb_image.h:4116-4122 | reversing sixteen bits and shifting reverses a word of any shorter length |
| `Canonical.FitsIffKraft` | zCustom/img_checker/stb_image.h:4135-4149 | the range test per length succeeds exactly on the lists of lengths that meet Kraft's inequality |
| `Canonical.PrefixFree` | zCustom/img_checker/stb_image.h:4124-4169 | in an accepted list no canonical code is a prefix of another |
| `Canonical.CodeInjective` | zCustom/img_checker/stb_image.h:4151-4167 | symbols of one length have different codes |
| `Canonical.PositionInjective` | zCustom/img_checker/stb_image.h:4151-4167 | no two symbols get the same place in the sorted symbol table |
| `Canonical.PositionBound` | zCustom/img_checker/stb_image.h:4151-4167 | every place lies inside the symbol table |
| `ZTables.CountSizes` | zCustom/img_checker/stb_image.h:4130-4134 | the histogram of code lengths, without the unused symbols |
| `ZTables.StampFast` | zCustom/img_checker/stb_image.h:4159-4163 | the strided loop writes exactly the table indices whose low bits are the reversed code |
| `ZTables.BuildRanges` | zCustom/img_checker/stb_image.h:4135-4150 | first codes, first symbols and preshifted ends of every length, or failure exactly when the codes do not fit |
| `ZTables.EnterNext` | zCustom/img_checker/stb_image.h:4151-4167 | one symbol more in the sorted table and in the nine-bit table, the others kept |
| `ZTables.BuildHuffman` | zCustom/img_checker/stb_image.h:4124-4169 | succeeds exactly on the lists that meet Kraft's inequality, and then all tables describe the canonical codes of RFC 1951 |
| `ZLookup.FastHit` | zCustom/img_checker/stb_image.h:4262-4268 | a non-zero entry of the nine-bit table is the reference decoder's symbol and its length |
| `ZLookup.FastMiss` | zCustom/img_checker/stb_image.h:4262-4263 | a zero entry rules out every code of nine bits or fewer |
| `ZLookup.PreshiftedCompare` | zCustom/img_checker/stb_image.h:4227-4232 | comparing the reversed buffer with a preshifted end compares the first bits with the end of that length |
| `ZLookup.SlowHit` | zCustom/img_checker/stb_image.h:4233-4240 | the place computed from the code is in bounds, has the length found and holds the reference decoder's symbol |
| `DeflateFacts.DecodeFinds` | zCustom/img_checker/stb_image.h:4243-4271 | if a symbol's code stands in the stream, the bit-by-bit decoder finds that symbol and no shorter code |
| `DeflateFacts.DecodeMisses` | zCustom/img_checker/stb_image.h:4224-4241 | above the end of the longest codes the bit-by-bit decoder finds nothing |
| `DeflateFacts.RevRead` | zCustom/img_checker/stb_image.h:4229 | reversing the buffered word gives the stream's bits in the order of a Huffman code |
| `DeflateFacts.FixedFit` | zCustom/img_checker/stb_image.h:4452-4479 | the fixed code lengths are accepted by the table builder |
| `Padded.ReadyAgrees` | zCustom/img_checker/stb_image.h:4246-4261 | a symbol is refused for want of input only past its end, and inserted bits lie behind the input |
| `Padded.CodeAgrees` | zCustom/img_checker/stb_image.h:4243-4271 | a symbol is decoded exactly as the bit-by-bit decoder does, or refused past the end |
| `Padded.SymbolsAgree` | zCustom/img_checker/stb_image.h:4309-4357 | an accepted block has the output and end of the bit-by-bit decoder; what the strict decoder accepts is accepted |
| `Padded.StoredAgrees` | zCustom/img_checker/stb_image.h:4409-4436 | a stored block is accepted exactly if the strict decoder accepts it, also after padding was inserted |
| `Padded.DynamicCodesAgree` | zCustom/img_checker/stb_image.h:4359-4407 | the codes of a dynamic block are those of the bit-by-bit decoder, wherever the buffer was filled |
| `Padded.NoBlockPastEnd` | zCustom/img_checker/stb_image.h:4489-4506 | a block that would start past the end of the input is refused, so the loop over blocks ends |
| `Padded.InflateAgrees` | zCustom/img_checker/stb_image.h:4481-4508 | for every limit: an accepted stream is decoded as the bit-by-bit decoder decodes it on the input followed by zeros, and every strictly accepted stream is accepted |
| `Padded.InsertedTakenExactly` | zCustom/img_checker/stb_image.h:4246-4261 | of an accepted stream, inserted bits were taken exactly if it ended more than sixteen bits behind their place, all or none, and exactly if bytes were loaded behind them |
| `Room.FitsAfterGrowth` | zCustom/img_checker/stb_image.h:4273-4293 | growing the output in steps reaches exactly the sizes that growing at once would reach |
| `Inflate.ZBuf.Get8` | zCustom/img_checker/stb_image.h:4197-4200 | the next byte, or zero at the end |
| `Inflate.ZBuf.FillBits` | zCustom/img_checker/stb_image.h:4202-4212 | the buffer holds the next bits of the stream before and after, and the bytes up to the fourth after the present one are loaded |
| `Inflate.ZBuf.Receive` | zCustom/img_checker/stb_image.h:4214-4222 | returns the next n bits of the zero-extended input, whatever was buffered, and moves the cursor as specified |
| `Inflate.ZBuf.Refill` | zCustom/img_checker/stb_image.h:4246-4261 | sixteen bits to look at, padding inserted at its place, or failure exactly if it was inserted before |
| `Inflate.ZBuf.DecodeSlow` | zCustom/img_checker/stb_image.h:4224-4241 | finds what the reference decoder finds when no short code stands in the stream |
| `Inflate.ZBuf.DecodeSymbol` | zCustom/img_checker/stb_image.h:4243-4271 | returns exactly the symbol whose canonical code comes next and takes exactly its bits; fails exactly if there is none or no sixteen bits can be had |
| `Inflate.ZBuf.Expand` | zCustom/img_checker/stb_image.h:4273-4293 | succeeds exactly when the bytes can be made to fit, keeps what was written |
| `Inflate.LengthTables` | zCustom/img_checker/stb_image.h:4295-4301 | the length tables follow the rule behind the table of RFC 1951 |
| `Inflate.DistanceTables` | zCustom/img_checker/stb_image.h:4303-4307 | the distance tables follow the rule behind the table of RFC 1951 |
| `Inflate.ZBuf.CopyBytes` | zCustom/img_checker/stb_image.h:4344-4354 | the copy, also when it overlaps itself and in the distance-one branch, appends what the reference appends byte by byte |
| `Inflate.ZBuf.ReceiveMatch` | zCustom/img_checker/stb_image.h:4335-4343 | length, distance and cursor of a match are the specified ones, and it fails exactly where specified |
| `Inflate.ZBuf.BlockSymbol` | zCustom/img_checker/stb_image.h:4313-4355 | one turn of the loop is one specified step, with the check at the end of a block |
| `Inflate.ZBuf.ParseHuffmanBlock` | zCustom/img_checker/stb_image.h:4309-4357 | output, cursor and failure of a block are exactly the specified ones for every limit, up to room |
| `Inflate.ZBuf.ReceiveCodeLengthLengths` | zCustom/img_checker/stb_image.h:4361-4376 | the lengths of the code length code in their permuted order, and the cursor after them |
| `Inflate.ZBuf.RunStep` | zCustom/img_checker/stb_image.h:4379-4402 | one run-length symbol extends the list of lengths as specified, or fails exactly where specified |
| `Inflate.ZBuf.ReceiveLengths` | zCustom/img_checker/stb_image.h:4377-4403 | the code lengths of a dynamic block, or failure, exactly as specified |
| `Inflate.ZBuf.ComputeHuffmanCodes` | zCustom/img_checker/stb_image.h:4359-4407 | both tables of a dynamic block, exactly when the specification accepts its header |
| `Inflate.ZBuf.StoredLength` | zCustom/img_checker/stb_image.h:4411-4428 | skips to the byte boundary, drains the buffer and checks the two lengths; fails exactly if the strict decoder does |
| `Inflate.ZBuf.ParseUncompressedBlock` | zCustom/img_checker/stb_image.h:4409-4436 | a stored block is copied exactly when the strict decoder copies it, up to room |
| `Inflate.ZBuf.ParseHeader` | zCustom/img_checker/stb_image.h:4438-4450 | accepts exactly the two-byte headers of RFC 1950 with method 8 and no preset dictionary, with at least one byte after them |
| `Inflate.ZBuf.ParseBlock` | zCustom/img_checker/stb_image.h:4492-4505 | every block type is decoded exactly as specified, type 3 refused |
| `Inflate.ZBuf.ParseZlib` | zCustom/img_checker/stb_image.h:4481-4508 | succeeds exactly on the accepted streams whose output fits, with the specified output and cursor; relates each result to the bit-by-bit decoder, strict and with zeros behind the input |
| `DeflateWriter.OrderIs` | zCustom/img_checker/stb_image.h:4361 | the order of the code length code follows the rule of section 3.2.7: 16, 17, 18, 0, then 8 + k and 7 - k in turn |
| `DeflateWriter.FixedTable` | zCustom/img_checker/stb_image.h:4452-4479 | the fixed codes are those of the table of section 3.2.6, code by code |
| `DeflateWriter.LengthIs` | zCustom/img_checker/stb_image.h:4295-4301 | each length symbol begins where the one before ends, the last is 258 |
| `DeflateWriter.DistanceIs` | zCustom/img_checker/stb_image.h:4303-4307 | each distance symbol begins where the one before ends |
| `DeflateWriter.CopyRepeats` | zCustom/img_checker/stb_image.h:4344-4354 | a copy, also an overlapping one, repeats the last bytes in turn |
| `DeflateWriter.HeaderRead` | zCustom/img_checker/stb_image.h:4359-4407 | a dynamic header, with any code length code and any run-length coding, gives back its two codes |
| `DeflateWriter.StoredRead` | zCustom/img_checker/stb_image.h:4409-4436 | a stored block, with any padding bits, gives back its bytes |
| `DeflateWriter.ItemsRead` | zCustom/img_checker/stb_image.h:4309-4357 | literals and copies written with any codes that fit are read back |
| `DeflateWriter.InflateWritten` | zCustom/img_checker/stb_image.h:4481-4508 | every stream of stored, fixed and dynamic blocks written by the standard, with or without a zlib header, is decoded to what it means |
| `InflateBack.ReadBack` | zCustom/img_checker/stb_image.h:4481-4508 | stb_image's decoder returns the meaning of every such stream in a buffer of its size |
| `Truncated.ThreeAccepted` | zCustom/img_checker/stb_image.h:4202-4222 | the one-byte stream 3 is accepted after ten bits, and the strict decoder refuses it |
| `Truncated.DecodeThree` | zCustom/img_checker/stb_image.h:4481-4508 | on that byte the decoder succeeds with empty output and ten bits taken |
| `Truncated.InsertedBitsTaken` | zCustom/img_checker/stb_image.h:4323-4333 | 27 bytes whose decoding takes all sixteen inserted bits and is accepted |
| `Truncated.FixedEndsBefore` | zCustom/img_checker/stb_image.h:4309-4357 | an accepted block with fixed codes never takes an inserted bit |
| `Truncated.TakenNeedsDynamic` | zCustom/img_checker/stb_image.h:4481-4508 | a stream that has no dynamic block, by the bit-by-bit decoder, never takes an inserted bit |
| `PngFilter.PaethIsReference` | zCustom/img_checker/stb_image.h:4657-4668 | the branch-reduced predictor is the PaethPredictor of the PNG specification for all integers, ties included |
| `PngFilter.ReconInvertsFilter` | zCustom/img_checker/stb_image.h:4754-4785 | reconstruction undoes each of the five filters, for any row above and any distance |
| `PngFilter.DecodeInvertsEncode` | zCustom/img_checker/stb_image.h:4737-4787 | every image survives filtering, with any filter on any row, and reconstruction |
| `PngFilter.DecodesExactly` | zCustom/img_checker/stb_image.h:4719-4749 | decoding fails exactly if there are too few bytes or a row has a filter number above four |
| `PngFilter.FirstRow` | zCustom/img_checker/stb_image.h:4648-4655 | each substitute filter gives, whatever lies in the buffer above, what its original gives below a row of zeros |
| `PngFilter.FilterTypes` | zCustom/img_checker/stb_image.h:4638-4646 | the filter numbers and what each predicts, as in section 9.2 of the PNG specification |
| `PngUnfilter.CopyStart` | zCustom/img_checker/stb_image.h:4756-4760 | the copied bytes are the reconstructed ones where the filter predicts zero |
| `PngUnfilter.SubRest` | zCustom/img_checker/stb_image.h:4759-4763 | the loop of the Sub filter reconstructs the row |
| `PngUnfilter.UnfilterUp` | zCustom/img_checker/stb_image.h:4764-4767 | the loop of the Up filter reconstructs the row |
| `PngUnfilter.AverageStart` | zCustom/img_checker/stb_image.h:4768-4770 | the first pixel of the Average filter |
| `PngUnfilter.AverageRest` | zCustom/img_checker/stb_image.h:4771-4773 | the other pixels of the Average filter |
| `PngUnfilter.PaethStart` | zCustom/img_checker/stb_image.h:4774-4776 | in the first pixel the Paeth filter is the Up filter |
| `PngUnfilter.PaethRest` | zCustom/img_checker/stb_image.h:4777-4779 | the other pixels of the Paeth filter |
| `PngUnfilter.AverageFirst` | zCustom/img_checker/stb_image.h:4780-4784 | the Average filter below a row of zeros, without such a row |
| `PngUnfilter.UnfilterRow` | zCustom/img_checker/stb_image.h:4737-4785 | in either half of the work buffer, the row is the reference reconstruction below the other half, or below zeros for the first row |
| `PngSamples.TopIsSample` | zCustom/img_checker/stb_image.h:4798-4817 | the top bits of the shifted byte are the row's next sample, most significant bit first |
| `PngSamples.ExpandBits` | zCustom/img_checker/stb_image.h:4790-4818 | one, two and four bits: every sample of the row, scaled, in order |
| `PngRows.AlphaExpand` | zCustom/img_checker/stb_image.h:4675-4693 | alpha after every pixel, the same whether the source is another buffer or the destination itself |
| `PngRows.WordsColour` | zCustom/img_checker/stb_image.h:4844-4850 | sixteen-bit colour samples, high byte first, with alpha |
| `PngRows.ExpandRow` | zCustom/img_checker/stb_image.h:4789-4852 | for every depth and channel count, the samples that one rule about bits gives |
| `PngImage.CreateImageRaw` | zCustom/img_checker/stb_image.h:4696-4859 | succeeds exactly when the reference decodes the rows, and then shows exactly those rows |
| `PngImage.EncodedRows` | zCustom/img_checker/stb_image.h:4696-4859 | any encoding of an image, with any filters and anything behind it, is decoded to its rows |
| `PngPicture.StrideExactly` | zCustom/img_checker/stb_image.h:4708-4735 | the distance to the left is the size of a pixel in whole bytes, at least one, for all but several samples of a low depth |
| `PngPicture.ScaleIs` | zCustom/img_checker/stb_image.h:4791 | grey of one, two and four bits is spread evenly over 0 to 255 |
| `PngPicture.PixelShown` | zCustom/img_checker/stb_image.h:4789-4852 | every pixel of a row packed by the standard is shown in order, scaled and with full alpha if it has none |
| `PngPicture.PictureShown` | zCustom/img_checker/stb_image.h:4696-4859 | every picture, with any filter on any row and anything behind it, comes back pixel by pixel |
| `Adam7.Covered` | zCustom/img_checker/stb_image.h:4873-4895 | every pixel is written by its own pass, from inside that pass's image |
| `Adam7.Written` | zCustom/img_checker/stb_image.h:4880-4895 | what a pass writes is in bounds and belongs to that pass, column and row alone |
| `Adam7.WrittenOnce` | zCustom/img_checker/stb_image.h:4873-4895 | no two writes of the seven passes go to one pixel |
| `Adam7.SizesAddUp` | zCustom/img_checker/stb_image.h:4880-4881 | the sizes of the seven images sum to width times height |
| `PngInterlace.CopyPass` | zCustom/img_checker/stb_image.h:4888-4895 | the pass's pixels go to their places, every other pixel is kept |
| `PngInterlace.CreateInterlaced` | zCustom/img_checker/stb_image.h:4861-4904 | succeeds exactly when every pass decodes at its place in the data, and then every pixel is the one its pass has for it |
| `PngPicture.PassLies` | zCustom/img_checker/stb_image.h:4873-4900 | each pass begins where the filtered rows of the passes before it end |
| `PngPicture.InterlacedShown` | zCustom/img_checker/stb_image.h:4861-4904 | every interlaced picture, with any filters, is accepted, and every pixel comes back at its place |
| `GifLzw.HoldsAdded` | zCustom/img_checker/stb_image.h:6750-6757 | one entry more keeps every string and spells the last string with one symbol more |
| `GifLzw.HoldsCleared` | zCustom/img_checker/stb_image.h:6707-6715 | after a clear code the table spells the single symbols |
| `GifLzw.EntryFacts` | zCustom/img_checker/stb_image.h:6744-6761 | what a code stands for in terms of the linked table, including the code that is being made |
| `GifRaster.RowOrderComplete` | zCustom/img_checker/stb_image.h:6875-6881 | the interlaced and the plain order visit every row, none twice |
| `GifRaster.CursorOrder` | zCustom/img_checker/stb_image.h:6679-6688 | the cursor visits the rows in the order of GIF89a, for every height |
| `GifRaster.RowCount` | zCustom/img_checker/stb_image.h:6875-6881 | the order has exactly as many rows as the rectangle |
| `GifRaster.InterlacedRow` | zCustom/img_checker/stb_image.h:6679-6688 | the i-th row of the order in numbers, as in Appendix E of GIF89a |
| `GifRaster.Raster.constructor` | zCustom/img_checker/stb_image.h:6857-6881 | the cursor starts at the corner, or nowhere if the rectangle has no columns |
| `GifRaster.Raster.PutPixel` | zCustom/img_checker/stb_image.h:6664-6689 | one symbol is painted at the next place of the order, or ignored after the last |
| `GifRaster.Raster.FrameFull` | zCustom/img_checker/stb_image.h:6664-6689 | after width times height symbols every pixel of the rectangle has been visited |
| `GifRaster.Raster.FrameShown` | zCustom/img_checker/stb_image.h:6664-6689 | symbol i * w + c is shown in column c of the i-th row of the order in its palette colour, or what was there before if that is transparent |
| `GifDecoder.Gif.OutCode` | zCustom/img_checker/stb_image.h:6654-6689 | the recursion ends and writes the code's string in order |
| `GifDecoder.Gif.AddEntry` | zCustom/img_checker/stb_image.h:6749-6757 | the new entry is right also when the present code is the entry being made |
| `GifDecoder.Gif.StringCode` | zCustom/img_checker/stb_image.h:6744-6771 | a string code does what the reference decoder does, errors included |
| `GifDecoder.Gif.HandleCode` | zCustom/img_checker/stb_image.h:6729-6771 | one code is one step of the reference decoder |
| `GifDecoder.Gif.ProcessRaster` | zCustom/img_checker/stb_image.h:6691-6774 | the pixels written are the symbols of the reference LZW decoder on the joined sub-blocks, and success agrees with it; they are those of the GIF89a decoder exactly while no run of codes is too long |
| `GifWriter.BlocksRead` | zCustom/img_checker/stb_image.h:6717-6727 | the bytes of sub-blocks of any sizes are joined, whatever lies around them |
| `GifWriter.EntryIs` | zCustom/img_checker/stb_image.h:6744-6761 | a code stands for an earlier string and the first colour of the one after it, also if that is the string being read |
| `GifWriter.ImageBack` | zCustom/img_checker/stb_image.h:6691-6774 | an image cut into strings in any way, with clear codes anywhere, in sub-blocks of any sizes, is decoded to its colours |
| `GifStandard.AgreesExactly` | zCustom/img_checker/stb_image.h:6691-6774 | stb_image's table and that of GIF89a give the same result exactly if no run of codes after a clear code is longer than 8191 - 2^size |
| `GifStandard.LongPlainImageRefused` | zCustom/img_checker/stb_image.h:6751-6753 | a long image of one colour, from a clear code to an end code, that the GIF89a decoder accepts and stb_image refuses |
| `JpegCodes.Interval` | zCustom/img_checker/stb_image.h:2016-2030 | the words that begin with a code follow directly on those of the code before |
| `JpegCodes.MatchesExactly` | zCustom/img_checker/stb_image.h:2117-2131 | a code is a prefix of sixteen bits exactly if they lie in its interval |
| `JpegCodes.MatchesOnce` | zCustom/img_checker/stb_image.h:2016-2030 | no code is a prefix of another |
| `JpegCodes.FitsExactly` | zCustom/img_checker/stb_image.h:2022-2026 | the codes are words of their lengths exactly if Kraft's inequality holds |
| `JpegCodes.SlowHit` | zCustom/img_checker/stb_image.h:2123-2140 | between the ends of two lengths, code plus delta is the number of the one symbol that matches |
| `JpegTables.JHuffman.ListSizes` | zCustom/img_checker/stb_image.h:2007-2014 | the list of lengths of Annex C, or failure exactly above 256 symbols |
| `JpegTables.JHuffman.OneLength` | zCustom/img_checker/stb_image.h:2019-2030 | codes, delta and preshifted end of one length, or failure only if the codes cannot fit |
| `JpegTables.JHuffman.AssignCodes` | zCustom/img_checker/stb_image.h:2016-2031 | all lengths, exactly when the codes fit |
| `JpegTables.JHuffman.EnterFast` | zCustom/img_checker/stb_image.h:2035-2044 | a short code owns exactly the nine-bit entries that begin with it |
| `JpegTables.JHuffman.BuildHuffman` | zCustom/img_checker/stb_image.h:2003-2046 | succeeds exactly for at most 256 symbols whose codes fit, and then all tables describe the Annex C codes |
| `JpegDecode.Searched` | zCustom/img_checker/stb_image.h:2123-2140 | the search stops at the length of the one code that matches, at 10 for a hidden symbol with the number guessed there, at 17 exactly if none matches; the number is always in range |
| `JpegDecode.SlowLookup` | zCustom/img_checker/stb_image.h:2117-2140 | the range check on the symbol number never fires, and the assertion holds exactly if no symbol is hidden or the word is among the last 64 |
| `JpegDecode.AssertedExactly` | zCustom/img_checker/stb_image.h:2140 | the assertion says that the symbol's code is what comes next |
| `JpegDecode.GuessRight` | zCustom/img_checker/stb_image.h:2136-2140 | for a word of a hidden symbol the number is 252 to 255, and the right one exactly for the last 64 words |
| `JpegDecode.Lookup` | zCustom/img_checker/stb_image.h:2104-2140 | table and search together return the symbol whose code the word begins with and its length, that there is none, or for a hidden symbol the guess and ten |
| `JpegDecode.HiddenWord` | zCustom/img_checker/stb_image.h:2104-2146 | in every accepted table with a hidden symbol some word is given the wrong length and another symbol |
| `JpegDecode.HiddenTable` | zCustom/img_checker/stb_image.h:2033-2044 | 255 codes of eight bits and one of nine are accepted and hide a symbol |
| `JpegDecode.RotateParts` | zCustom/img_checker/stb_image.h:2161-2163 | rotating and masking part a word into its leading field and the rest shifted up |
| `JpegReader.Reader.NextByte` | zCustom/img_checker/stb_image.h:2078-2086 | the next byte of the entropy-coded segment, stuffing and fill bytes removed, until a marker |
| `JpegReader.Reader.GrowBuffer` | zCustom/img_checker/stb_image.h:2075-2090 | filling the buffer changes nothing of what is still to be read |
| `JpegReader.Reader.HuffDecode` | zCustom/img_checker/stb_image.h:2097-2146 | a symbol is returned only if its code comes next, and exactly that code is taken, or, of a hidden symbol, ten bits with the number guessed from them; a code that comes next and ends before the marker is never missed |
| `JpegReader.Reader.ExtendReceive` | zCustom/img_checker/stb_image.h:2149-2166 | the next n bits, extended as in section F.2.2.1 of ITU-T T.81, unless a marker stands within them |
| `JpegDecode.ExtendInverts` | zCustom/img_checker/stb_image.h:2149-2166 | every coefficient value is what its n bits, written as in section F.1.2.1, are extended to |
| `JpegReader.NextOnce` | zCustom/img_checker/stb_image.h:2097-2146 | at most one code comes next |
| `JpegStream.EntropyOfStuffed` | zCustom/img_checker/stb_image.h:2078-2086 | stuffed data, with any fill bytes, wherever it lies and whether a marker or the end of the input follows, is fed as it was before stuffing |
| `JpegStream.ReadBack` | zCustom/img_checker/stb_image.h:2097-2146 | symbols written with their Annex C codes, packed and stuffed, are read back one by one |
| `JpegFastAc.CoefficientEntry` | zCustom/img_checker/stb_image.h:2057-2070 | run, value and total length packed into one number, or zero if the value or the code is too long |
| `JpegFastAc.BuildFastAc` | zCustom/img_checker/stb_image.h:2050-2073 | every entry holds exactly the coefficient of the code that its nine bits begin with, or zero |
| `JpegFastAc.FastCoefficient` | zCustom/img_checker/stb_image.h:2234-2245 | a non-zero entry takes the coefficient that is coded next |
| `JpegFastAc.SlowCoefficient` | zCustom/img_checker/stb_image.h:2246-2259 | symbol decoding and receive-extend take the coefficient that is coded next; for a table with a hidden symbol, what is taken instead |
| `JpegFastAc.CodedOnce` | zCustom/img_checker/stb_image.h:2234-2259 | there is one such coefficient, so the two branches agree in run, value and bits used |
| `Psd.UnpackInvertsCoding` | zCustom/img_checker/stb_image.h:6088-6124 | every PackBits encoding, with literals, runs and no-operations in any order, is unpacked to its bytes |
| `Psd.PutPacket` | zCustom/img_checker/stb_image.h:6094-6120 | one packet is written four bytes apart, or refused without a change if it is too long |
| `Psd.DecodeRle` | zCustom/img_checker/stb_image.h:6088-6124 | ends on every input, succeeds exactly when the reference does, writes exactly the channel's bytes and no other |
| `PageTables.TablesDisjoint` | src/GatesOfHell.cpp:860-885 | two used slots of a directory never share a table |
| `PageTables.AddressParts` | src/GatesOfHell.cpp:860-885 | the two indices of a virtual address are its upper ten bits and the ten bits below |
| `PageTables.NewTableInOrder` | src/GatesOfHell.cpp:868-875 | a new table for a higher slot keeps the tables in the order of their slots |
| `PageTables.NewTableWalk` | src/GatesOfHell.cpp:868-875 | a new table changes no translation |
| `PageTables.InOrderSeparate` | src/GatesOfHell.cpp:860-885 | tables in slot order are never shared by two slots or with the directory |
| `PageTables.PageWalk` | src/GatesOfHell.cpp:877-881 | where no two slots share a table, writing one entry changes the translation of that page and of no other |
| `Boot.Memory.CreateInitialMapping` | src/GatesOfHell.cpp:860-885 | page i of the range translates to physical page i, all other pages as before, and the result is the number of slots that became used |
| `Boot.Memory.CreateKernelMappings` | src/GatesOfHell.cpp:210-226 | after the three calls the page walk gives the three ranges and nothing else, with tables in slot order |
| `Boot.RebuiltMirrors` | src/GatesOfHell.cpp:275-288 | counting used slots finds the virtual address of the table in the same slot, because tables are in slot order |
| `Boot.Memory.RebuildVirtualDirectory` | src/GatesOfHell.cpp:275-288 | the second directory holds for every used slot an address that translates to that slot's table |
| `Boot.Memory.SetUpPaging` | src/GatesOfHell.cpp:210-288 | from the empty directory to the finished pair of directories, with no shared tables |
| `Boot.ProtectedPage` | src/GatesOfHell.cpp:541-550 | in any such pair of directories, changing a page's flags through the second one changes that page alone and keeps the two in step |
| `Boot.WriteBit` | src/GatesOfHell.cpp:541-550 | clearing the flag clears exactly bit one of the flags |
| `Boot.Memory.WriteProtect` | src/GatesOfHell.cpp:541-550 | in any such pair of directories, exactly the pages of the range lose their writable flag |
| `Blending.SolidExactly` | src/application/pic/helper.cpp:10-24 | exactly the opaque colours and zero leave a pixel that does not depend on what lies below |
| `Blending.Div255Rounds` | src/application/pic/helper.cpp:10-24 | the division by 255 is rounded to the nearest |
| `Blending.BlendChannels` | src/application/pic/helper.cpp:10-24 | alpha and each colour channel of a blend are the weighted sums of their own channels |
| `Blending.OverBlack` | src/application/pic/helper.cpp:10-24 | every other colour stays itself over nothing and changes over opaque black |
| `History.DrawSameExactly` | src/application/pic/Layers.cpp:704-722 | on equal pictures a stroke leaves equal pictures exactly if it leaves the same ink at every pixel it touches |
| `History.ExecEffect` | src/application/pic/Layers.cpp:70-408 | for each command, which old layer stands at each number afterwards and every field of the changed ones |
| `History.EffectUnique` | src/application/pic/Layers.cpp:70-408 | these fields determine the result |
| `History.ExecSame` | src/application/pic/History.cpp:127-223 | no command without translucent strokes depends on which layers are shown or on the blending bases |
| `History.StepShape` | src/application/pic/History.cpp:57-106 | every call keeps the cursor inside the log and one snapshot for every five commands |
| `History.RunShape` | src/application/pic/History.cpp:57-366 | in every run whatever, no list is read out of bounds |
| `History.UndoThenRedo` | src/application/pic/History.cpp:317-366 | redo takes back an undo, up to visibility and bases |
| `History.RedoThenUndo` | src/application/pic/History.cpp:317-366 | undo takes back a redo, up to visibility and bases |
| `History.PerformExactly` | src/application/pic/History.cpp:57-75 | a new command replaces what was undone exactly if the cursor is not at the start of a longer log |
| `History.UndoneCommandComesBack` | src/application/pic/History.cpp:58 | for any two new layers: add one, undo, add the other, and log and layers disagree |
| `History.TranslucentLine` | src/application/pic/History.cpp:175-183 | for every colour that is neither opaque nor zero: a line in it over a black one is replayed otherwise, and undo and redo change the picture |
| `Pending.DrawAllIs` | src/application/pic/Layers.cpp:704-776 | solid segments leave at each pixel the colour of the last one that touches it, whatever the base |
| `Pending.MissingExactly` | src/application/pic/History.cpp:76-88 | segments missing below later ones do not show exactly if drawing all of them once more changes nothing |
| `Pending.CommutesExactly` | src/application/pic/Layers.cpp:252-408 | for every command, the exact condition, layer by layer, under which it can change places with pending segments |
| `Pending.OutOfTheWayCommutes` | src/application/pic/Layers.cpp:252-408 | by layer numbers alone: moving and hiding always, adding unless a segment has the new number, deleting, swapping and copying if no segment goes to a layer that is copied or renumbered |
| `Pending.LoggedExactly` | src/application/pic/History.cpp:90-105 | a recorded command keeps everything in step exactly if layers and due snapshot show it |
| `Pending.PerformAtStart` | src/application/pic/History.cpp:57-75 | after everything was undone an operation keeps the history right exactly if the undone commands make no difference to it |
| `Pending.AddAtStart` | src/application/pic/History.cpp:57-75 | for a new layer exactly if the undone commands leave no layer |
| `Pending.PenUpExactly` | src/application/pic/History.cpp:78-88 | lifting the pen keeps log and picture alike exactly if drawing the line once more would change nothing |
| `Pending.StepExactly` | src/application/pic/History.cpp:57-366 | every call, whatever is pending, keeps layers, log and snapshots in step exactly under its condition |
| `Pending.RunExactly` | src/application/pic/History.cpp:57-366 | after every call of a run everything is in step exactly if every call met its condition |
| `Pending.RunInSync` | src/application/pic/History.cpp:57-366 | in every such run the layers show the first commands up to the cursor and the line on top, and snapshot k shows the first 5 (k + 1) |
| `Pending.UndoneLineExactly` | src/application/pic/History.cpp:317-366 | undo and redo in any order while a line is pending: right at its end exactly if it leaves no mark on the picture then shown |
| `Pending.UndoRedoLineExactly` | src/application/pic/History.cpp:317-366 | one undo and one redo: exactly if the line has changed no pixel |
| `Pending.OperatedLineExactly` | src/application/pic/History.cpp:76-93 | an operation while a line is pending: right at its end exactly if the two can change places |
| `Pending.SnapshotLineExactly` | src/application/pic/History.cpp:95-105 | a snapshot while a line is pending: undo is right exactly if the line leaves no mark |
| `Pending.PendingLineLogged` | src/application/pic/History.cpp:76-88 | undo and redo before the pen is lifted: a run after which log and layers disagree |
| `Pending.PendingDuplicated` | src/application/pic/Layers.cpp:368-388 | a layer duplicated before the pen is lifted: a run after which log and layers disagree |
| `Pending.PendingInSnapshot` | src/application/pic/History.cpp:95-105 | a fifth command before the pen is lifted: a run after which undo does not remove the line |
| `HistoryLog.Log.Truncate` | src/application/pic/History.cpp:58-74 | the two loops forget exactly the commands and snapshots after the cursor |
| `HistoryLog.Log.TakeSnapshot` | src/application/pic/History.cpp:95-105 | a visible copy of every layer, with its pixels as its base |
| `HistoryLog.Layers.Act` | src/application/pic/Layers.cpp:70-408 | the operations themselves have these effects |
| `HistoryLog.Log.AddCommand` | src/application/pic/History.cpp:57-106 | the new log, cursor, lines and snapshots are those of the specification's step |
| `HistoryLog.Log.Operate` | src/application/pic/Layers.cpp:252-408 | position, size, visibility, pixels and base of every layer afterwards, field by field; the command is recorded behind those up to the cursor, or nothing changes if it refuses |
| `HistoryLog.Log.DrawLine` | src/application/pic/Layers.cpp:752-776 | at every pixel a segment touches the colour over the base, or nothing from the eraser, all else kept; the segment is recorded, or ignored without a layer |
| `HistoryLog.Log.PrepareNextDrawing` | src/application/pic/Layers.cpp:800-809 | the layer's pixels become its base, and the recorded segments one command |
| `HistoryLog.Log.Undo` | src/application/pic/History.cpp:317-352 | snapshot and partial replay give the specification's undo; the snapshot asked for is there |
| `HistoryLog.Log.Redo` | src/application/pic/History.cpp:362-366 | the next command is executed again and the cursor moves past it |
| `PixelLayers.PixelLayer.constructor` | src/application/pic/Layer.cpp:38-46 | a layer has pixel buffers of its own, equal to the given pixels |
| `PixelLayers.PixelLayer.Empty` | src/application/pic/Layer.cpp:15-23 | a layer of zeros with a base of zeros |
| `PixelLayers.PixelLayer.SetPixel` | src/application/pic/Layer.cpp:153-159 | changes the pixel at the coordinates, if there is one, and no other |
| `PixelLayers.PixelLayer.PrepareNextDrawing` | src/application/pic/Layer.cpp:183-189 | the second buffer becomes a fresh copy of the pixels |
| `PixelLayers.PixelLayer.SetNewBuffer` | src/application/pic/Layer.cpp:170-177 | the layer takes over the new buffer |
| `PixelLayers.Copies` | src/application/pic/History.cpp:95-105 | the snapshot's value, in memory that nothing else refers to and that no two copies share |
| `PixelLayers.Editor.AddEmpty` | src/application/pic/Layers.cpp:70-80 | the new layer shares nothing, and every snapshot keeps its pixels |
| `PixelLayers.Editor.TakeSnapshot` | src/application/pic/History.cpp:95-105 | one snapshot more with the present picture, the others and the live layers as they were, nothing shared |
| `PixelLayers.Editor.Restore` | src/application/pic/History.cpp:329-345 | the layers show what the snapshot was taken of, in new buffers, and every snapshot keeps its pixels |
| `PixelLayers.Editor.SetPixel` | src/application/pic/Layer.cpp:153-159 | one pixel of one live layer changes, no other layer and no snapshot |
| `PixelLayers.Editor.SetNewBuffer` | src/application/pic/Layer.cpp:170-177 | one live layer gets the new buffer, its base, the other layers and all snapshots stay, nothing is shared |
| `PixelLayers.Editor.PrepareNextDrawing` | src/application/pic/Layer.cpp:183-189 | one live layer gets a new base equal to its pixels, no picture changes, nothing is shared |
| `LayerTable.RestoreExactly` | src/application/pic/History.cpp:329-343 | undo deletes only layers that exist, each once, exactly if the slots it overwrites hold different living layers, as they do for no more layers than there are |
| `LayerTable.RestoreAfterDelete` | src/application/pic/History.cpp:329-343 | right after a deletion that is so exactly if the snapshot has no more layers than there are |
| `LayerTable.RestoreTwice` | src/application/pic/History.cpp:329-343 | layers left behind by one undo are alive and a later undo deletes them |
| `LayerTable.StepValid` | src/application/pic/Layers.cpp:43-289 | every operation keeps the used slots on different living layers and deletes only what exists |
| `LayerTable.Layers.Delete` | src/application/pic/Layers.cpp:252-266 | the loop moves the layers down and leaves the last pointer in its slot |
| `LayerTable.Layers.ResetLayers` | src/application/pic/Layers.cpp:43-49 | every layer in a used slot is deleted once |
| `LayerTable.Layers.RestoreSnapshot` | src/application/pic/History.cpp:329-343 | the loop deletes and replaces slot by slot |
| `Paths.CanonicalIdempotent` | src/lib/util/io/file/File.cpp:162-189 | a canonical path, with or without a separator behind it, is its own canonical path |
| `Paths.ComponentsClean` | src/lib/util/io/file/File.cpp:162-189 | a canonical path has no empty, "." or ".." component |
| `Paths.UpCancels` | src/lib/util/io/file/File.cpp:170-180 | a name and ".." behind it cancel, in every path |
| `Paths.Vanishing` | src/lib/util/io/file/File.cpp:162-180 | ".", repeated separators and ".." at the root do nothing |
| `Paths.RelativePath` | src/lib/util/io/file/File.cpp:162-189 | a relative path lies below the working directory, or as many directories further up as it asks for |
| `Paths.KeyPrefix` | src/filesystem/Filesystem.cpp:203-226 | one mount point's key begins with another exactly if its components do |
| `Paths.KeyInjective` | src/filesystem/Filesystem.cpp:34-64 | two canonical paths have the same key exactly if they have the same components |
| `Mounts.LookupIsLongest` | src/filesystem/Filesystem.cpp:203-226 | the mount point found is the longest that the path begins with |
| `Mounts.LookupFinds` | src/filesystem/Filesystem.cpp:211-218 | the result does not depend on the order in which the keys are visited |
| `Mounts.LookupByComponents` | src/filesystem/Filesystem.cpp:203-226 | the mount point found is the longest component-wise prefix, and with the rest it gives back the path |
| `Mounts.MountRoutes` | src/filesystem/Filesystem.cpp:34-87 | mounting changes what serves the paths at or below the target that no longer mount point serves, and nothing else |
| `Mounts.UnmountAfterMount` | src/filesystem/Filesystem.cpp:97-126 | unmounting takes back mounting |
| `Mounts.StepGood` | src/filesystem/Filesystem.cpp:34-126 | mounting and unmounting keep one mount point above all others and the two maps on the same keys |
| `Mounts.RunGood` | src/filesystem/Filesystem.cpp:34-126 | the same of every run, however the drivers answer |
| `Mounts.UnblockedIsBelow` | src/filesystem/Filesystem.cpp:183-201 | a path that may be deleted lies neither at nor above a mount point |
| `Mounts.BlockedExactly` | src/filesystem/Filesystem.cpp:187-192 | which paths a mount point protects, by components |
| `Mounts.BlockedTable` | src/filesystem/Filesystem.cpp:187-192 | over the whole table: the string test refuses exactly the protected paths, those whose components but the last begin a mount point's and whose last begins its next |
| `Mounts.ProtectedExactly` | src/filesystem/Filesystem.cpp:187-192 | a path that is not in use is refused exactly if its last component is a proper beginning of a mount point's component |
| `Mounts.RefusedWithoutNeed` | src/filesystem/Filesystem.cpp:187-192 | in a table that two mounts lead to, an existing file is refused although no mount point is at or below it |
| `Filesystem.Filesystem.GetMountedDriver` | src/filesystem/Filesystem.cpp:203-226 | the loop over the keys finds the specification's mount point and leaves its rest of the path |
| `Filesystem.Filesystem.GetNode` | src/filesystem/Filesystem.cpp:144-155 | whether the driver responsible for the path has the node |
| `Filesystem.Filesystem.MountDevice` | src/filesystem/Filesystem.cpp:34-64 | the new table is the specification's step, and success is exactly its condition |
| `Filesystem.Filesystem.MountVirtualDriver` | src/filesystem/Filesystem.cpp:66-87 | the same for virtual drivers |
| `Filesystem.Filesystem.UnmountPath` | src/filesystem/Filesystem.cpp:97-126 | removes a mount point exactly if it is one and none lies below it |
| `Filesystem.Filesystem.DeleteFile` | src/filesystem/Filesystem.cpp:183-201 | deletes exactly the paths that have a node and are not protected; never one at or above a mount point |

## Left out

- SIMD kernels, inverse cosine transform, colour conversion, HDR and gamma code of stb_image: no exact specification in the code.
- Image headers, chunk parsing, palettes, BMP, TGA and HDR loaders, `stbi__convert_format`: plumbing and per-pixel copying.
- JPEG blocks beyond one coefficient: zigzag placement, dequantisation, progressive scans and restart intervals would only add easy members.
- `stbi__get8` with read callbacks: every decoder reads a byte sequence, zero past its end.
- Adler-32: the source does not check it either.
- 32-bit overflow of image sizes: the tests `stbi__mad2sizes_valid` and `stbi__mad3sizes_valid` and failing allocations of PNG, GIF and JPEG buffers are not modelled, sizes are unbounded.
- Inflate.ZBuf.Expand: memory is modelled by the size of the largest allocation that succeeds, and an expandable output starts with at least one byte, because from an empty one the doubling loop would not end.
- PngImage.CreateImageRaw: the picture is a sequence of rows instead of one flat buffer; the work buffer with its two halves is kept.
- PngInterlace.CreateInterlaced: the final picture is a matrix of pixels instead of a flat buffer.
- PngRows.ExpandRow: each row has a destination of its own, so only the in-place step within a row shows aliasing.
- GifRaster.Raster.PutPixel: the cursor counts rows and columns where the source counts byte offsets.
- GIF frame disposal, background colour and several frames: the model paints one frame on a cleared history.
- The rest of `GatesOfHell::enter`; linker symbols and memory layout are parameters with their order and alignment as preconditions.
- Boot.Memory.CreateInitialMapping: physical memory is a map from frames to tables, so writes that are not to tables are not modelled.
- Pending.RunExactly: excludes translucent lines, and the commands that do not replay as they were performed: `filterKernel` (its flag is passed in another parameter's place at `src/application/pic/History.cpp:211-212`), `autoCrop` (its inner crop records itself), `scale` (its factor is rounded in the log) and `replaceColor` (its tolerance is rounded in the log, `src/application/pic/Layers.cpp:921-924`).
- History.ExecSame: pixel operations other than the pen are an abstract function of the command and of the layers without visibility and bases; which pixels a stroke touches is an abstract function of the stroke and the layer's size; a base shorter than the layer's pixels, left after the layer was enlarged, reads as zeros; command strings are not parsed.
- HistoryLog.Log.Undo: layers are values there; PixelLayers has them as objects, and LayerTable has the pointers that are deleted.
- HistoryLog.Log.Truncate: the release of forgotten snapshots is not modelled; at `src/application/pic/History.cpp:66-67` each pixel buffer is released and then again by the layer's destructor.
- PixelLayers.Editor.Restore: the replaced layers are not deleted there, LayerTable says which ones are.
- `Layers::combine`: its pixels are one of the abstract operations, and its deletions (`src/application/pic/Layers.cpp:342-348`) are not modelled.
- `History::saveToFile`, `loadFromFileInto` and `printCommands`: file and console output.
- Filesystem.Filesystem.MountDevice: storage service and drivers are parameters; the lock is a depth counter.
- `createFile`, `createDirectory`, `createFilesystem`, `getVirtualDriver`: forward to a driver.
- Games, demos, command-line tools, user interface and network tests.
