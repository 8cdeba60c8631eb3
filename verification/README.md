# NanoChronometer: a verified model of its hard parts

This project models, in Dafny 4.11, the parts of NanoChronometer whose correctness is not
visible from any one function, and proves what they promise for every input or every run.

| area | files |
|---|---|
| device tree: a streaming walk refines a search of the tree | FdtReader, FdtTree, FdtLookup, FdtProperty, FdtEncoding |
| display: back buffer, device and damage box stay coherent | Pixels, Highcolour, ScreenModel, ScreenCoherence, Framebuffer |
| pictures: two rows, or one row of sums, stand in for a whole picture | Scaling, Wallpaper, Thumbnail |
| crash dumps: writer, reader, CRC, base64 over a serial log | DumpFormat, DumpReader, DumpRoundTrip, DumpWriter, Crc, Base64, DumpLog, Utf8 |
| modules: packing a shared object and loading it again | NcpluFormat, NcpluPack, NcpluWriter, NcpluImage, NcpluRead, NcpluLoad |
| EFI programs: wrapping an ELF as a PE file | MkefiElf, MkefiPe |
| Linux module: 128-by-64 division and the probe ration | MulDiv, ProbeLimit |
| GPIO: calibration by correlation, pins to pads | Calibration, PadMap |

How to read it. Each area has specification functions on values, methods that follow the source's
loops and field updates and are proved equal to those functions, and lemmas about the functions.
A class stands where the source mutates fields or captured variables (`RegVisitor`, `Framebuffer`,
`Scratch`, `Cursor`, `Uart`, `Module`, `Calibration`). Machine integers are bounded types, and
wrapping, saturation and truncation are written out. `dafny verify dfyconfig.toml` checks everything.

Where the code and its comments disagree the model follows the code, says exactly when the two agree,
and shows an input where they do not:

- "None for good" in the GPIO calibration is stronger than the code: `NoneForGoodIff`, `TieIsNotForGood`.
- A blit whose source runs short part way draws rows without marking them: `BlitCoherentIff`, `ShortBlitExample`.
- The module packer adds the addend to slot relocations too, moves absolute symbols with the image, and does not let a weak symbol stay undefined: `WordIsAbiIff`, `MemoryIsAbiIff`, `MistakenExample`.
- A thumbnail's 32-bit sums can wrap: `AverageRightIff`, `LargestIsWrong`. So can its 64-bit column products: `ColumnsExactIff`, `ColumnsRightIff`, `MiddleColumnLost`.
- The property "compatible" itself is never recorded: `CompatiblePropertyIsSearch`, `OwnListNotFound`.
- A log that begins with "DUMP" is taken for a dump: `LogReadsBack`, `LogNotExtracted`.
- At 16 bits per pixel a blended pixel can differ from the composited one: `MaskAgreesIff`, `MixedPixelDiffersAt16`.

## Model

| member | source | states |
|---|---|---|
| FdtEncoding.FindCompatibleRegIsSearch | crates/nanochrono-baremetal/src/fdt.rs:394-515 | Main result: over the stored form of any tree at most 16 deep, with NOPs anywhere and any padding bytes, the streaming lookup answers what a search of the tree answers: the first non-root node in pre-order that lists the name, is enabled, and whose first `reg` address goes through every ancestor's `ranges` |
| FdtProperty.CompatiblePropertyIsSearch | crates/nanochrono-baremetal/src/fdt.rs:213-246 | Main result: the lookup with its per-depth arrays returns the property of the first node in pre-order that lists the name and has the property, for every property but "compatible"; asked for that one it always answers nothing, which agrees with the search exactly when no node lists the name |
| FdtProperty.OwnListNotFound | crates/nanochrono-baremetal/src/fdt.rs:236-240 | A stored tree whose root has the "compatible" property asked for and whose lookup finds nothing |
| FdtEncoding.WalkTree | crates/nanochrono-baremetal/src/fdt.rs:129-167 | Walking a stored tree at most 16 deep delivers exactly its Begin, Prop and End sequence, names and values restored, and ends well |
| FdtEncoding.WalkDelivers | crates/nanochrono-baremetal/src/fdt.rs:129-167 | The same for any stored token stream that never nests deeper than 16, from any 4-aligned position and depth |
| FdtEncoding.TreeHasEncoding | crates/nanochrono-baremetal/src/fdt.rs:129-167 | Every tree whose names have no NUL and whose lengths fit has a stored form, so the two results above speak of every such tree |
| FdtEncoding.FromBytesReads | crates/nanochrono-baremetal/src/fdt.rs:77-100 | A version 17 blob, whatever follows it, opens to its own structure and strings blocks |
| FdtEncoding.FromBytesIff | crates/nanochrono-baremetal/src/fdt.rs:77-100 | A blob opens, and to these two blocks, exactly when its first 40 bytes are a header with the magic number, a total size of at least 40 inside the blob, a readable version, and both blocks inside the total size |
| FdtReader.WalkStep | crates/nanochrono-baremetal/src/fdt.rs:129-167 | On any bytes a turn of the walk moves forward, keeps 4-alignment, ends at most 3 bytes past the block, and moves the depth as its token says, never past 16 |
| FdtReader.TraceNesting | crates/nanochrono-baremetal/src/fdt.rs:129-167 | On any bytes the nesting a visitor sees never underflows and never passes 16 |
| FdtReader.ReadCells | crates/nanochrono-baremetal/src/fdt.rs:48-54 | A number is read exactly when it has one or two cells and they are there |
| FdtReader.CStr | crates/nanochrono-baremetal/src/fdt.rs:57-60 | The bytes before the first NUL, which is there; nothing exactly when there is none |
| FdtReader.CStrUnique | crates/nanochrono-baremetal/src/fdt.rs:57-60 | A NUL-free name behind which a NUL stands is what is read |
| FdtLookup.FindCompatibleReg | crates/nanochrono-baremetal/src/fdt.rs:394-515 | The loop over mutable position and depth, with its visitor, computes the pass over the walk's tokens; the visitor's depth is always the walk's |
| FdtLookup.RegVisitor.constructor | crates/nanochrono-baremetal/src/fdt.rs:406-415 | The captured variables start as the pass starts |
| FdtLookup.RegVisitor.Visit | crates/nanochrono-baremetal/src/fdt.rs:461-513 | One token changes the captured stack, depth, flags and `reg`, or stops with a result, as the pass does; no index or decrement goes out of range |
| FdtLookup.RegVisitor.Read | crates/nanochrono-baremetal/src/fdt.rs:490-510 | One property changes exactly the variable it is about |
| FdtLookup.DecideNode | crates/nanochrono-baremetal/src/fdt.rs:417-459 | A node that does not match, is disabled or has no readable or translatable address gives nothing; else its address at the CPU |
| FdtLookup.ClimbAll | crates/nanochrono-baremetal/src/fdt.rs:431-458 | Going up the stack bus by bus equals the recursive translation through all ancestors |
| FdtLookup.Climb | crates/nanochrono-baremetal/src/fdt.rs:433-455 | One bus: no `ranges` fails, empty `ranges` is the identity, else the first window decides |
| FdtLookup.FirstHit | crates/nanochrono-baremetal/src/fdt.rs:444-454 | The loop over `ranges` entries finds the first window with the address, failing at an unreadable entry before it or on overflow |
| FdtTree.FirstAddressIsEarliest | crates/nanochrono-baremetal/src/fdt.rs:461-514 | What 'first' means: the address found belongs to a node before which no node in pre-order has one, and it is found whenever there is such a node |
| FdtTree.FirstPropertyIsEarliest | crates/nanochrono-baremetal/src/fdt.rs:210-213 | The property found belongs to a compatible node that has it and before which none in pre-order has, and it is found whenever there is such a node |
| FdtTree.FirstWindowIsEarliest | crates/nanochrono-baremetal/src/fdt.rs:444-454 | A translation is `a` exactly when some window maps to `a` and all windows before it are readable and do not contain the address |
| FdtTree.FieldsExact | crates/nanochrono-baremetal/src/fdt.rs:507 | A string is in the list exactly when it stands in the value between two NULs or ends |
| FdtProperty.CompatibleProperty | crates/nanochrono-baremetal/src/fdt.rs:213-246 | The loop and its visitor compute the pass; the visitor's depth is always the walk's |
| FdtProperty.PropertyVisitor.Visit | crates/nanochrono-baremetal/src/fdt.rs:218-245 | One token changes the two arrays and the depth, or stops with the value, as the pass does; no index goes out of range |
| ScreenCoherence.RunCoherent | crates/nanochrono-baremetal/src/framebuffer.rs:104-113 | Main result: over every run of the operations in which each blit is presentable (its block is off screen, its source covers the block, or its source has not even the first row), every pixel outside the damage box already holds on the device the converted back-buffer colour |
| ScreenCoherence.ClearedRunIsShown | crates/nanochrono-baremetal/src/framebuffer.rs:340-366 | Main result: from any screen, a full clear, any run whose blits are presentable, then presenting the damage leaves the whole device showing the back buffer, at 16, 24 and 32 bits per pixel and any pitch |
| ScreenCoherence.CompositedRunIsDirectRun | crates/nanochrono-baremetal/src/framebuffer.rs:253-266 | Main result: a composited run whose blits are presentable and that moves no blocks, ended by presenting the damage, leaves the device as the same run drawn straight onto it: at 24 and 32 bits per pixel always, at 16 bits when every mask drawn without a background has only the coverages 0, 240, 254 and 255 on the surface |
| ScreenCoherence.MaskAgreesIff | crates/nanochrono-baremetal/src/framebuffer.rs:433-460 | A mask drawn without a background comes out the same both ways in every colour on every clean screen exactly at 24 and 32 bits, and at 16 bits exactly when no coverage on the surface is other than 0, 240, 254 or 255 |
| Highcolour.HiddenBlend | crates/nanochrono-baremetal/src/draw.rs:137-146 | At these four coverages a blend over any pixel read back from 16 bits is stored as the blend over the pixel itself |
| Highcolour.TellingBlend | crates/nanochrono-baremetal/src/draw.rs:137-146 | At every other coverage two colours for which it is not |
| ScreenCoherence.MixedPixelDiffersAt16 | crates/nanochrono-baremetal/src/framebuffer.rs:295-305 | One pixel covered by 32 of 255, over colour 7, comes out differently at 16 bits |
| ScreenCoherence.InkLooksTheSame | crates/nanochrono-baremetal/src/framebuffer.rs:445-450 | What an operation draws over the colour the device gives back is stored as what it draws over the colour itself |
| ScreenCoherence.ChangesAreMarked | crates/nanochrono-baremetal/src/framebuffer.rs:104-113 | No drawing operation other than a blit that is not presentable changes a pixel outside the box it leaves |
| ScreenCoherence.StepCoherent | crates/nanochrono-baremetal/src/framebuffer.rs:104-113 | Each single operation other than a blit that is not presentable keeps the device right outside the box |
| ScreenCoherence.PresentDamageCleans | crates/nanochrono-baremetal/src/framebuffer.rs:563-572 | After presenting the damage nothing is stale and the box is empty |
| ScreenCoherence.ClearMakesCoherent | crates/nanochrono-baremetal/src/framebuffer.rs:482-484 | Filling the whole surface makes any screen coherent |
| ScreenCoherence.BlitCoherentIff | crates/nanochrono-baremetal/src/framebuffer.rs:373-401 | A blit keeps every coherent screen coherent exactly when its block is off screen, its source covers the block, or its source has not even one row; in between it draws rows and marks nothing. Row offsets are 64-bit words |
| ScreenCoherence.ShortBlitGoesStale | crates/nanochrono-baremetal/src/framebuffer.rs:384 | For every blit that runs short part way, a coherent screen it leaves stale |
| ScreenCoherence.ShortBlitExample | crates/nanochrono-baremetal/src/framebuffer.rs:384 | A two-row block from a source of one pixel: the pixel is drawn, and presenting the damage does not show it |
| ScreenCoherence.CoversIff | crates/nanochrono-baremetal/src/framebuffer.rs:382-384 | While no row offset wraps, a source covers the block exactly when it reaches the end of the last row |
| ScreenCoherence.WrappedStrideDraws | crates/nanochrono-baremetal/src/framebuffer.rs:383 | A row offset that wraps comes back to the start of the source and is drawn from there |
| Framebuffers.Framebuffer.constructor | crates/nanochrono-baremetal/src/framebuffer.rs:121-214 | A framebuffer of the loader's numbers with the back buffer attached to it; whenever `is_usable` says so every routine's precondition holds, and the damage is empty |
| Framebuffers.Framebuffer.Get | crates/nanochrono-baremetal/src/framebuffer.rs:275-307 | Zero off the surface, else the back buffer's or the device's colour |
| Framebuffers.Framebuffer.Store | crates/nanochrono-baremetal/src/framebuffer.rs:314-337 | Writes one pixel in the device's format and leaves every other pixel's bytes alone |
| Framebuffers.Framebuffer.Mark | crates/nanochrono-baremetal/src/framebuffer.rs:105-112 | The box becomes the smallest one around itself and the rectangle, sums saturating |
| Framebuffers.Framebuffer.SetPixel | crates/nanochrono-baremetal/src/framebuffer.rs:253-266 | Back buffer, device and box become what the operation's model says |
| Framebuffers.Framebuffer.Fill | crates/nanochrono-baremetal/src/framebuffer.rs:340-366 | The same for a clipped fill |
| Framebuffers.Framebuffer.Blit | crates/nanochrono-baremetal/src/framebuffer.rs:373-401 | The same for a clipped blit, including the return without marking at the first row the source has not; offsets wrap as 64-bit words |
| Framebuffers.Framebuffer.CopyWithin | crates/nanochrono-baremetal/src/framebuffer.rs:406-427 | The same for a move: a simultaneous copy of the clipped block for every overlap |
| Framebuffers.Framebuffer.CopyRows | crates/nanochrono-baremetal/src/framebuffer.rs:415-424 | Row order chosen from `dy > sy`: every destination pixel gets the source pixel as it was before, all others keep theirs |
| Framebuffers.Framebuffer.DrawCoverage | crates/nanochrono-baremetal/src/framebuffer.rs:433-460 | The same for a coverage mask with or without a background |
| Framebuffers.Framebuffer.Present | crates/nanochrono-baremetal/src/framebuffer.rs:500-554 | The clipped rectangle of the device becomes the converted back buffer; everything else stays |
| Framebuffers.Framebuffer.PresentAllDamage | crates/nanochrono-baremetal/src/framebuffer.rs:563-572 | Presents the box as it was and empties it |
| Pixels.GetAfterStore32 | crates/nanochrono-baremetal/src/framebuffer.rs:275-336 | At 32 bits a stored colour is read back whole |
| Pixels.GetAfterStore24 | crates/nanochrono-baremetal/src/framebuffer.rs:275-336 | At 24 bits it is read back without its top byte |
| Pixels.GetAfterStore16 | crates/nanochrono-baremetal/src/framebuffer.rs:275-336 | At 16 bits the read gives back the high bits of each channel |
| Pixels.StoreAfterGet | crates/nanochrono-baremetal/src/framebuffer.rs:275-336 | At 32 bits storing what was read changes no byte of the device |
| Wallpaper.RenderCover | crates/nanochrono-baremetal/src/assets.rs:95-138 | Main result: holding two decoded rows, every destination pixel is what a bilinear scaler with random access to the whole picture puts there; nothing else changes, and a refusal changes nothing |
| Wallpaper.DrawRow | crates/nanochrono-baremetal/src/assets.rs:115-136 | One destination row: the rows it needs are resident when read, and the rows before stay as drawn |
| Wallpaper.DecodeTo | crates/nanochrono-baremetal/src/assets.rs:120-126 | Decodes up to the row asked for and never past it, keeping the last two rows |
| Wallpaper.FetchRow | crates/nanochrono-baremetal/src/assets.rs:122-125 | One row from the stream, black where it is short |
| Wallpaper.Bilinear | crates/nanochrono-baremetal/src/assets.rs:142-154 | The packed mix is the three channel mixes, also on the short cut for no weights |
| Wallpaper.EdgesDoNotMatter | crates/nanochrono-baremetal/src/assets.rs:109-119 | Dropping the weight at the right and bottom edges, as the code does, is the clamped bilinear sample |
| Wallpaper.LastRowMonotone | crates/nanochrono-baremetal/src/assets.rs:115-120 | The last source row needed never goes down from one destination row to the next |
| Scaling.CoverGeometry | crates/nanochrono-baremetal/src/assets.rs:71-75 | The scaled size covers the destination in both directions |
| Scaling.CoverIsTight | crates/nanochrono-baremetal/src/assets.rs:71-75 | It fits one side exactly and just reaches the other |
| Scaling.CoverIsCentred | crates/nanochrono-baremetal/src/assets.rs:74 | The visible window is in the middle of the scaled picture, to one pixel |
| Scaling.SampleMonotone | crates/nanochrono-baremetal/src/assets.rs:79-85 | The sampled coordinate never decreases, although the product saturates |
| Scaling.SampleInside | crates/nanochrono-baremetal/src/assets.rs:79-85 | Inside the scaled picture a sample never starts past the last source pixel |
| Scaling.MixBetween | crates/nanochrono-baremetal/src/assets.rs:147-152 | A mix stays between the least and the greatest of its four values, so channels never spill |
| Thumbnail.RenderThumbnail | crates/nanochrono-baremetal/src/assets.rs:160-205 | Main result: keeping one row of sums, every destination row ends up showing exactly the sums of the source pixels the code puts there, in the code's 32- and 64-bit arithmetic; each row is flushed once |
| Thumbnail.RenderedIsBoxAverage | crates/nanochrono-baremetal/src/assets.rs:180-203 | Main result: when every column lands where it belongs, as it always does for thumbnails less than 8192 rows high, a destination pixel is the truncated average, channel by channel, of the rectangle of source pixels behind it, for rectangles of area below 2^32 / 255 |
| Thumbnail.RenderedIsAverage | crates/nanochrono-baremetal/src/assets.rs:171-203 | A pixel some source pixels land in holds their truncated average in each channel while 255 times their number fits 32 bits; a pixel with none keeps its colour |
| Thumbnail.AverageRightIff | crates/nanochrono-baremetal/src/assets.rs:194-198 | Every rendering of every picture shows the average in all three channels of a pixel exactly when 255 times the number of source pixels landing there stays below 2^32 |
| Thumbnail.CellIsBox | crates/nanochrono-baremetal/src/assets.rs:180-198 | The pixels landing in a destination pixel are a rectangle with edges in closed form, and their number is its area |
| Thumbnail.SmallIsRight | crates/nanochrono-baremetal/src/assets.rs:194-198 | A guard for the caller: below 2^32 / 255 source pixels every average is right |
| Thumbnail.LargestIsWrong | crates/nanochrono-baremetal/src/assets.rs:194-198 | The failure is reachable: 8192 by 8192 pixels, which the decoder accepts, reduced to one |
| Thumbnail.RowsExact | crates/nanochrono-baremetal/src/assets.rs:181 | Row products never leave 64 bits, so source rows land where they belong |
| Thumbnail.ColumnsExactIff | crates/nanochrono-baremetal/src/assets.rs:188-190 | Column products stay in 64 bits exactly when (width - 1) times the scaled width does, and then every column lands where it belongs |
| Thumbnail.LowIsExact | crates/nanochrono-baremetal/src/assets.rs:188-190 | A thumbnail at most 4096 rows high always meets that |
| Thumbnail.ColumnsRightIff | crates/nanochrono-baremetal/src/assets.rs:188-190 | Every column lands where it belongs exactly when width times scaled width stays below 2^65, or the width is odd, or a one-pixel window misses the middle |
| Thumbnail.WrappedNeverLands | crates/nanochrono-baremetal/src/assets.rs:188-190 | A column whose product wraps is never drawn: it comes out left of the window |
| Thumbnail.OddIsEmpty | crates/nanochrono-baremetal/src/assets.rs:188-190 | From 2^65 on no column of a picture of odd width belongs into the thumbnail, and none is drawn |
| Thumbnail.LowIsRight | crates/nanochrono-baremetal/src/assets.rs:188-190 | A thumbnail less than 8192 rows high always meets that |
| Thumbnail.LostIff | crates/nanochrono-baremetal/src/assets.rs:188-190 | A column that belongs into the thumbnail is lost to wrapping exactly when the picture's width is even, width times scaled width reaches 2^65, and the middle falls into the window |
| Thumbnail.MiddleColumnLost | crates/nanochrono-baremetal/src/assets.rs:188-190 | The bound of 8192 is sharp: 67108864 by 1 pixels, which the decoder accepts, to 2 by 8192 |
| Thumbnail.LandingContiguous | crates/nanochrono-baremetal/src/assets.rs:179-187 | The source coordinates of one destination coordinate are contiguous while no product wraps, which for rows is always |
| Thumbnail.Flush | crates/nanochrono-baremetal/src/assets.rs:171-178 | Writes the averages of one row where there are any, and clears the sums |
| DumpRoundTrip.ReadsBack | tools/nanodump.py:97-124 | Main result: for every register state, reason, driver, trace, scan and region list, the reader accepts the dump, whatever follows it, and returns machine, flags, version, counter, size and every section as far as it was kept |
| DumpRoundTrip.LogReadsBack | tools/nanodump.py:85-94 | Main result: from a serial log of any bytes whose last complete dump is this one, `extract` gets the report back as far as it was kept, and `load` gets the same dump exactly when the log does not begin with the letters "DUMP" |
| DumpRoundTrip.LogNotExtracted | tools/nanodump.py:85-94 | A log with the line "DUMP" before the report: `extract` finds the report, `load` hands the log itself to the parser, which refuses it |
| DumpRoundTrip.SectionsAreSound | crates/nanochrono-baremetal/src/crashdump.rs:492-498 | Sections are in order of kind, 8-aligned, disjoint, inside the total, and hold the front of their bodies |
| DumpRoundTrip.TruncatedIff | crates/nanochrono-baremetal/src/crashdump.rs:602-604 | The truncated flag is set exactly when some section came out shorter than its body |
| DumpRoundTrip.RegionsSelected | crates/nanochrono-baremetal/src/crashdump.rs:584-600 | When nothing was cut, each entry of the memory table leads to that region's address and its own bytes |
| DumpRoundTrip.DamageIsNoticed | tools/nanodump.py:108-110 | Any damage to the contents within four consecutive bytes makes the reader report a CRC mismatch |
| DumpRoundTrip.VersionReads | tools/nanodump.py:120 | A version of at most 16 bytes that does not end in zero comes back whole |
| DumpWriter.Build | crates/nanochrono-baremetal/src/crashdump.rs:483-645 | The writer, with its cursor, closures and patched header, produces exactly the specified image |
| DumpWriter.Cursor.constructor | crates/nanochrono-baremetal/src/crashdump.rs:486-488 | Starts over a zeroed image behind the room for header and table |
| DumpWriter.Cursor.Put | crates/nanochrono-baremetal/src/crashdump.rs:440-446 | Appends as much as fits and notes whether anything did not |
| DumpWriter.Cursor.Align8 | crates/nanochrono-baremetal/src/crashdump.rs:456-461 | Appends zeros up to the next multiple of eight |
| DumpWriter.Cursor.BytesAt | crates/nanochrono-baremetal/src/crashdump.rs:447-455 | Overwrites bytes in place and nothing else |
| DumpWriter.Cursor.WordsSection | crates/nanochrono-baremetal/src/crashdump.rs:493-504 | Appends an aligned section of words and its table entry |
| DumpWriter.Cursor.RegionTableSection | crates/nanochrono-baremetal/src/crashdump.rs:584-592 | Appends the memory table, each entry with the running offset |
| DumpWriter.PutTwice | crates/nanochrono-baremetal/src/crashdump.rs:440-446 | Two puts are one put of both, also when the end is reached on the way, and cut exactly when that one is |
| DumpReader.Parse | tools/nanodump.py:97-124 | The reader's checks in their order, as a function of the bytes |
| DumpReader.ReadSections | tools/nanodump.py:111-116 | The loop over the table fills the dictionary or stops at the first bad entry |
| Crc.ComputeCrc32 | crates/nanochrono-baremetal/src/crashdump.rs:649-658 | The byte and bit loops compute the specified register |
| Crc.BurstDetected | crates/nanochrono-baremetal/src/crashdump.rs:649-658 | Main result: two inputs that differ, and only within 32 consecutive bits, have different CRCs |
| Crc.FourBytesDetected | crates/nanochrono-baremetal/src/crashdump.rs:649-658 | In particular any change within four consecutive bytes changes the CRC |
| Crc.BurstOf33Missed | crates/nanochrono-baremetal/src/crashdump.rs:649-658 | 32 bits is the limit: two inputs that differ within 33 bits and share one CRC |
| Crc.UnshiftShift | crates/nanochrono-baremetal/src/crashdump.rs:654 | Each bit step of the register can be undone |
| Crc.WindowInjective | crates/nanochrono-baremetal/src/crashdump.rs:649-658 | Different 32-bit windows leave different registers, whatever stands before and behind |
| DumpLog.EmittedIsExtracted | tools/nanodump.py:64-82 | Main result: whatever text surrounds it, an emitted dump is extracted byte for byte, unless a later dump in the log is complete, and then that one is |
| DumpLog.LogLoadsIff | tools/nanodump.py:85-94 | `load` returns an emitted dump that is the last complete one exactly when the file does not begin with a dump's magic bytes |
| DumpLog.EmittedIsInLog | tools/nanodump.py:355-358 | Decoding a log of any bytes and extracting finds the emitted dump, unless a later one is complete |
| Utf8.DecodeAppend | tools/nanodump.py:91 | Replacing malformed UTF-8 before an ASCII byte does not depend on what follows |
| Utf8.DecodeAscii | tools/nanodump.py:91 | ASCII text is decoded to itself whatever bytes follow |
| DumpLog.Uart.EmitSerial | crates/nanochrono-baremetal/src/crashdump.rs:767-798 | The loop with its 76-byte line buffer sends exactly the markers and the broken base64 |
| DumpLog.Extract | tools/nanodump.py:64-82 | The loop over stripped lines, as a function of the text |
| DumpLog.PiecesKept | tools/nanodump.py:69-76 | Inside the markers every base64 line is kept whole: none can be taken for a marker |
| DumpLog.LastWins | tools/nanodump.py:66-76 | A dump closed earlier only counts when none is closed later |
| DumpLog.SplitAtNewline | tools/nanodump.py:66 | A newline ends a line whatever stands before it, so what follows is split on its own |
| Base64.DecodeEncode | crates/nanochrono-baremetal/src/crashdump.rs:775-791 | Decoding an encoding gives the bytes back, for all three residues |
| Base64.EncodeNext | crates/nanochrono-baremetal/src/crashdump.rs:775-785 | The quad of the next chunk extends the encoding; a full line always breaks between quads |
| MulDiv.MulDiv | kernel/linux/nanochrono.rs:698-720 | Main result: the result is min(floor(a*b/c), 2^64-1) for every non-zero c, and 0 for c = 0 |
| MulDiv.DivideStep | kernel/linux/nanochrono.rs:709-718 | One turn keeps quotient * c + remainder equal to the product prefix with the remainder below c, including where the shifted remainder needs 65 bits |
| MulDiv.Turn | kernel/linux/nanochrono.rs:709-718 | The turn in 64-bit words with its lost carry bit computes that step |
| MulDiv.Saturates | kernel/linux/nanochrono.rs:705-707 | The quotient needs more than 64 bits exactly when the high word is at least c |
| MulDiv.Sum | kernel/linux/nanochrono.rs:669-678 | The three sums over all events, saturating |
| MulDiv.Scale | kernel/linux/nanochrono.rs:680-686 | Zero when never running, the count itself when always running, else scaled up and never down |
| ProbeLimit.ProbesAreSpaced | kernel/linux/nanochrono.rs:430-436 | Main result: under a monotone clock, a probe starts at least the cooldown in force after any earlier one ended |
| ProbeLimit.AtMostInWindow | kernel/linux/nanochrono.rs:430-436 | Main result: while the cooldown is at least c seconds, a window of t seconds sees at most 1 + t/c probes start |
| ProbeLimit.ProbesCounted | kernel/linux/nanochrono.rs:184 | The counter is exactly the number of probes until it saturates |
| ProbeLimit.LastProbeAfter | kernel/linux/nanochrono.rs:176-186 | The end of a probe stays on record until the next one |
| ProbeLimit.Module.constructor | kernel/linux/nanochrono.rs:191-246 | Loading the module runs the one probe |
| ProbeLimit.Module.RunProbes | kernel/linux/nanochrono.rs:176-186 | Counts one probe, saturating, and records when it ended |
| ProbeLimit.Module.ProcWrite | kernel/linux/nanochrono.rs:401-480 | The command machine: return code and new state of every write, including rejected lengths, faults, the cooldown refusal, counters that cannot be made, and unknown words |
| ProbeLimit.CodeTells | kernel/linux/nanochrono.rs:401-480 | What each error number means, that a failed write changes nothing unless it chose a counter kind, and that a probe ran exactly when `reprobe` returned its length |
| ProbeLimit.Squeeze | kernel/linux/nanochrono.rs:417-427 | Lower case without white space, in place |
| ProbeLimit.ParseSeconds | kernel/linux/nanochrono.rs:438-447 | A number exactly for one to six digits, and then their decimal value, below a million |
| Calibrations.Calibration.Settled | crates/nanochrono-baremetal/src/gpio.rs:582-602 | Main result: an answer is the only candidate whose level equalled it in every report sample and its opposite in every quiet one, with at least four samples of each; `None` exactly when there is no such candidate |
| Calibrations.SeenDecides | crates/nanochrono-baremetal/src/gpio.rs:587-600 | Four bits decide what the whole history decides |
| Calibrations.SeenIsOccurs | crates/nanochrono-baremetal/src/gpio.rs:562-570 | Each bit is set exactly when its case has occurred |
| Calibrations.AnswerIsStable | crates/nanochrono-baremetal/src/gpio.rs:582-602 | Once given, a later answer is the same pad and level |
| Calibrations.NoneForGoodIff | crates/nanochrono-baremetal/src/gpio.rs:580-602 | At any point of any history, no answer can come any more exactly when no candidate survives; while one does, however many others do, later polls can settle it |
| Calibrations.TieIsNotForGood | crates/nanochrono-baremetal/src/gpio.rs:580-602 | Eight polls that leave two survivors and no answer, and one more report that gives one |
| Calibrations.Calibration.constructor | crates/nanochrono-baremetal/src/gpio.rs:486-512 | The pads watched are the first 32 inputs of the communities in order, nothing seen yet |
| Calibrations.InputsExact | crates/nanochrono-baremetal/src/gpio.rs:495-511 | A pad is collected exactly when some place of some community packs to it and it reads back as an input |
| Calibrations.InputsDistinct | crates/nanochrono-baremetal/src/gpio.rs:495-511 | No pad is collected twice |
| Calibrations.Calibration.TakeSample | crates/nanochrono-baremetal/src/gpio.rs:539-547 | One level per candidate |
| Calibrations.Calibration.Observe | crates/nanochrono-baremetal/src/gpio.rs:553-571 | Files a labelled sample; one taken for another set of candidates is dropped |
| PadMap.ResolveInjective | crates/nanochrono-baremetal/src/gpio.rs:355-379 | Over any well-formed pad-group table two pins never resolve to one pad |
| PadMap.ResolvedPlace | crates/nanochrono-baremetal/src/gpio.rs:355-379 | A resolved pin's pad belongs to the community whose group has the pin, at the group's place for it in 16-bit indices, and its register lies inside the window |
| PadMap.ResolveFinds | crates/nanochrono-baremetal/src/gpio.rs:355-379 | The search answers from the one group that has the pin |
| PadMap.Resolve | crates/nanochrono-baremetal/src/gpio.rs:355-379 | The two loops, with their early returns, as a function of table and windows |
| PadMap.PackReads | crates/nanochrono-baremetal/src/gpio.rs:245-258 | Community and offset come back from the packed word, which exists exactly when both fit |
| NcpluLoad.LoadsAsElf | tools/ncplu.py:250-411 | Main result: the loader accepts the file `pack` writes exactly when the module keeps the loader's rules; the arena it leaves at any base is the object's kept sections mapped there with every relocation applied as the System V AMD64 psABI, section 4.4.1, says and each undefined symbol where its name resolves, for the object the packer takes it for: a GLOB_DAT or JUMP_SLOT against a defined symbol is R_X86_64_64, an absolute symbol belongs to the image, a weak one must resolve; it fails only for an unresolved name or for want of room |
| NcpluLoad.MemoryIsAbiIff | tools/ncplu.py:277-298 | Where no two relocations overlap, that memory is the psABI's own exactly when no weak symbol is left unresolved, no relocation is against an absolute symbol (unless base, plus the addend in a slot, is zero in 64 bits), and no slot bound to a symbol of the image has an addend |
| NcpluLoad.AcceptedIff | crates/nanochrono-core/src/ncplu.rs:470-609 | The parse accepts a packed file exactly when sizes, counts, sections, names, exports, relocations and entry keep the loader's rules, and then sees the module as packed |
| NcpluLoad.WordIsAbiIff | tools/ncplu.py:277-298 | The word written for a relocation is the psABI's exactly under that condition on it |
| NcpluLoad.PlainIff | tools/ncplu.py:277-298 | At every base and whatever resolves the condition holds exactly for R_X86_64_RELATIVE, against symbols of the image without an addend in a slot, or against undefined symbols that are not weak |
| NcpluLoad.MistakenExample | tools/ncplu.py:281-298 | An object that packer and loader accept and that comes out wrong in three words: a slot with an addend, an absolute symbol moved by the base, a weak symbol the loader refuses for want of a definition |
| NcpluLoad.LinkKeeps | tools/ncplu.py:266-300 | Every relocation is kept with its place and meaning, and every imported name is listed once however often it is used |
| NcpluLoad.CopiedIsMapped | crates/nanochrono-baremetal/src/ncplu.rs:1029-1036 | Copying the sections into the zeroed arena gives, byte for byte, the mapped sections |
| NcpluLoad.RelocatedIsMemory | crates/nanochrono-baremetal/src/ncplu.rs:1037-1048 | For an object whose relocations are all of that kind, applying the packed ones gives the object's memory, relocation by relocation |
| NcpluRead.SectionRead | crates/nanochrono-core/src/ncplu.rs:657-698 | Every section of a packed file is read back as packed |
| NcpluRead.SectionBytesRead | crates/nanochrono-core/src/ncplu.rs:701-710 | Each section's file offset selects its own bytes |
| NcpluRead.ImportRead | crates/nanochrono-core/src/ncplu.rs:731-736 | Every import name comes back, or is refused for its length alone |
| NcpluRead.ExportRead | crates/nanochrono-core/src/ncplu.rs:744-755 | Every export comes back with its offset, or is refused for name length or offset alone |
| NcpluRead.RelocRead | crates/nanochrono-core/src/ncplu.rs:758-801 | Every relocation comes back, or is refused exactly when it writes into code or outside a section, points outside, or is an import with an addend |
| NcpluRead.HeaderReads | tools/ncplu.py:385-407 | The header fields read back from the packed file |
| NcpluFormat.DigestHolds | tools/ncplu.py:113-120 | The header's digest is the hash of the file as it is, digest field taken as zero, and stays so when the signature block is filled |
| NcpluFormat.InternAllHolds | tools/ncplu.py:314-324 | Interned names stand at their offsets and earlier offsets stay good |
| NcpluWriter.Pack | tools/ncplu.py:250-411 | The loops that grow relocations, imports, strings, tables and body write exactly the specified file, or refuse for the first reason |
| NcpluWriter.WriteImports | tools/ncplu.py:326-329 | Interning while writing gives the table over the final string pool |
| NcpluWriter.WriteSections | tools/ncplu.py:347-359 | Each table entry points at where its image went |
| NcpluPack.LinkRelas | tools/ncplu.py:264-300 | The loop over RELA entries, as a function of the object |
| NcpluPack.FindExports | tools/ncplu.py:302-312 | The exported symbols in order, and the last that has the entry's name |
| NcpluImage.CopyAndRelocate | crates/nanochrono-baremetal/src/ncplu.rs:1022-1050 | Zeroes, copies and relocates in place as specified, reports the first fault, and never touches the arena behind the image |
| MkefiPe.MapsAsElf | tools/mkefi.py:35-116 | Main result: mapping the PE file gives from the base on what mapping the ELF's segments in ascending order gives, overlapping or not, the image covers every segment, and machine and entry are the ELF's |
| MkefiPe.ApartByte | tools/mkefi.py:74-89 | For segments apart from each other every byte is that of the one segment there, in whatever order they are mapped |
| MkefiPe.PaddingApart | tools/mkefi.py:74-91 | For such segments a section's padded raw data ends before the next section and inside the image, so copying all of it does no harm |
| MkefiPe.RawPlaces | tools/mkefi.py:77-89 | Each section's raw pointer addresses its own padded body, which ends where the next begins |
| MkefiPe.SectionMaps | tools/mkefi.py:77-89 | A section maps to its segment's bytes, cut or filled with zeros up to the memory size, whatever the padding |
| MkefiPe.ReadsBack | tools/mkefi.py:93-116 | The headers of the written file read back as machine, entry, sizes and one section per segment in order |
| MkefiPe.WrittenIff | tools/mkefi.py:93-114 | Writing fails only for a number too big for its field, or with more than 4 (PE32+) or 5 (PE32) segments |
| MkefiPe.MakeEfi | tools/mkefi.py:69-116 | The whole tool computes the specified file or its error |
| MkefiPe.WriteSections | tools/mkefi.py:74-90 | The loop's section headers, raw data and three totals |
| MkefiElf.LoadElf | tools/mkefi.py:35-66 | The checks and the loop over program headers, as a function of the bytes |
| MkefiElf.LoadedIsWrapped | tools/mkefi.py:52-66 | What is accepted: exactly the loadable segments, ascending, page-aligned, the first at the base |

## Left out

- FdtEncoding.FromBytesReads: the memory reservation block is not laid out.
- FDT: `usize` positions are unbounded, as on a 64-bit target; slices are shorter than `isize::MAX`, so the checked additions cannot fail where the access behind them would succeed. On the 32-bit targets (i386, arm32), where a position and a 32-bit length can together pass 2^32, that is not modelled. The other lookups (`timebase_frequency`, `chosen_property`, `cpu_property`) are one-token variations of the two modelled.
- Framebuffers.Framebuffer.Blit: giving a previous back buffer back to the page allocator, off-screen surfaces (where damage is not tracked), `discard_damage`, `pixels_mut` and `outline` are not part of this model; row offsets wrap at 64 bits, not at 32 as on the 32-bit targets; device words are little-endian, and bytes of the pitch behind the last pixel of a row are not mentioned.
- Framebuffers.Framebuffer.CopyWithin: without a back buffer the code does nothing and says so; it therefore takes no part in CompositedRunIsDirectRun.
- ScreenCoherence.CompositedRunIsDirectRun: at 16 bits masks with other coverages over the surface can differ (MaskAgreesIff says which).
- Wallpaper.RenderCover: the QOI decoder is a sequence of pixels that may be short, with the size limit its header check enforces; its opcodes are not modelled.
- Thumbnail.RenderThumbnail: sums and products wrap as in a release build; a debug build would stop instead.
- DumpWriter.Build: the frame-pointer walk, the stack scan and the reads of region memory are given as inputs, as is the counter; the summary kept for the stop screen is left out.
- DumpReader.Parse: the printing half of the tool (symbols, FAT images) is left out; the version string is kept as bytes.
- Base64.Decode: text that is not base64 as section 4 of RFC 4648 defines it counts as damaged; Python versions differ in how much excess padding they let pass.
- DumpLog.Uart.EmitSerial: the UART stays live; a port that stops accepting bytes loses the rest.
- Crc.BurstDetected: about equal-length inputs; no claim for errors wider than 32 bits.
- ProbeLimit.Module.ProcWrite: what the probes measure and how the report is formatted is left out; how counter creation went is a parameter, the clock is the event's start and end.
- MulDiv.Sum: reading a counter is a parameter.
- Calibrations.Calibration.TakeSample: reading a pad's configuration word is an oracle, and the bit mask of levels is a sequence.
- PadMap.Resolve: the two shipped pad-group tables are data; the results hold for any table whose groups share no pin and no pad. Finding the communities behind the firmware's windows is left out.
- NcpluPack.LinkRelas: the object's sections, symbols and relocations are taken as already read, names as bytes; a section with bits has as many bytes as it says. Of a symbol its name, value, section and weak binding are kept: thread-local symbols, and indirect functions, whose address is what calling them returns, are not told apart, and a defined symbol is not replaced by another object's.
- NcpluLoad.LoadsAsElf: SHA-512 is a parameter; architecture and kind names are given in lower case; the signature check, the tiers and the capability mask are left out; overlapping sections are refused by the loader.
- NcpluFormat.File: the header's consecutive fields are written in one step each side of the digest.
- MkefiPe.MapsAsElf: the mapping side follows the PE/COFF specification (raw data cut or zero-filled to the virtual size, sections in table order); firmware that refuses overlapping sections is not modelled.
- MkefiPe.MakeEfi: the range checks of all fields come before the header is put together, where the tool meets them one by one; the error is the same.
- Not modelled: port I/O, MSRs, inline assembly, hypercalls, boot entry, the USB stack, QOI and NCFS decoding, fonts, icons, palettes, packaging, GUI and language wrappers.
