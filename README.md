# Median-cut colour reduction and BMP pixel transforms in Dafny

This project models two parts of a small set of raster-image utilities.

- **Median-cut colour reduction** (`medianCut`). It works on a flat buffer of RGB pixels.
  - It builds one group holding every pixel index.
  - It repeatedly takes the group with the most members and splits it at the midpoint of its widest colour channel. This stops when the target group count is reached or no group is left to split.
  - It overwrites every pixel with the floor mean colour of its group.
  - It returns the group means, sorted by brightness `r + g + b`.
- **In-place transforms of a 24-bit BMP pixel buffer.** These are the vertical flip, the horizontal flip and the grayscale conversion. Each works on rows padded to a multiple of four bytes. The project also models the two packed BMP headers, the test that decides which files are accepted, and the size fields written back before saving.

The modules follow the structure of the program:

| file | module | models |
|---|---|---|
| `colors.dfy` | `Colors` | the `Color` record and its brightness |
| `groups.dfy` | `Groups` | index groups, the initial index list, partitions of `0..n-1` |
| `boxes.dfy` | `Boxes` | per-channel bounds of a group, the split axis, the midpoint split, floor means |
| `palette_order.dfy` | `PaletteOrder` | sorting the palette by brightness, in place |
| `median_cut.dfy` | `MedianCut` | the split loop, the averaging and overwrite loop, the whole `medianCut` |
| `raster.dfy` | `Raster` | the row-size formula, `flipVertically`, `flipHorizontally`, `convertToGrayscale` |
| `bmp_header.dfy` | `BmpHeader` | the packed headers, the acceptance test, the size update |

## How the model is built

**The split loop.** It is specified by a function.
- `MedianCut.Step` is one pass of the loop body over the state `(tmpGroups, finalGroups)`.
- `MedianCut.Run` iterates `Step` while the loop guard holds.
- `MedianCut.FinalGroups` is the list of groups that reaches the averaging phase.

The method `MedianCut.SplitGroups` has the source's `while` loop. Its loop invariant says that running the specification from the current state gives the same result as running it from the start. Its postcondition is therefore that it returns exactly `FinalGroups`. The properties of the algorithm are then lemmas about `FinalGroups`:
- the groups partition the pixel indices;
- no group is empty;
- the group count is bounded;
- fewer groups than the target means every group has one colour.

**Averaging and overwrite.** The source computes each mean from the buffer as it is being overwritten. `MedianCut.RecolorGroups` is proved to compute the means of the original pixels. This holds because a group's pixels are untouched until that group is averaged (`NotYetRecolored`), which in turn follows from the groups being disjoint.

**The transforms.** Each one is a method on an `array<Uint8>` with the source's nested loops. Each is proved to produce a ghost function of the old buffer:
- `FlippedVertically` moves every byte to the mirrored row;
- `FlippedHorizontally` moves every pixel byte to the mirrored column;
- `Grayscaled` sets the three bytes of every pixel to its gray value.

Each of these functions is then shown to do what the program intends:
- the flips are involutions;
- grayscale is idempotent;
- padding bytes and the bytes past the last row are untouched.

The inner loops are separate methods (`SwapRows`, `ReverseRow`, `SwapPixels`, `GrayRow`). Each keeps the loop-state predicate of its outer loop.

**Integer behaviour.**
- `Byte` and `Uint8` are the range 0..255.
- `CDiv` is C's truncating division. It matters for `(width*3+3)/4` when the width is negative.
- The test `component < (min+max)/2.0f` is modelled exactly as `2*component < min+max`.
- `std::round((r+g+b)/3.0)` is modelled exactly as `(r+g+b+1)/3`. The sum is an integer, so its third is either whole or a third away from the nearest whole number. No value lies halfway, so the rounding mode never matters.
- The conversion `static_cast<size_t>(maxColorGroupCount)` is modelled by `GroupLimit`, which reduces modulo 2^64. A negative target therefore becomes a bound larger than any group count, as it does in the program.

**Behaviour of the program that the model keeps.**
- The group chosen for splitting is the one with the most members (MedianCut.cpp:39-40). Colour spread plays no part in the choice.
- Every pixel is overwritten with the mean of its own group (MedianCut.cpp:130-132). No nearest-colour search takes place.
- A target count below 1 is not rejected (MedianCut.cpp:37). It goes through the `size_t` conversion described above.
- The target count defaults to 64 (MedianCut.cpp:21). `MedianCut.Quantize` declares the same default.
- The loop stops early only when the work list is empty. The check `maxIt->empty()` at MedianCut.cpp:42 can never succeed, because no group is ever empty (`Step` keeps `Valid`). The model asserts this instead of modelling the test.

## Model

| member | source | states |
|---|---|---|
| Colors.Color.Brightness | MedianCut.cpp:15-17 | the brightness is the sum of the three channels, so it lies in 0..765 |
| Groups.Indices | MedianCut.cpp:25-28 | the initial index list has one entry per pixel, and entry i is i |
| Groups.IndicesOnce | MedianCut.cpp:25-28 | every index below the pixel count occurs exactly once in the initial list, and nothing else occurs |
| Groups.InFlatten | MedianCut.cpp:107 | an index is in the concatenation of the groups iff some group contains it |
| Groups.PartitionDisjoint | MedianCut.cpp:33-34 | when the groups together hold each pixel index exactly once (`Partitions`), no index is in two groups (`Disjoint`) and no group repeats an index |
| Groups.PartitionCovers | MedianCut.cpp:33-34 | when the groups partition the pixel indices, every pixel index lies in some group |
| Groups.PartitionCount | MedianCut.cpp:107-111 | a partition of n indices into non-empty groups has at most n groups |
| Boxes.BoundsOfTight | MedianCut.cpp:48-57 | the min/max scan (`BoundsOf`) gives bounds that contain every member's channel value, and each bound is the value of some member |
| Boxes.DegenerateIffUniform | MedianCut.cpp:60-68 | all three ranges are zero (`Degenerate`) iff every member of the group has the same colour |
| Boxes.WidestAxis | MedianCut.cpp:74-85 | the chosen channel has a maximal range; green is chosen only if red's range is smaller, and blue only if both others are smaller |
| Boxes.Split | MedianCut.cpp:87-99 | the two halves together hold exactly the group's members; a member is in the lower half iff twice its component is below min+max on the axis (`BelowCenter`) |
| Boxes.SplitBothNonEmpty | MedianCut.cpp:88-103 | when the axis range is positive, both halves are non-empty, so a split never creates an empty group |
| Boxes.SplitWithin | MedianCut.cpp:92-99 | both halves contain only valid pixel indices |
| Boxes.SumBetween | MedianCut.cpp:114-121 | a channel sum (`Sum`) lies between size*min and size*max when every member lies in [min, max] |
| Boxes.Mean | MedianCut.cpp:123-126 | the integer mean of a channel lies within the group's [min, max] for that channel |
| Boxes.MeanFloor | MedianCut.cpp:123-126 | the mean is the floor of sum/size: mean*size <= sum < (mean+1)*size |
| Boxes.MeanColor | MedianCut.cpp:123-127 | every channel of the average colour is that channel's mean, and so lies within the group's bounds |
| Boxes.MeanColorAgrees | MedianCut.cpp:116-127 | the average colour depends only on the colours of the group's own pixels |
| Boxes.UniformMean | MedianCut.cpp:123-127 | the average of a one-colour group is that colour |
| PaletteOrder.Insert | MedianCut.cpp:138-140 | one insertion step extends the brightness-sorted prefix by one entry and permutes the array |
| PaletteOrder.SortByBrightness | MedianCut.cpp:138-140 | the palette ends up ordered by non-decreasing brightness and is a permutation of its old contents |
| MedianCut.Largest | MedianCut.cpp:39-40 | the chosen group has the most members, and every group before it has fewer (the first maximum) |
| MedianCut.WidestPositive | MedianCut.cpp:65-85 | a group that is not degenerate has a positive range on its widest channel |
| MedianCut.Step | MedianCut.cpp:38-103 | one pass keeps all groups non-empty and in range; it either adds one group or moves one group from the work list to the terminal list |
| MedianCut.Run | MedianCut.cpp:37-104 | the loop never lowers the count, never passes a target it starts below, and ends with the target reached or the work list empty |
| MedianCut.FinalGroups | MedianCut.cpp:33-107 | the final groups are non-empty and in range; there are at most max(target, 1) of them, and there is at least one iff there are pixels |
| MedianCut.MembersTerminal | MedianCut.cpp:65-67 | moving a group to the terminal list keeps the multiset of indices held by the two lists |
| MedianCut.MembersSplit | MedianCut.cpp:88-103 | replacing a group by its non-empty halves keeps the multiset of indices held by the two lists |
| MedianCut.StepKeepsMembers | MedianCut.cpp:44-103 | one pass of the loop neither drops nor duplicates an index |
| MedianCut.RunKeepsMembers | MedianCut.cpp:37-104 | the whole loop neither drops nor duplicates an index |
| MedianCut.FinalGroupsPartition | MedianCut.cpp:33-107 | the final groups hold every pixel index exactly once |
| MedianCut.StepKeepsFinalUniform | MedianCut.cpp:64-68 | only one-colour groups enter the terminal list during the loop |
| MedianCut.RunKeepsFinalUniform | MedianCut.cpp:37-104 | after the loop, every group moved to the terminal list by the loop has one colour |
| MedianCut.FewerGroupsOnlyWhenUniform | MedianCut.cpp:37-107 | when fewer groups than the target come out, every group has a single colour |
| MedianCut.PaintGroup | MedianCut.cpp:130-132 | overwriting a group sets exactly the group's pixels to the colour and leaves every other pixel as it was |
| MedianCut.RecolorSingle | MedianCut.cpp:113-132 | one group's overwrite pass is the same as painting that group |
| MedianCut.RecolorAt | MedianCut.cpp:113-135 | after all groups are overwritten (`Recolor`), a member of group k holds the mean of group k |
| MedianCut.RecolorOutside | MedianCut.cpp:113-135 | a pixel in no group keeps its colour |
| MedianCut.NotYetRecolored | MedianCut.cpp:113-132 | when group k is averaged, its pixels still hold their original colours, so each mean is taken over the input image |
| MedianCut.RecolorPrefix | MedianCut.cpp:113-132 | overwriting the first k+1 groups is overwriting the first k groups and then painting group k |
| MedianCut.QuantizedPixels | MedianCut.cpp:107-134 | every pixel of the output image (`Quantized`) is the mean of the group containing it, and so is one of the group means (`Means`) |
| MedianCut.UniformGroupsKeepColours | MedianCut.cpp:64-68 | when every group has one colour, every input colour is among the means |
| MedianCut.EnoughColoursFillPalette | MedianCut.cpp:37-107 | an image with at least target (>= 1) distinct colours yields exactly target groups |
| MedianCut.SingleColourFirstStep | MedianCut.cpp:65-68 | for a one-colour image the first pass moves the whole image to the terminal list |
| MedianCut.SingleColourRun | MedianCut.cpp:37-104 | for a one-colour image the loop ends after at most one pass, with the single full group |
| MedianCut.SingleColourGroups | MedianCut.cpp:33-107 | for a one-colour image the only group is the whole image, whatever the target |
| MedianCut.SingleColourWholeGroup | MedianCut.cpp:113-134 | the whole-image group's mean is the image's colour, and overwriting with it changes nothing |
| MedianCut.SingleColourMean | MedianCut.cpp:113-127 | the whole-image group of a one-colour image averages to that colour |
| MedianCut.SingleColourRepaint | MedianCut.cpp:130-132 | overwriting a one-colour image with its own colour leaves it unchanged |
| MedianCut.SingleColourImage | MedianCut.cpp:21-134 | a one-colour image yields a single palette entry equal to its colour and comes back unchanged |
| MedianCut.GroupLimit | MedianCut.cpp:37 | a non-negative target is used as is; a negative one wraps to target + 2^64, as static_cast<size_t> does |
| MedianCut.StepSingleSplit | MedianCut.cpp:44-103 | splitting the only work-list group replaces it by its non-empty halves |
| MedianCut.BlackAndWhiteBounds | MedianCut.cpp:48-57 | a black and a white pixel have bounds black..white |
| MedianCut.BlackAndWhiteSplit | MedianCut.cpp:87-99 | splitting black and white on red puts black below and white above |
| MedianCut.BlackAndWhiteStep | MedianCut.cpp:38-103 | the first pass over a black and white pair gives two one-pixel groups |
| MedianCut.BlackAndWhiteBox | MedianCut.cpp:60-99 | the pair is not degenerate, its widest axis is red, and the split separates the two pixels |
| MedianCut.BlackAndWhite | MedianCut.cpp:21-143 | a black and a white pixel with target 2 give the groups [0] and [1], means black and white, and an unchanged image |
| MedianCut.BlackAndWhiteColours | MedianCut.cpp:113-134 | with the groups [0] and [1], the means are the two pixels and the image is unchanged |
| MedianCut.BlackAndWhiteMeans | MedianCut.cpp:113-127 | a one-pixel group averages to its own pixel |
| MedianCut.InitIndices | MedianCut.cpp:25-28 | the loop fills the index list with 0..n-1 |
| MedianCut.ComputeBounds | MedianCut.cpp:48-57 | the min/max loop computes the tight per-channel bounds of the group |
| MedianCut.SplitGroup | MedianCut.cpp:87-99 | the partition loop computes the midpoint split of the group |
| MedianCut.GroupMean | MedianCut.cpp:114-127 | the summing loop computes the group's floor-mean colour |
| MedianCut.Paint | MedianCut.cpp:130-132 | the overwrite loop paints exactly the group's pixels |
| MedianCut.SplitGroups | MedianCut.cpp:33-107 | the split loop returns exactly the final groups of the specification, for the size_t-converted target |
| MedianCut.RecolorGroups | MedianCut.cpp:110-135 | the palette is the list of group means of the input image, and the buffer is the input with every group overwritten by its mean |
| MedianCut.Quantize | MedianCut.cpp:21-143 | the target defaults to 64; the buffer becomes the quantized image; the palette is a brightness-sorted permutation of the group means; it has at most target entries (one for a target of 0) and at most one per pixel; every output pixel is a palette entry; an empty image gives an empty palette and is left as it was |
| MedianCut.QuantizedEmpty | MedianCut.cpp:25-30 | an empty image has no groups, no means and is left unchanged |
| MedianCut.PaletteCovers | MedianCut.cpp:130-142 | every output pixel is in any permutation of the means, and the palette bounds hold |
| MedianCut.PaletteSize | MedianCut.cpp:107-111 | the palette has at most target entries for a positive target, at most one for a target of 0, and never more than the pixel count |
| Raster.CDiv | Convert00.cpp:37 | integer division truncates toward zero, as in C: the quotient counts the whole multiples of the divisor on the dividend's side of zero, and the remainder takes the dividend's sign and is smaller than the divisor |
| Raster.RowSizePadding | Convert00.cpp:37 | the row size (`RowSize`) is a multiple of 4 with 3*width <= rowSize < 3*width + 4 |
| Raster.RowSizeLeast | Convert00.cpp:37 | the row size is the least multiple of 4 that holds 3*width bytes |
| Raster.RowSizeNegative | Convert00.cpp:37 | a negative width gives a row size of 0 or less |
| Raster.Swap | Convert00.cpp:57 | std::swap exchanges the two bytes and changes nothing else |
| Raster.MirrorRow | Convert00.cpp:53-57 | the mirrored position lies in row height-1-y at the same offset |
| Raster.MirrorRowTwice | Convert00.cpp:54-55 | mirroring a row position twice gives it back |
| Raster.FlipVertically | Convert00.cpp:51-60 | the buffer becomes the vertically flipped image (`FlippedVertically`) of its old contents |
| Raster.SwapRows | Convert00.cpp:54-58 | the inner loop exchanges rows y and height-1-y and advances the outer loop's state by one row |
| Raster.FlipVerticallyTwice | Convert00.cpp:51-60 | flipping vertically twice gives the original buffer |
| Raster.FlippedVerticallyMoves | Convert00.cpp:53-58 | the byte at row y, offset o ends up at row height-1-y, offset o |
| Raster.FlippedVerticallyMiddleRow | Convert00.cpp:53 | for an odd height the middle row is unchanged |
| Raster.FlippedVerticallyTail | Convert00.cpp:51-60 | bytes past the last row are unchanged |
| Raster.MirrorColumn | Convert00.cpp:67-68 | the mirrored position is in the same row, in column width-1-x, at the same byte of the pixel |
| Raster.MirrorColumnTwice | Convert00.cpp:67-68 | mirroring a pixel byte twice gives it back |
| Raster.FlipHorizontally | Convert00.cpp:63-74 | the buffer becomes the horizontally flipped image (`FlippedHorizontally`) of its old contents |
| Raster.ReverseRow | Convert00.cpp:66-72 | the pixel loop mirrors row y and advances the outer loop's state by one row |
| Raster.SwapPixels | Convert00.cpp:69-71 | the byte loop exchanges pixels x and width-1-x of row y |
| Raster.FlipHorizontallyTwice | Convert00.cpp:63-74 | flipping horizontally twice gives the original buffer |
| Raster.FlippedHorizontallyMoves | Convert00.cpp:66-71 | byte i of the pixel in column x ends up as byte i of the pixel in column width-1-x of the same row |
| Raster.FlippedHorizontallyKeepsPadding | Convert00.cpp:66-71 | the padding bytes after 3*width in each row are unchanged |
| Raster.Gray | Convert00.cpp:44 | the gray value is r+g+b divided by 3, rounded to the nearest integer |
| Raster.GrayOfGray | Convert00.cpp:44 | a pixel whose three bytes are equal has that byte as its gray value |
| Raster.GrayPixel | Convert00.cpp:45 | the chained assignment sets the three bytes of one pixel to its gray value |
| Raster.ConvertToGrayscale | Convert00.cpp:36-48 | the buffer becomes the grayscale image (`Grayscaled`) of its old contents |
| Raster.GrayRow | Convert00.cpp:39-46 | the column loop converts row y and advances the outer loop's state by one row |
| Raster.GrayscaledPixel | Convert00.cpp:40-45 | each of the three bytes of a pixel becomes the pixel's gray value |
| Raster.GrayscaleTwice | Convert00.cpp:36-48 | converting an already converted buffer changes nothing |
| Raster.GrayscaledKeepsPadding | Convert00.cpp:38-46 | the padding bytes after 3*width in each row are unchanged |
| BmpHeader.Bytes16 | Convert00.cpp:12 | a 16-bit field is stored as two little-endian bytes that read back as the value |
| BmpHeader.Bytes32 | Convert00.cpp:13 | a 32-bit field is stored as four little-endian bytes that read back as the value |
| BmpHeader.Int32RoundTrip | Convert00.cpp:21-22 | a signed 32-bit field survives its two's-complement storage, and every stored pattern survives the reverse |
| BmpHeader.EncodeFileHeader | Convert00.cpp:11-17 | the packed file header is 14 bytes |
| BmpHeader.EncodeInfoHeader | Convert00.cpp:19-31 | the packed info header is 40 bytes |
| BmpHeader.FileHeaderRoundTrip | Convert00.cpp:198 | reading back a written file header gives the same header |
| BmpHeader.FileHeaderBytesRoundTrip | Convert00.cpp:130 | writing back the file header read (`DecodeFileHeader`) from 14 bytes gives those bytes |
| BmpHeader.InfoHeaderRoundTrip | Convert00.cpp:199 | reading back a written info header gives the same header |
| BmpHeader.InfoHeaderBytesRoundTrip | Convert00.cpp:131 | writing back the info header read (`DecodeInfoHeader`) from 40 bytes gives those bytes |
| BmpHeader.SupportedBytes | Convert00.cpp:134 | a file is accepted (`Supported`) iff it starts with "BM", its bit count is 24 and its compression field is 0, read from the raw header bytes |
| BmpHeader.ImageSizeNonNegative | Convert00.cpp:187-189 | the image size (`ImageSize`) is non-negative for a non-negative width and at most 0 for a negative one, and reducing it to 32 bits before adding the header sizes gives the same file size |
| BmpHeader.UpdateSizes | Convert00.cpp:187-189 | only the two size fields change; for a non-negative width the image size is rowSize*abs(height) and the file size is 14 + 40 + image size; for a negative width the product is at most 0 and a negative one wraps to 2^32 plus it; the file size is always the 32-bit sum |
| BmpHeader.UpdatedImageSize | Convert00.cpp:187-189 | the new image size is the padded row size times the height, and the file size is the two packed header lengths plus the image size |

## Left out

- Resize.cpp, and `resizeImage` in Convert00.cpp. They use floating-point interpolation and coordinate mapping.
- `main` and `displayMenu` in Convert00.cpp, apart from the header test and the size update.
  - File and console I/O are not modelled. This includes opening files, `seekg` to `bfOffBits`, short reads and the menu dispatch.
  - The headers are modelled as the packed little-endian byte layout that `#pragma pack(1)` gives on a little-endian machine.
- MyIntVector.cpp. It is a forwarding wrapper over `std::vector<int>` with no logic of its own.
- The `std::function` and lambda selectors of MedianCut.cpp:71-85. The axis is a `Channel` value and the component is `Color.Get`.
- The vector mechanics of the split loop. `erase`, `push_back`, `std::move` and `insert` are modelled as operations on `seq`. Moved-from vectors are never read again, so nothing is lost.
- MedianCut.Quantize: the uint64 channel sums are treated as unbounded integers. With at most 2^64 / 255 pixels per group they cannot overflow.
- PaletteOrder.SortByBrightness: `std::sort` is modelled as an insertion sort. Only sortedness and the permutation are promised. The order among entries of equal brightness is unspecified in the source and is not modelled.
- Raster.FlipVertically, Raster.FlipHorizontally, Raster.ConvertToGrayscale: 32-bit `int` overflow of `width * 3 + 3` and of the byte indices is not modelled. Integers are unbounded.
  - These three require a non-negative height, because their only caller passes `std::abs(biHeight)`.
  - They require the buffer to hold `rowSize * height` bytes. The caller allocates exactly that, and otherwise the source indexes out of range.
- BmpHeader.UpdateSizes requires the `int` arithmetic of Convert00.cpp:187 to stay in range. Signed overflow and `std::abs(INT_MIN)` are undefined in C++.
