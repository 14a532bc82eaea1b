# convpng's `misc.c` encoding pipeline in Dafny

convpng converts PNG images into data for TI-84 Plus CE programs. Its `misc.c` turns
palette-indexed pixels, one byte per pixel, into the byte streams that end up in the generated
C or assembly sources. This project models that pipeline and proves what each step computes:

- `Color`: `rgb565` and `rgb1555`, the 16-bit colour words, field by field.
- `Pack`: `force_image_bpp`, which packs 1, 2 or 4 bpp pixels into bytes, or writes RGBA
  pixels as big-endian `rgb565` words at 16 bpp.
- `Palette`: `force_color_index`, which searches the palette for a colour and swaps it into a
  fixed slot, growing the palette's length first when that slot lies past its end.
- `Filter`: `remove_elements`, which compacts an array in place.
- `Images`: `set_image`, which appends an image to the growing block of an output image.
- `Rlet`: `group_rlet_output`, the row-wise run-length encoding of transparent pixels.
  `RletDecode` reads the encoding back and proves that each row is recovered. `RletBounds`
  bounds the encoding's size and reads the two scans in the order misc.c writes them.
- `ColorOffsets`: `add_color_offsets`, which appends the table of sentinel offsets behind an
  image. The table is read back by an independent decoder.
- `Emit`: `output_array` and `output_array_compressed`. Each `format_t` callback they issue
  becomes an event, and the proofs read the event stream back as lines.
- `Paths`: `str_dupcat`, `str_dupcatdir` and `strip_path`.
- `Bytes`: shared vocabulary, including `uint8`, truncation to a byte, results and row slicing.

The imperative routines are Dafny methods over arrays, with the C code's loops and counters.
Each is proved against a specification function, and that function's properties are proved
as lemmas. `set_image` updates its image block in place, so `Images.Block` is a class.

A row that ends in a transparent run is encoded as that run's skip byte alone, with no zero
length byte after it (misc.c:309). Some descriptions of the format show a trailing zero
length; the model follows misc.c.

## Model

| member | source | states |
|---|---|---|
| Color.Round255 | misc.c:43-45 | `round(m / 255.0)` is the integer within 127/255 of m / 255; with 255 odd there is never a tie, so the integer formula is exact |
| Color.Rgb565Fields | misc.c:42-47 | bits 0-4 of `rgb565` read back as red, bits 5-10 as green and bits 11-15 as blue, each scaled to 31 or 63 and rounded |
| Color.Rgb1555Fields | misc.c:35-40 | bits 0-4 of `rgb1555` read back as blue and bits 10-14 as red; green's high five bits are bits 5-9 and its low bit is bit 15 |
| Pack.ForceImageBpp | misc.c:168-211 | bpp outside {1, 2, 4, 16} (8 included) is the error, and nothing is written. At 16 bpp the buffer starts with the big-endian `rgb565` words of the `size` pixels, and the width doubles. At 1/2/4 bpp the buffer starts with the packed image and the width is divided by 8/bpp. In both cases the new size is the new width times the height |
| Pack.Convert565 | misc.c:172-178 | the loop writes the two bytes of each pixel's `rgb565` word, high byte first, and leaves the rest of the buffer alone |
| Pack.Converted565At | misc.c:174-176 | bytes 2p and 2p+1 of the 16-bpp output, read as a big-endian word, are `rgb565` of pixel p |
| Pack.PackRows | misc.c:196-206 | the row loop writes the expected packed bytes in order, one row after the other |
| Pack.PackGroupAt | misc.c:199-203 | the innermost loop's byte is the packed byte of its group |
| Pack.PackedImageAt | misc.c:196-205 | byte `j * (width / k) + q` of the packed image packs the k pixels of row j that start at column `q * k` |
| Pack.PackGroupOneBppRoundTrip | misc.c:200-203 | at 1 bpp, unpacking a byte bit by bit from the top gives back the 8 pixels |
| Pack.PackGroupTwoBpp | misc.c:202 | as written, the 2-bpp group [3, 1, 2, 0] packs to 0x1C |
| Pack.PackGroupFourBppCollision | misc.c:202 | as written, the 4-bpp groups [1, 0] and [0, 2] pack to the same byte |
| Pack.PackGroupFixedRoundTrip | misc.c:200-203 | with the shift `(k - 1 - l) * bpp`, every group of 1, 2 or 4 bpp pixels unpacks to itself |
| Pack.PackGroupFixedValue | misc.c:200-203 | with that shift, the packed byte is the number the pixels spell in base 2^bpp |
| Palette.GrownLength | misc.c:217-222 | the length after the growth step is at least the old one, and it covers `index` or `index == *pal_len` |
| Palette.GrownLengthFixed | misc.c:217-222 | with the test `index >= *pal_len`, the length always covers `index` |
| Palette.FirstMatch | misc.c:224-227 | the search stops at the first entry equal to the colour |
| Palette.SearchStop | misc.c:224-227 | the search stops before `n` exactly when the colour is among the first `n` entries, and then at its first occurrence |
| Palette.ForceColorIndex | misc.c:213-233 | a slot past the end with a maximum length set is the error, and the palette is unchanged. Otherwise the new length is returned and the palette is the swap of slot `index` with the slot the search stopped at |
| Palette.ForcedEntries | misc.c:229-232 | a colour that is found ends in slot `index`, the slot it was found in receives the old `entries[index]`, and every other entry is unchanged |
| Palette.ForcedAbsent | misc.c:224-232 | a colour that is not found is not placed: slots `index` and `*pal_len` are exchanged and the rest is unchanged |
| Palette.ForceIdempotent | misc.c:224-232 | with the colour in the palette and `index` at most its length, a second identical call changes nothing; with `index` inside, the colour stays in the palette |
| Palette.ForceRepeat | misc.c:214-232 | a call that succeeds with the colour present, repeated with the length it returned, takes no error branch, keeps that length and changes nothing |
| Palette.GrownLengthCovers | misc.c:217-222 | as written, the grown length covers `index` exactly when `index != *pal_len` |
| Palette.ForcePastEnd | misc.c:217 | as written, palette [C, X] of length 1 with index 1 keeps length 1 and moves C out of it |
| Palette.ForceFixedInside | misc.c:217-232 | with the corrected growth step, the colour ends in slot `index`, inside the palette |
| Filter.Without | misc.c:286-290 | removing a value never lengthens the sequence |
| Filter.RemoveElements | misc.c:283-292 | returns `l <= len`; `array[..l]` is the old `array[..len]` without `val`, in order, and `array[l..]` is unchanged |
| Filter.WithoutRemoves | misc.c:286-290 | no kept element equals `val`, every other element is kept, and kept plus removed is the old length |
| Filter.WithoutPermutation | misc.c:286-290 | the kept elements and the removed copies of `val` are the old elements, as a multiset |
| Filter.WithoutIdempotent | misc.c:283-292 | removing `val` a second time changes nothing |
| Images.Block.SetImage | misc.c:138-145 | the block's data gains the image at its end, the image's size is recorded last, and the total size stays the data's length |
| Images.ImageAt | misc.c:138-145 | image i of a block has its recorded size |
| Images.SetImageKeeps | misc.c:140-141 | appending keeps every earlier image where it was |
| Images.SetImageLast | misc.c:140-143 | the appended image is the block's last image |
| Rlet.RunEnd | misc.c:305-307 | a run stops inside the row's bound |
| Rlet.RunEndStops | misc.c:305-314 | a run stops at the first pixel of the other kind, and a run that starts is not empty |
| Rlet.RunEndAll | misc.c:305-314 | every pixel of a run is of the run's kind |
| Rlet.LiteralsSlice | misc.c:311-314 | the copied literals are the image's pixels of the run |
| Rlet.RowCodes | misc.c:300-321 | an image of h rows has one row encoding per row |
| Rlet.GroupRletOutput | misc.c:294-322 | returns the length of the image's encoding. The buffer starts with that encoding, row after row; the rest of the first `2 * width * height` bytes is zero, and bytes beyond are unchanged |
| Rlet.Clear | misc.c:298 | the first n bytes become zero and the rest is unchanged |
| Rlet.EncodeRow | misc.c:301-320 | one row's passes write that row's encoding after the rows before it |
| Rlet.ScanTransparent | misc.c:305-307 | the transparent scan stops at the end of the run, never past the row's bound |
| Rlet.CopyLiterals | misc.c:311-314 | the copy writes the run of other pixels after its length slot and returns the run's length |
| RletDecode.PassLiterals | misc.c:305-316 | a pass that does not end the row writes the skip count, the literal count and the literal pixels; the literal run is not empty and holds no transparent pixel |
| RletDecode.RowRoundTrip | misc.c:302-320 | a row fewer than 256 pixels wide reads back from its encoding, whatever follows it |
| RletDecode.LinesRoundTrip | misc.c:300-321 | rows that each read back read back one after another from their concatenation |
| RletDecode.ImageRoundTrip | misc.c:294-322 | an image fewer than 256 pixels wide reads back, row by row, from the whole encoding |
| RletBounds.RletFromBound | misc.c:302-320 | a row takes at most two bytes a pixel, plus one when its first pixel is not transparent |
| RletBounds.RletImageBound | misc.c:294-322 | an image takes at most `height * (2 * width + 1)` bytes, a safe bound for every width, which at width 1 is `3 * height` |
| RletBounds.TransparentStart | misc.c:302-320 | a row that starts with a transparent pixel takes at most `2 * pixels - 1` bytes |
| RletBounds.TightRow | misc.c:302-320 | a row of at least two pixels takes at most two bytes a pixel |
| RletBounds.RletImageTight | misc.c:294-322 | from width 2 on, an image fits the `2 * width * height` bytes that the `memset` clears |
| RletBounds.RletExceedsClear | misc.c:298 | at width 1, a one-pixel opaque image takes 3 bytes, more than the 2 that the `memset` clears |
| RletBounds.RunAsWrittenAgrees | misc.c:305-314 | with one readable byte after the row, the scans as written stop where the bounded scans stop |
| RletBounds.RunAsWrittenPastEnd | misc.c:305-314 | a run that reaches the end of the image makes the scan as written read past it |
| RletBounds.RunAsWrittenOnePixel | misc.c:305 | a one-pixel image, transparent or not, is scanned up to `data[1]` |
| ColorOffsets.Sentinels | misc.c:243-246 | every recorded position is inside the scanned bytes |
| ColorOffsets.SentinelsExact | misc.c:243-246 | the recorded positions are exactly those of bytes 247, 249, 251 and 253, increasing |
| ColorOffsets.DistancesAreGaps | misc.c:272-274 | each distance is the gap to the previous sentinel, or to 0 for the first |
| ColorOffsets.ScanStep | misc.c:243-274 | a sentinel adds its distance and becomes the new reference point; any other byte changes nothing |
| ColorOffsets.Grouped | misc.c:254-266 | there are groups exactly when there are distances |
| ColorOffsets.GroupedUngroup | misc.c:254-266 | the groups hold all the distances, in order |
| ColorOffsets.GroupedShape | misc.c:254-266 | every group after the first opens with a distance above 255, and every later distance in a group fits a byte |
| ColorOffsets.CodesOfGroup | misc.c:256-257 | for a group of `amount` sentinels, the skip code is `226 - 5 * ((amount - 1) % 8)` and the count is `(amount - 1) / 8 + 1` modulo 256 |
| ColorOffsets.CodesOfNoGroup | misc.c:276-277 | with no sentinel the unsigned arithmetic wraps, and the codes become 191 and 0 |
| ColorOffsets.AmountOfCodes | misc.c:256-257 | a group of up to 2040 sentinels can be recovered from its two codes |
| ColorOffsets.GroupCountWraps | misc.c:277 | a group of 2041 sentinels wraps its count to 0, and its codes no longer give its size |
| ColorOffsets.TableLength | misc.c:258-264 | the table takes a 4-byte header per group and one byte per further distance |
| ColorOffsets.DecodeGroup | misc.c:256-264 | reading a group consumes its header at least, within the table |
| ColorOffsets.OffsetsRoundTrip | misc.c:264 | distances that fit a byte read back from their bytes |
| ColorOffsets.LeadRoundTrip | misc.c:249-250 | a 16-bit distance reads back from its two header bytes |
| ColorOffsets.TableRoundTrip | misc.c:249-278 | a table of storable groups, followed by `0x80`, reads back as those groups |
| ColorOffsets.SentinelTableRoundTrip | misc.c:243-278 | when distances fit 16 bits and groups hold at most 2040 sentinels, the table reads back as the groups, and they hold the distances between sentinels |
| ColorOffsets.NoSentinelNoTable | misc.c:276-280 | with no sentinel, the table is empty and the call adds 5 bytes |
| ColorOffsets.FirstHeader | misc.c:249-250 | the first header holds the first sentinel's position as a big-endian 16-bit word |
| ColorOffsets.AddColorOffsets | misc.c:235-281 | returns `len` plus the table's length plus one. The bytes before `len` are kept. With sentinels, the table and `0x80` follow them. Without sentinels, only the two codes of the reserved header and the terminator are written |
| Emit.LineFrom | misc.c:131-133 | a row's events are its bytes in order, each flagged `more` except the row's last |
| Emit.OutputArray | misc.c:125-136 | the events are the image's rows, one line each; each line ends with a break, and only the final row's break is flagged last |
| Emit.RowLine | misc.c:131-133 | the inner loop issues the events of one row's bytes |
| Emit.ArrayOutput | misc.c:125-136 | the stream is well formed, its lines read back as the rows, and the rows are the first `width * height` bytes in order |
| Emit.OutputArrayCompressed | misc.c:111-123 | the events are the bytes in lines of 32, with the `more` flags and breaks the column counter gives, then a break flagged last |
| Emit.ChunksCover | misc.c:111-123 | the lines are the data in order; every line but the last holds 32 bytes |
| Emit.CompressedOutput | misc.c:111-123 | the stream is well formed, and its lines read back as the data in lines of 32 |
| Emit.BlockLines | misc.c:125-136 | reading a block of lines back gives the lines |
| Emit.BlockWellFormed | misc.c:125-136 | a block of lines is a well-formed stream |
| Paths.StrDupCat | misc.c:55-65 | the copy is `s` followed by `c`, with `NULL` read as empty |
| Paths.StrDupCatDir | misc.c:67-75 | the copy is the directory, when one is set, then `s`, then `c` |
| Paths.LastSlash | misc.c:328 | `strrchr(s, '/')`: a slash with no slash after it, or none when `s` has no slash |
| Paths.StripPath | misc.c:324-332 | `NULL` stays `NULL`; without a directory the name is kept. With one, the result is the longest suffix of the name that holds no slash |
| Paths.StripPathAfterSlash | misc.c:324-332 | a slash-free file name after a path ending in `/` comes back alone |
| Paths.StripPathIdempotent | misc.c:324-332 | stripping twice is stripping once |

## Left out

- ForceImageBpp: at 1, 2 or 4 bpp the width must be a multiple of 8/bpp. For other widths misc.c:198 packs `ceil(width / k)` groups per row, each from `j * width` plus a multiple of k. The last group of a row reads into the next row, or past the image. misc.c:208 then sets the width by floor division, so `*size` counts fewer bytes than were written. The model does not cover that case.
- ForceImageBpp: `j * *width` (misc.c:197), `*width *= 2` and `*width * height` (misc.c:179, 210) are unbounded integers, not 32-bit unsigned products that wrap.
- OutputArray: `k * width` (misc.c:130) is an unbounded product, not a 32-bit one that wraps.
- GroupRletOutput: both scans test the bound before they read a pixel. misc.c:305 and misc.c:311 read `data[...]` first, one byte past the image at the end (see `RletBounds.RunAsWritten` and Findings).
- GroupRletOutput: requires a buffer that holds both the `2 * width * height` bytes it clears and the whole encoding. The C code writes the encoding without any bound, past a buffer of `width * height * 2` bytes when the encoding is longer (Findings).
- GroupRletOutput: `width * height * 2` (misc.c:298) and `j * width` (misc.c:301) are unbounded. The skip and length counts are truncated to a byte, as misc.c:308 and misc.c:315 store them.
- AddColorOffsets: `index` and `new_length` (misc.c:237-238) are unbounded. Only the header codes are computed with 32-bit wrap-around (`Wrap32`), and every stored byte is truncated to eight bits.
- AddColorOffsets: requires the array to have room for the table and its terminator. The C code writes them without checking.
- ForceColorIndex: requires the palette array to hold slot `index` and the slot the search stops at. misc.c reads `entries[*pal_len]` after a failed search without a bound; libimagequant's palette has a fixed 256 entries.
- StrDupCat: `str_dupcat(NULL, NULL)` passes `NULL` to `strlen`, which C leaves undefined, so both arguments `NULL` is excluded.
- Images.Block.SetImage: `safe_realloc` and `memcpy` become a sequence append. The capacity of the `size` array (`b->size[b->num_sizes]`) is not modelled.
- `errorf` is modelled as an `Err` result and assumed not to return. Its definition (logging.h) is not part of this model. If it returned, `force_image_bpp` would go on packing with `shift_amt = 1`.
- The `format_t` callbacks `print_byte` and `print_next_array_line` are modelled as a returned list of events. The text they write is not modelled.
- `rgb565` and `rgb1555` call `round` on a double. The model uses the integer `(m + 127) div 255` instead. For an integer m >= 0, m / 255.0 is never halfway between two integers, because 255 is odd, so the two agree (`Color.Round255` states the nearest-integer property). The double's own rounding error in m / 255.0 is not modelled. For these small m it is far below the 1/510 that separates m / 255 from the nearest half.
- `compress_image`: its only computation is the zx7 `optimize` and `compress`, which are not part of this model. Its other branch is the `errorf` abort for any mode other than ZX7.
- `str_dup`, `safe_malloc`, `safe_calloc`, `safe_realloc` and `output_create` only allocate. Allocation failure aborts through `errorf`, so every copy exists.
- `encodePNG`, `build_image_palette` and `create_icon` are left out. They write PNG files through lodepng and quantize with libimagequant, which are not part of this model.
- The global `convpng.directory` is the parameter `directory` of `Paths.StrDupCatDir` and `Paths.StripPath`.

## Findings

| source | as written | input that shows it | evidently intended | confidence | as-written member | corrected member |
|---|---|---|---|---|---|---|
| misc.c:202 | `byte \|= data[k + o + lob] << --curr_inc` shifts pixel l of a group by `k - 1 - l` bits, whatever the bit depth | 2 bpp, group [3, 1, 2, 0] packs to 0x1C; 4 bpp, groups [1, 0] and [0, 2] both pack to 0x02 | shift by `(k - 1 - l) * bpp`, giving 0xD8 for [3, 1, 2, 0] and a packing that unpacks to the pixels | high; not executed | Pack.PackGroupTwoBpp, Pack.PackGroupFourBppCollision | Pack.PackGroupFixedRoundTrip |
| misc.c:217 | `index > *pal_len` does not grow the palette when `index == *pal_len` | palette [C, X] of length 1, index 1: the length stays 1 and C is swapped into slot 1, outside the palette | `index >= *pal_len`, so the length becomes `index + 1` | high; not executed | Palette.ForcePastEnd | Palette.ForceFixedInside |
| misc.c:305, misc.c:311 | both scans read `data[...]` before testing `t < left` or `o < left` | a one-pixel image of width 1 and height 1: each scan reads `data[1]` | test the bound first, as `Rlet.ScanTransparent` and `Rlet.CopyLiterals` do (`RletBounds.RunAsWrittenAgrees`: they stop at the same place when the extra byte is readable) | high; not executed | RletBounds.RunAsWrittenOnePixel | Rlet.ScanTransparent |
| misc.c:298 | `memset` clears `width * height * 2` bytes; from width 2 on the encoding fits (`RletBounds.RletImageTight`), but a row of width 1 whose pixel is opaque takes 3 bytes | one opaque pixel, width 1, height 1: the encoding [0, 1, 7] takes 3 bytes, and 2 are cleared | clear and size the buffer by `max(2 * width * height, 3 * height)`: `RletBounds.RletImageTight` covers width 2 and up, and `RletBounds.RletImageBound` gives `3 * height` at width 1 | medium; not executed | RletBounds.RletExceedsClear | RletBounds.RletImageTight |
