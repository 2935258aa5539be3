# PPM image tool — a verified model of its core

This project models the core of a small command-line tool for binary
("P6") PPM images, written in Rust. The model covers:

- the in-memory image (`Pixel`, `PPM`, `get_pixel`, `pixel_count` in `src/ppm.rs`);
- the file codec (`parse_header`, `read_image_data`, `write_image` in `src/imageio.rs`);
- the two rotations (`rotate_left`, `rotate_right` in `src/imageactions.rs`);
- the colour negative (`negative` in `src/imagefx.rs`);
- the older header parser with i32 fields (`parse_header` in `src/utils.rs`).

A file is a byte sequence. `process::exit(1)` becomes an error result that
names the cause. `write_image` returns the bytes that end up in the file. Rust's
u32 and u16 arithmetic is modelled as a release build computes it: modulo
2^32 for the product in `pixel_count` and the difference in `negative`, and
the low 16 bits for the `as u16` cast.

Modules, in dependency order:

| module | file | models |
|---|---|---|
| `Wrappers` | wrappers.dfy | `Option`, `Result`, `Outcome` |
| `IndexMath` | index_math.dfy | arithmetic facts about row-major indices |
| `RustText` | rust_text.dfy | `str::lines`, `split(' ')`, `parse::<u32>` and `parse::<i32>`, decimal formatting |
| `HeaderScan` | header_scan.dfy | the token scanner both `parse_header` variants share |
| `Ppm` | ppm.dfy | `Pixel`, the `PPM` class, `get_pixel`, `pixel_count` |
| `ImageIo` | imageio.dfy | `parse_header`, `read_image_data`, `write_image`, the round trip |
| `Gathering` | gather.dfy | reading a sequence through distinct positions permutes it |
| `ImageActions` | imageactions.dfy | `rotate_left`, `rotate_right` |
| `ImageFx` | imagefx.dfy | `negative` |
| `Utils` | utils.dfy | the legacy i32 `parse_header` |

Each imperative Rust function is a Dafny method. Where the Rust loops, the
method loops too. Each method is proved against a specification function on
the state before and after. The properties the tool relies on are lemmas
about those functions:

- rotating left and then right gives back the pixels, and so does rotating right and then left;
- rotating twice reverses the pixels, and rotating four times is the identity;
- every rotation is a permutation of the pixels, so none of the placeholder pixels the buffer starts with survives;
- negating twice is the identity, for every max color, thanks to the wrap-around;
- writing an image and reading it back gives the same header and pixels;
- the header scanner reads exactly the first four tokens in order and ignores everything after them.

Four behaviours of the code are easy to mistake for something else. The
model follows the code in each:

- **Incomplete headers.** No "truncated header" error exists. When the input ends before four header tokens, `parse_header` in imageio.rs returns 0, and the one in utils.rs returns normally. See `ImageIo.HeaderLength` and `Utils.ShortHeaderKeepsFields`.
- **Pixel access.** `get_pixel` has no bounds check. It wraps negative coordinates by adding the width or height, and never compares `x` with the width. See `Ppm.WrapColumn` and `Ppm.NoColumnBound`.
- **Token separators.** Header tokens are separated by single spaces within a line, or by line ends. Two spaces in a row give an empty token, and an empty token fails to parse as a number. Tabs separate nothing.
- **Format subtype.** No magic is refused. The code never checks for "P6".

## Model

| member | source | states |
|---|---|---|
| Ppm.Ppm.constructor | src/ppm.rs:45-53 | a new image has zero width, height and max color, an empty magic and no pixels |
| Ppm.Ppm.PixelCount | src/ppm.rs:69-71 | the pixel count is width times height whenever that product fits in a u32 |
| Ppm.WrappingMul | src/ppm.rs:70 | the release-build u32 product equals the true product when the true product fits |
| Ppm.Wrap | src/ppm.rs:58-63 | the `while v < 0 { v += n }` loop leaves a non-negative coordinate alone and moves a negative one into `[0, n)`, congruent modulo `n` |
| Ppm.Ppm.GetPixel | src/ppm.rs:56-66 | `get_pixel` returns the pixel at the wrapped index `row * width + col`; it requires the index to exist, where Rust would panic |
| Ppm.PixelIndexInside | src/ppm.rs:65 | inside the image, `get_pixel(x, y)` reads index `y * width + x`, and that index is below `width * height` |
| Ppm.WrapColumn | src/ppm.rs:58-60 | for `0 <= x < width`, column `x - width` reads the same pixel as column `x` |
| Ppm.WrapRow | src/ppm.rs:61-63 | for `0 <= y < height`, row `y - height` reads the same pixel as row `y` |
| Ppm.PixelIndex | src/ppm.rs:58-65 | the index `get_pixel` reads after its wrapping loops is never negative for a non-negative width |
| Ppm.WrapPasses | src/ppm.rs:58-63 | after any number of passes of the wrapping loop, a coordinate that was not negative is unchanged, and with a non-negative dimension it never decreases |
| Ppm.WrapPassesEnd | src/ppm.rs:58-63 | with a positive dimension the loop ends within `-v` passes, at the value `Wrap` gives |
| Ppm.ZeroDimensionSpins | src/ppm.rs:58-63 | with a zero dimension a negative coordinate never changes, so the loop never ends |
| Ppm.CheckedWrap | src/ppm.rs:58-63 | the corrected wrap gives no value exactly for a negative coordinate in an empty dimension, and otherwise a coordinate in `[0, n)` congruent to the input |
| Ppm.CheckedWrapAgrees | src/ppm.rs:58-63 | whenever the loop ends it ends at `CheckedWrap`, and where `CheckedWrap` gives no value the loop has not ended |
| Ppm.NoColumnBound | src/ppm.rs:65 | column `width + k` of row `y` is column `k` of row `y + 1`: the column is not bounds-checked |
| RustText.Lines | src/imageio.rs:28 | no line that `lines()` yields contains a newline |
| RustText.LinesOfTerminated | src/imageio.rs:28 | newline-terminated lines followed by any bytes split back into those lines, then the lines of the bytes |
| RustText.LinesOfLine | src/imageio.rs:28 | a line without a newline, followed by a newline, is the first line |
| RustText.Split | src/imageio.rs:50 | `split(' ')` yields at least one piece, and no piece holds a space |
| RustText.JoinSplit | src/imageio.rs:50 | joining the pieces of `split(' ')` with spaces gives back the line |
| RustText.SplitJoin | src/imageio.rs:50 | splitting pieces joined with spaces gives back the pieces, when no piece holds a space |
| RustText.ParseInt | src/imageio.rs:65-71 | an empty token never parses; a u32 parse lies in `[0, 2^32)` and an i32 parse in `[-2^31, 2^31)`; all but the first byte of a parsed token are digits |
| RustText.ParseDecimalUnsigned | src/imageio.rs:65 | decimal text of any u32 parses back as that number |
| RustText.ParseNegativeSigned | src/utils.rs:66 | `-n` parses as an i32 for every `n <= 2^31` |
| RustText.ParseNegativeUnsigned | src/imageio.rs:65 | no token with a minus sign parses as a u32 |
| RustText.DigitsOfDecimal | src/imageio.rs:210 | the digits `format!` writes for a number have that number as their value |
| RustText.NextLineStops | src/imageio.rs:128 | one `read_line` moves just past the next newline, or to the end of the input when none follows, and passes no other newline |
| RustText.SkipLinesAfterNewline | src/imageio.rs:125-129 | after the seek to 0 and `header_length` calls of `read_line`, the position is in the input, and when it is inside the input it is just after a newline |
| RustText.SkipTerminated | src/imageio.rs:127-129 | skipping as many lines as were terminated lands just after their last newline |
| HeaderScan.LineTokensOfLine | src/imageio.rs:44-50 | a comment line offers no token; any other line offers at least one, none holding a space, and joined with single spaces they are the line |
| HeaderScan.Step | src/imageio.rs:56-103 | one block: nothing changes once four fields are read or one failed; otherwise the block counter advances or the scan fails; a numeric field fails exactly when its block does not parse, and a failure names that field and leaves the fields as they were |
| HeaderScan.RunIsFirstFour | src/imageio.rs:53-104 | the token loop leaves exactly what `FirstFour` spells out: the first token is the magic, the next three must parse as numbers in order, the first failure stops the scan, and later tokens are never examined |
| HeaderScan.RunAbsorbs | src/imageio.rs:31-33 | once four blocks are read or one has failed, further tokens change nothing |
| HeaderScan.BlockCounts | src/imageio.rs:60-96 | without a failure, `info_block` is the number of tokens fed, capped at 4 |
| HeaderScan.CommentAddsNoTokens | src/imageio.rs:44-47 | a line starting with `#` contributes no token wherever it occurs |
| HeaderScan.RunKeepsUnread | src/utils.rs:57-104 | a field the scan never reached keeps its initial value |
| HeaderScan.HeaderEnd | src/imageio.rs:28-33 | the line at which the header is complete: the first prefix of the lines that holds four tokens, or none when all the lines hold fewer |
| HeaderScan.HeaderEndStable | src/imageio.rs:31-33 | once a prefix of the lines completes the header, later lines do not move the end |
| ImageIo.HeaderLength | src/imageio.rs:28-107 | a non-zero result is the line at which the header became complete, and a line follows it; 0 means the header never completed or completed on the last line |
| ImageIo.ParseHeader | src/imageio.rs:9-111 | `parse_header` leaves the header fields and returns the line index of `ParseHeaderSpec`; a block that fails to parse ends it with that field |
| ImageIo.ScanLine | src/imageio.rs:44-50 | one line, comment or not, advances the scanner as its tokens do |
| ImageIo.ScanBlocks | src/imageio.rs:53-104 | the inner token loop advances the scanner as `Run` over its blocks does |
| ImageIo.StoreBlock | src/imageio.rs:56-103 | one arm of `match info_block` is exactly one scanner `Step` |
| ImageIo.CompleteBefore | src/imageio.rs:31-33 | a header complete before line `index` returns `index` |
| ImageIo.FailedInLine | src/imageio.rs:65-95 | a number that fails in line `index` is the parse's error, whatever follows |
| ImageIo.LinesRunOut | src/imageio.rs:107 | when the loop runs out of lines the result is `Ok(0)` |
| ImageIo.ReadImageData | src/imageio.rs:114-186 | `read_image_data` skips `header_length` lines and stores the pixels `ReadPixelsSpec` decodes; it fails with an unsupported bit depth, or with truncated data after the last whole pixel |
| ImageIo.PixelAtEncodes | src/imageio.rs:144-169 | the pixel decoded at an offset encodes back to exactly the bytes it was read from |
| ImageIo.BigEndianBytes | src/imageio.rs:166-168 | `to_be_bytes` undoes `from_be_bytes` on every pair of bytes |
| ImageIo.ReadPixel | src/imageio.rs:137-177 | one pixel is read exactly when enough bytes remain, and it is the decoded pixel: 3 bytes at 8 bits, 3 big-endian pairs at 16 bits |
| ImageIo.Complete | src/imageio.rs:135-177 | enough pixel bytes give `pixel_count` decoded pixels and no error |
| ImageIo.Truncated | src/imageio.rs:151-155 | data that ends inside pixel `i` keeps the `i` whole pixels and fails with truncated data |
| ImageIo.WriteImage | src/imageio.rs:188-243 | the file holds the header and then each pixel encoded; with pixels and a max color other than 255 or 65535 the process exits before the writer is flushed, so the file stays empty and the result is an error |
| ImageIo.HeaderText | src/imageio.rs:210 | the header is the magic, the comment, `width height` and the max color, each followed by a newline, as `format!` writes them |
| ImageIo.EncodePixel | src/imageio.rs:218-234 | a pixel takes 3 bytes at 8 bits and 6 at 16 bits |
| ImageIo.PixelRoundTrip | src/imageio.rs:218-234 | decoding an encoded in-range pixel gives the pixel |
| ImageIo.DecodeEncode | src/imageio.rs:216-242 | the pixel data written for in-range pixels has the expected length and decodes to the same pixels |
| ImageIo.HeaderRoundTrip | src/imageio.rs:210 | the header text `write_image` formats parses back to the same magic, width, height and max color, with the result 4 when pixel bytes follow and 0 otherwise |
| ImageIo.RoundTrip | src/imageio.rs:9-243 | writing an image and reading it back gives the same header and the same pixels |
| ImageIo.HeaderOnlyFile | src/imageio.rs:107 | for "P6\n1 1\n255\n" the header parses with result 0, and the header's own bytes are then read as the pixel (80, 54, 10) |
| ImageIo.HeaderLineCount | src/imageio.rs:31-33 | the corrected line count is the number of header lines, and it agrees with `parse_header` whenever a line follows the header |
| ImageIo.HeaderOnlyTruncated | src/imageio.rs:107 | with the corrected value, a file that ends at its header fails with truncated pixel data and reads no pixel |
| Gathering.GatherPermutes | src/imageactions.rs:17-30 | reading a sequence through as many distinct positions as it has elements gives the same multiset of elements |
| ImageActions.LeftSource | src/imageactions.rs:20-27 | the source index `rotate_left` copies into each target index is inside the image |
| ImageActions.RightSource | src/imageactions.rs:52-59 | the source index `rotate_right` copies into each target index is inside the image |
| ImageActions.LeftTarget | src/imageactions.rs:20-27 | source pixel `(x, y)` lands at `(w-x-1)*h + y`, inside the buffer, and that cell copies back from `y*w + x` |
| ImageActions.RightTarget | src/imageactions.rs:52-59 | source pixel `(x, y)` lands at `x*h + (h-y-1)`, inside the buffer, and that cell copies back from `y*w + x` |
| ImageActions.CopyColumnLeft | src/imageactions.rs:18-29 | the inner loop over `y` fills exactly the `h` cells of one rotated row with `RotatedLeft` and leaves every other cell alone |
| ImageActions.CopyColumnRight | src/imageactions.rs:50-61 | the inner loop over `y` fills exactly the `h` cells of one rotated row with `RotatedRight` and leaves every other cell alone |
| ImageActions.RotateLeft | src/imageactions.rs:3-33 | `rotate_left` returns a new image with width and height swapped, the same magic and max color, and the pixels `RotatedLeft` of the original |
| ImageActions.RotateRight | src/imageactions.rs:35-65 | `rotate_right` returns a new image with width and height swapped, the same magic and max color, and the pixels `RotatedRight` of the original |
| ImageActions.LeftSourceInjective | src/imageactions.rs:20-28 | no two target cells of `rotate_left` copy the same source pixel |
| ImageActions.RightSourceInjective | src/imageactions.rs:52-60 | no two target cells of `rotate_right` copy the same source pixel |
| ImageActions.LeftThenRightIndex | src/imageactions.rs:20-27 | the index maps of rotating left and then right compose to the identity |
| ImageActions.RightThenLeftIndex | src/imageactions.rs:52-59 | the index maps of rotating right and then left compose to the identity |
| ImageActions.LeftTwiceIndex | src/imageactions.rs:20-27 | rotating left twice sends index `i` to `w*h - 1 - i` |
| ImageActions.RightTwiceIndex | src/imageactions.rs:52-59 | rotating right twice sends index `i` to `w*h - 1 - i` |
| ImageActions.LeftThenRight | src/imageactions.rs:3-65 | rotating left and then right gives back the pixels |
| ImageActions.RightThenLeft | src/imageactions.rs:3-65 | rotating right and then left gives back the pixels |
| ImageActions.LeftTwice | src/imageactions.rs:3-33 | rotating left twice reverses the pixel order, which is a half turn |
| ImageActions.RightTwice | src/imageactions.rs:35-65 | rotating right twice reverses the pixel order, which is a half turn |
| ImageActions.LeftFourTimes | src/imageactions.rs:3-33 | rotating left four times gives back the pixels |
| ImageActions.RightFourTimes | src/imageactions.rs:35-65 | rotating right four times gives back the pixels |
| ImageActions.LeftPermutes | src/imageactions.rs:14-30 | the rotated pixels are a permutation of the original, so no placeholder pixel from `Pixel::new()` survives unless it was already in the image |
| ImageActions.RightPermutes | src/imageactions.rs:46-62 | the rotated pixels are a permutation of the original, so no placeholder pixel from `Pixel::new()` survives unless it was already in the image |
| ImageFx.NegateChannel | src/imagefx.rs:13-15 | a channel within `maxc` becomes `maxc - c`; a channel above it wraps to `2^16 - (c - maxc)`; the result and the channel always sum to `maxc` modulo 2^16 |
| ImageFx.NegatePixel | src/imagefx.rs:13-15 | a pixel within range has each channel replaced by `maxc` minus it |
| ImageFx.Negative | src/imagefx.rs:4-17 | `negative` replaces every pixel, in place, by its negation and leaves the header unchanged |
| ImageFx.NegateChannelTwice | src/imagefx.rs:13-15 | negating a channel twice gives it back, for every max color |
| ImageFx.NegatedTwice | src/imagefx.rs:4-17 | applying `negative` twice restores the pixels |
| ImageFx.NegatedInRange | src/imagefx.rs:13-15 | channels within a max color that fits a u16 stay within it |
| Utils.ParseHeader | src/utils.rs:8-109 | the legacy `parse_header` leaves the header fields of `ParseHeaderSpec`, scanned as i32; a block that fails to parse ends it with that field, and running out of lines returns normally |
| Utils.ScanLine | src/utils.rs:45-51 | one line, comment or not, advances the i32 scanner as its tokens do |
| Utils.ScanBlocks | src/utils.rs:54-105 | the inner token loop advances the i32 scanner as `Run` over its blocks does |
| Utils.StoreBlock | src/utils.rs:57-104 | one arm of `match info_block` is exactly one i32 scanner `Step` |
| Utils.NegativeFieldsAccepted | src/utils.rs:64-98 | negative width, height and max color are accepted and stored as such |
| Utils.NegativeWidthRefused | src/imageio.rs:63-71 | the u32 parser refuses the same negative width, and the scan stops at the width |
| Utils.LaterLinesIgnored | src/utils.rs:32-34 | once the header lines hold four blocks or a failure, nothing after them affects the result |
| Utils.ShortHeaderKeepsFields | src/utils.rs:29-34 | a file with fewer than four blocks ends without an error unless a number failed, and every field it never reached keeps its value |

## Left out

- File handling (`File::open`, `File::create`, `BufReader`, `BufWriter`, `seek`) is out of scope. A file is its contents as a byte sequence. The `expect` panics on read, seek and write failures are not modelled.
- `process::exit(1)` and `eprintln!` are replaced by an error value that names the cause. The messages themselves are not modelled.
- `lines()` is modelled as a split at newline bytes. Its UTF-8 validation, which fails through the `Err` arm, is not modelled. Neither is its stripping of a trailing `\r`.
- Debug-build overflow panics are out of scope. The model follows release-build wrap-around, with one exception: the rotations, whose `Valid()` precondition excludes images whose `width * height` overflows a u32 (see the next line).
- ImageActions.RotateLeft: requires `Valid()`, meaning `|pixels| == width * height < 2^32`. Every way the tool builds an image keeps the pixel vector at `pixel_count()` pixels: `read_image_data` when it completes, the rotations and `negative`. The model assumes that invariant rather than following the Rust loops on images that break it. `Valid()` also excludes images whose `width * height` is 2^32 or more. `read_image_data` accepts those with the wrapped count: a header of width 65536 and height 65537 gives `pixel_count()` 65536, so 65536 pixels are read and the vector matches the wrapped count. On every such image Rust panics at src/imageactions.rs:28. Before any wrap-around the write positions take every value below `width * height`. The one equal to the wrapped count is below 2^32, so it does not wrap, and it is one past the end of the vector. In the example this happens on the first pixel, at index 65535 * 65537 = 2^32 - 1. The model does not follow that panic.
- ImageActions.RotateRight: requires `Valid()` for the same reasons as RotateLeft. This excludes the images whose vector breaks the invariant and the images whose `width * height` overflows a u32. Rust panics on the latter at src/imageactions.rs:60, for the same reason; in the example, at index 65536 on the first pixel.
- Ppm.Ppm.GetPixel: requires coordinates and dimensions in i32 and a positive dimension for a negative coordinate, since the wrapping loop would not end otherwise (see "## Findings"). It also requires an index the vector has; Rust panics on the rest. The i32 overflow of `y * width + x` is not modelled.
- `Pixel::new()` is not part of this model. The rotations take the placeholder pixel as a parameter.
- The `#[derive(Clone)]` copies and ownership moves are out of scope. Each rotation returns a freshly allocated image, as its `ensures fresh(rotated)` states.
- ImageIo.WriteImage: a `BufWriter` passes a write larger than its 8 KiB buffer straight to the file. The model does not capture that, so for a magic token of several kilobytes on the exit path it says the file is empty where part of the header would already be in it.
- `src/main.rs`, including its command-line handling and file names, is not part of this model. So is every operation outside the five files above.
- The header type with i32 fields that the legacy `parse_header` in `src/utils.rs` writes to is not shown in the source. It is modelled as the class `Utils.LegacyImage`.
- ImageIo.ReadImageData: when the pixel data ends early, the model returns the pixels read so far together with the error. The Rust process exits at that point, so nothing observes them.
- The inner `for y` loops of the rotations are separate methods, `CopyColumnLeft` and `CopyColumnRight`, with the same body.

## Findings

| source | as written | input that shows it | evidently intended | confidence | as-written member | corrected member |
|---|---|---|---|---|---|---|
| src/imageio.rs:107 | when the header ends on the file's last line, the loop ends without reaching `return index`, and `return 0` makes `read_image_data` skip no line | "P6\n1 1\n255\n": the header parses, the result is 0, and the bytes "P6\n" are read as the pixel (80, 54, 10) | return the number of header lines, so that the missing pixel data fails as truncated | not executed | ImageIo.HeaderOnlyFile | ImageIo.HeaderOnlyTruncated |
| src/ppm.rs:58-63 | `while x < 0 { x += self.width as i32; }` never ends when the width is 0, and likewise for `y` and the height | `get_pixel(-1, 0)` on the empty image `PPM::new()` builds: `x` stays -1 for ever | report that there is no such pixel, as indexing the empty vector would | not executed | Ppm.ZeroDimensionSpins | Ppm.CheckedWrap |
