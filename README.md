# T41 LCD switches: expander emulation and button image tools

This project models two parts of the T41 LCD switch panel in Dafny and proves properties about them.

**The expander emulation (`src/main.cpp`).** The ESP32 panel answers I2C register reads as a pair of MCP23017 GPIO expanders (register map with BANK = 0: GPIOA = 0x12, GPIOB = 0x13).

- A write transaction latches its first byte as the selected register and drains the rest.
- A read transaction packs the 18 on-screen buttons into four bank bytes, active low, and returns the bank the selected register names.
- The "second chip" exists only as registers 0x22 and 0x23, the first chip's registers plus 0x10.
- A toggle button is active when it is checked. A momentary button is active while it is pressed.

**The image tools (`tools/*.py`).** These scripts produce the button bitmap as an LVGL C array:

- 8-bit RGBA pixels become RGB565 words.
- The words and the alpha bytes are laid out either planar (`LV_IMG_CF_RGB565A8`: all words, then all alphas) or interleaved (three bytes per pixel).
- The bytes are printed as rows of sixteen `0x..` tokens.
- One tool scans such an array back with a regular expression and decodes it.

Modules:

- `GpioExpander` (gpio_expander.dfy). The `Responder` class holds the selected register `reg` and the bus receive buffer `rx`. Its `Receive` and `Request` methods are the two bus callbacks. `Request` keeps the source's `states[4]` array and its loop over the buttons. `Response` and `Banks` state what a read returns.
- `PixelCodec` (pixel_codec.dfy). Bytes, RGBA pixels, `clamp`, the RGB565 packing, the little-endian byte split and the per-pixel decode. It also gives the row-major order of an image.
- `CArrayText` (c_array_text.dfy). The rows-of-sixteen writer and the `re.findall` hex scan.
- `Rgb565A8` (rgb565a8.dfy). The planar layout, its two encoding loops and its decoding loop.
- `TrueColorAlpha` (true_color_alpha.dfy). The interleaved layout of the PNG rescaler.

Python integers are unbounded, and so are the model's. On the non-negative values involved, `x >> k` is `x / 2^k`, `x & (2^m - 1)` is `x % 2^m`, `x << k` is `x * 2^k`, and `|` of non-overlapping fields is `+`. The C side uses `uint8_t`, modelled as `bv8`.

## Model

| member | source | states |
|---|---|---|
| GpioExpander.Responder.constructor | src/main.cpp:85 | the selected register starts at 0 and no write is pending |
| GpioExpander.Responder.Receive | src/main.cpp:120-124 | an empty write leaves `reg` unchanged; otherwise `reg` becomes the first byte, and the drained later bytes do not affect it; the receive buffer ends empty |
| GpioExpander.EmptyWritesKeepSelection | src/main.cpp:121 | any number of writes without bytes leave the selected register where it was |
| GpioExpander.LastWriteSelects | src/main.cpp:120-124 | after a series of writes the selection is the first byte of the last write that carried any bytes |
| GpioExpander.ActiveButtons | src/main.cpp:129-136 | button i is active iff it is a toggle button and checked, or a momentary button and pressed, per the `is_toggle` table |
| GpioExpander.BitIsShift | src/main.cpp:137-141 | the mask table used for `1 << bit_idx` equals the shift for every bit index |
| GpioExpander.ClearBitAt | src/main.cpp:140 | `b & ~mask` clears bit k and keeps every other bit of b |
| GpioExpander.Banks | src/main.cpp:128-142 | after the first n buttons, bit i%8 of bank i/8 is cleared iff button i < n is active, and every other bit is set; bank 2 keeps bits 2-7 set, and bank 3 stays 0xFF |
| GpioExpander.BankBit | src/main.cpp:128-142 | bit k of bank j is cleared iff button 8j+k exists, has been visited, and is active |
| GpioExpander.BankReports | src/main.cpp:128-142 | once all 18 buttons are visited, bank j reports buttons 8j to 8j+7, active low, with bits of non-existent buttons set |
| GpioExpander.SecondChipHighBits | src/main.cpp:146 | a byte reporting buttons 16 onwards has bits 2-7 set whatever the button states |
| GpioExpander.Response | src/main.cpp:143-147 | register 0x12 reports buttons 0-7, 0x13 buttons 8-15, 0x22 buttons 16-17 (other bits set), 0x23 gives 0xFF, and every other register gives 0xFF |
| GpioExpander.Responder.Request | src/main.cpp:126-150 | the byte returned is `Response` of the selected register and the active buttons; every `states[i / 8]` access is in bounds; nothing in the responder changes |
| GpioExpander.RepeatedRead | src/main.cpp:126-150 | two reads with no write between and the same button states return the same byte |
| PixelCodec.Clamp | tools/gen_button.py:11-12 | for lo <= hi the result lies in [lo, hi]; it is v when v is in range, lo below, and hi above; for hi < lo it is lo, as `max(lo, min(hi, v))` gives |
| PixelCodec.Rgb888ToRgb565 | tools/gen_button.py:99-104 | the word is below 65536, and its bits 11-15, 5-10 and 0-4 are the masked r>>3, g>>2 and b>>3 |
| PixelCodec.Rgb565Fields | tools/gen_button.py:101-104 | for 8-bit channels the masks drop nothing: the three fields are exactly r>>3, g>>2, b>>3 |
| PixelCodec.Word | tools/rescale_from_c.py:36 | `lo \| (hi << 8)` is a 16-bit word whose low and high bytes are lo and hi |
| PixelCodec.WordOfBytes | tools/gen_button.py:113-116 | the two bytes written for a word join back to that word |
| PixelCodec.DecodePixel | tools/rescale_from_c.py:36-40 | decoded r and b are multiples of 8 up to 248, g is a multiple of 4 up to 252, and alpha is the stored byte |
| PixelCodec.DecodeThenEncode | tools/rescale_from_c.py:37-39 | re-encoding the decoded channels gives back the stored word, for every 16-bit word |
| PixelCodec.EncodeThenDecode | tools/rescale_from_c.py:56-59 | encoding a pixel and decoding the word keeps each channel's top bits and the alpha |
| PixelCodec.QuantiseDecoded | tools/rescale_from_c.py:37-39 | a decoded pixel has no low bits that encoding would drop |
| PixelCodec.FlattenAt | tools/rescale_button.py:16-17 | the nested `for y` / `for x` loops visit width*height pixels, and pixel (x, y) is at index y*width+x |
| PixelCodec.FlattenLength | tools/rescale_button.py:16-17 | a width x height image has width*height pixels |
| CArrayText.HexDigit | tools/gen_button.py:133 | each digit is lower case, and the scan reads it back as its value |
| CArrayText.HexValue | tools/rescale_from_c.py:23 | `int(h, 16)` of one hex digit, either case, is below 16; its exact value for each case is stated by `HexValueInverse` |
| CArrayText.HexValueInverse | tools/rescale_from_c.py:22-23 | the value read from a digit is the value the writer's lower-case digit for it stands for: a decimal or lower-case digit is exactly `HexDigit` of its value, and a capital 'A'-'F' is the capital of that digit, so either case reads as the same number |
| CArrayText.ParseHex | tools/rescale_from_c.py:22-23 | `re.findall(r'0x([0-9a-fA-F]{2})', text)` with `int(h, 16)` on each match, as a left-to-right scan that resumes after each match; every match uses four characters, so at most a quarter of the text's length in bytes comes out; `TokenThenRest`, `NoMatch`, `ParseSplit` and `BodyThenRest` characterise it |
| CArrayText.WriteRows | tools/gen_button.py:131-135 | the rows written are `ArrayBody(data)`, and scanning them gives `data` back (the same loop is at tools/rescale_from_c.py:74-78 and tools/rescale_button.py:38-42) |
| CArrayText.ArrayBodyFrom | tools/gen_button.py:131-135 | from byte i on, the text is one row of bytes i..min(i+16, n) (comma-terminated unless i+16 >= n), then the rows after it |
| CArrayText.TokenThenRest | tools/rescale_from_c.py:22-23 | a `0x` token of byte b is scanned as exactly b, and the scan resumes after it |
| CArrayText.NoZeroPrefix | tools/rescale_from_c.py:22 | text without a '0' contributes no byte and cannot start a match |
| CArrayText.JoinThenRest | tools/rescale_from_c.py:22-23 | the `', '.join` of a chunk's tokens scans as the chunk, in order |
| CArrayText.RowThenRest | tools/rescale_from_c.py:22-23 | one written row, with or without its comma, scans as its chunk |
| CArrayText.BodyThenRest | tools/rescale_from_c.py:22-23 | all rows scan as the bytes they were written from, whatever text follows |
| CArrayText.ParseArrayBody | tools/rescale_from_c.py:22-23 | scanning the rows written for `data` gives `data` |
| CArrayText.ParseSplit | tools/rescale_from_c.py:22 | no match spans a boundary followed by a character that is neither 'x' nor a hex digit, so the two sides scan separately |
| CArrayText.ParseCFile | tools/rescale_from_c.py:18-23 | scanning a whole file gives the matches of the text before the array, then the array's bytes, then the matches after it |
| CArrayText.NoMatch | tools/rescale_from_c.py:22 | text in which no '0' is followed by a lower-case 'x' yields no byte |
| CArrayText.FileReadsBack | tools/gen_button.py:123-146 | a file whose fixed text before and after the rows has no '0' followed by 'x' scans as exactly the bytes of its rows |
| Rgb565A8.ColourPlaneAt | tools/gen_button.py:112-116 | the colour plane has 2n bytes, and bytes 2k and 2k+1 are the low and high bytes of pixel k's word |
| Rgb565A8.AlphaPlaneAt | tools/gen_button.py:117 | the alpha plane has n bytes, and byte k is pixel k's alpha |
| Rgb565A8.PlanarAt | tools/gen_button.py:110-119 | n pixels give 3n bytes: pixel k's word at 2k (low) and 2k+1 (high), and its alpha at 2n+k |
| Rgb565A8.PlanarLength | tools/gen_button.py:119 | `rgb_data + alpha_data` has 3n bytes |
| Rgb565A8.EncodePixels | tools/gen_button.py:110-119 | the loop builds the planar layout of the pixels: length 3n, with each pixel's word bytes and alpha at their offsets |
| Rgb565A8.EncodeImage | tools/rescale_from_c.py:51-64 | the nested loops build the planar layout of the image's pixels in row-major order, 3*width*height bytes |
| Rgb565A8.PlanarImageAt | tools/rescale_from_c.py:53-62 | pixel (x, y) is pixel y*width+x of the planar output: its word bytes at twice that index, and its alpha at 2*width*height plus it |
| Rgb565A8.DecodeImage | tools/rescale_from_c.py:27-41 | the decoder fails with an IndexError iff the data has fewer than 3n bytes, at an index in [len, 3n); otherwise pixel i comes from bytes 2i, 2i+1 and 2n+i |
| Rgb565A8.ReencodePixel | tools/rescale_from_c.py:33-40 | re-encoding decoded pixel k puts back bytes 2k, 2k+1 and 2n+k |
| Rgb565A8.ReencodeDecoded | tools/rescale_from_c.py:33-64 | decoding n pixels and re-encoding them at the same size reproduces the first 3n bytes exactly |
| Rgb565A8.DecodeEncoded | tools/rescale_from_c.py:33-41 | decoding an encoding gives each pixel with only its RGB565 bits kept, and its alpha |
| Rgb565A8.ArrayReadsBack | tools/rescale_from_c.py:22-41 | an array the generator writes, scanned and decoded, gives the generator's pixels quantised |
| TrueColorAlpha.InterleaveLength | tools/rescale_button.py:14-25 | n pixels give 3n bytes |
| TrueColorAlpha.InterleaveAt | tools/rescale_button.py:18-25 | pixel k's low byte, high byte and alpha are bytes 3k, 3k+1 and 3k+2 |
| TrueColorAlpha.EncodeImage | tools/rescale_button.py:14-25 | the nested loops build the interleaved layout of the image's pixels in row-major order, 3*width*height bytes |
| TrueColorAlpha.InterleavedImageAt | tools/rescale_button.py:16-25 | pixel (x, y) occupies bytes 3(y*width+x), +1 and +2: its low byte, high byte and alpha |
| TrueColorAlpha.MatchesPlanar | tools/rescale_button.py:22-25 | interleaved bytes 3k, 3k+1, 3k+2 are planar bytes 2k, 2k+1, 2n+k |
| TrueColorAlpha.SameBytesAsPlanar | tools/rescale_button.py:14-25 | the interleaved and planar layouts hold the same multiset of bytes |

## Left out

- The Arduino `Wire` transport, the interrupt-time wiring of the two callbacks and the commented-out bus registration. These are foreign calls. A write arrives as a `seq<bv8>`, and the returned byte is the method's result.
- Concurrency between the bus callbacks and the LVGL loop. Each callback is modelled as one atomic step.
- The LVGL GUI, `setup`, `loop`, `btn_event_cb`, `detect_chip` and logging. The CHECKED and PRESSED queries are two boolean sequences given to `Request`.
- A second bus address. The second chip exists only as the 0x10 register offset, as in the source.
- `make_button`. It computes shading in floating point.
- The Pillow calls: `open`, `resize` with LANCZOS, `putdata` and `getpixel`. The resized image is an input `seq<seq<Rgba>>` with `img[y][x]` the pixel `getpixel((x, y))` returns.
- The fixed image sizes (106x40, 116x68). `width` and `height` are parameters.
- PixelCodec.Clamp: models `clamp` on an integer only. The `int(v)` truncation of a float argument is floating point.
- File and path handling and `print`. The fixed header and footer text of the generated `.c` and `.h` files is not modelled as literal text. `ParseCFile` and `FileReadsBack` state what a scan of the whole file gives, for any text around the array.
- GpioExpander.Responder.Receive: the `Wire.available()` / `Wire.read()` drain is modelled as emptying the `rx` buffer field.
- Rgb565A8.DecodeImage: Python's IndexError is the `IndexError(index)` result, with the index of the first read past the end. The exception's message is not modelled.

## Notes

- The hex scan reads every `0x` followed by two hex digits in the whole file, not only inside the array. `ParseCFile` states what the scan of a whole file gives. `FileReadsBack` adds the case where the text around the array holds no "0" followed by "x": then the scan gives exactly the array.
- The fixed text the three tools write around the array is of that kind. See tools/gen_button.py:124-128 and 137-146, tools/rescale_from_c.py:69-73 and 79-88, and tools/rescale_button.py:30-37 and 44-52. No "0" in it is followed by an "x" or an "X": in the name `button_4_106x40` the "x" follows a "6". This is read off those lines and is not proved about their literal text. The rescaler itself reads a reference file whose text is not part of this model.
