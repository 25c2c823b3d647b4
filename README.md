# vulkan-without-abstractions: the readback logic, modelled in Dafny

The program renders one 100 by 100 image with Vulkan (clear to a fixed colour,
copy to a buffer), maps the buffer's memory and writes it as a plain PPM ("P3")
file. Almost all of `src/main.rs` is a straight sequence of driver calls. This
project models the four pieces of logic embedded in it, and proves what they
promise:

- **Buffer memory-type selection** (`MemoryTypes.SelectHostVisibleMemoryType`):
  the first entry of the memory-type table whose property flags contain both
  `DEVICE_LOCAL` and `HOST_VISIBLE`, or an abort when there is none.
- **Image memory-type selection** (`MemoryTypes.SelectImageMemoryType`): the
  lowest set bit (`trailing_zeros`) of the image's `memory_type_bits` mask,
  after an abort on an empty mask.
- **Allocation sizing** (`Readback.AllocationSize`): `width * height * 4` bytes
  in `u64`. The buffer and the mapped slice have exactly this size.
- **The P3 writer** (`Ppm.WritePpm`): the header `P3 <width> <height> 255`, then
  for each 4-byte chunk of the mapped slice ` R G B` in decimal, alpha dropped,
  no trailing newline. It is a loop that appends to the output, proved equal to
  the specification `Ppm.PpmText`.

`Readback.Run` chains the four in the program's order. The results of the
device calls are its parameters: the memory-type table, the image's
memory-type mask and the bytes of the mapped allocation.

The writer's partner is a reader, `PpmDecode.DecodePpm`. It is not part of the
program. It splits the text at spaces, parses canonical decimal numerals and
groups them into pixels. `PpmDecode.RoundTrip` proves that reading the written
text back gives the dimensions, the maximum value 255 and the red, green and
blue bytes of every chunk, in order. So the text carries exactly those values.

Modelling choices:

- Property flags are `bv32` and `contains` is `flags & other == other`, as in
  `ash`. `DEVICE_LOCAL` is `0x1` and `HOST_VISIBLE` is `0x2`.
- The `u32` mask given to `trailing_zeros` is a number below 2^32. Bit `k` is
  the remainder modulo 2 after `k` halvings.
- Bytes of the mapped memory are numbers below 256. Text is `seq<char>`.
- A panic (`unwrap` of `None`, a failed `assert_ne!`, an index past the end of a
  chunk, an overflowing multiplication) is `None` or `Readback.Aborted`.

## Model

| member | source | states |
|---|---|---|
| `MemoryTypes.HostReadableIff` | src/main.rs:56-58 | flags containing the union of `DEVICE_LOCAL` and `HOST_VISIBLE` contain each of the two |
| `MemoryTypes.PositionFrom` | src/main.rs:52-59 | `position` from a start index: the first qualifying index at or after it, with no qualifying index between; `None` exactly when none qualifies |
| `MemoryTypes.SelectHostVisibleMemoryType` | src/main.rs:51-60 | the result indexes a device-local, host-visible type and no lower index qualifies; `None` (the `unwrap` aborts) exactly when no type qualifies |
| `MemoryTypes.TrailingZerosFrom` | src/main.rs:128 | the scan for the lowest set bit: that bit is set, every bit below it is clear, and it returns 32 exactly for the empty mask |
| `MemoryTypes.TrailingZeros` | src/main.rs:128 | `u32::trailing_zeros`: at most 32, 32 exactly for 0, otherwise the position of a set bit with all lower bits clear |
| `MemoryTypes.SelectImageMemoryType` | src/main.rs:126-128 | aborts exactly when the mask is 0; otherwise an index below 32 whose bit is set, with all lower bits clear |
| `MemoryTypes.LowestBitValue` | src/main.rs:128 | a set bit with all lower bits clear is the lowest set bit in the arithmetic sense: the mask modulo 2^(k+1) is 2^k |
| `MemoryTypes.ImageMemoryTypeIsLowestBit` | src/main.rs:128 | the selected image memory type `k` satisfies mask mod 2^(k+1) = 2^k, the value that isolating the lowest set bit gives |
| `Readback.AllocationSize` | src/main.rs:62-64 | panics exactly when `width * height * 4` exceeds `u64`; otherwise the size is a multiple of 4 holding exactly `width * height` four-byte pixels |
| `Readback.DemoAllocationSize` | src/main.rs:62-64 | the 100 by 100 image needs 40000 bytes |
| `Readback.DemoHeader` | src/main.rs:248 | the header written for the 100 by 100 image is `P3 100 100 255` |
| `Readback.Run` | src/main.rs:51-251 | aborts with `NoHostVisibleMemoryType` exactly when no type qualifies, otherwise with `AllocationSizeOverflow` exactly when `width * height * 4` overflows `u64`, otherwise with `EmptyImageMemoryTypeBits` exactly when the image mask is 0 (the order of the program), and in no other case among the modelled checks; otherwise the lowest qualifying buffer type, the lowest image bit, buffer size and mapped length both `width * height * 4`, and a text that reads back as a `width` by `height` image of exactly `width * height` pixels, pixel p being bytes 4p, 4p+1 and 4p+2 |
| `Ppm.Chunks` | src/main.rs:249 | `chunks(4)` yields ceil(len / 4) chunks |
| `Ppm.ChunkAt` | src/main.rs:249 | chunk k is the bytes from 4k up to 4k+4 or the end of the slice, whichever comes first |
| `Ppm.WholePixels` | src/main.rs:249-250 | for a length that is a multiple of 4 (as the allocation size always is) there are len / 4 chunks, each exactly 4 bytes from 4k, so `rgba[0]`, `rgba[1]`, `rgba[2]` are in bounds |
| `Ppm.ChunksIndexableIff` | src/main.rs:249-250 | the loop's indexing stays in bounds exactly when the length is 0 or 3 modulo 4 |
| `Ppm.WritePpm` | src/main.rs:247-251 | the loop writes the header, then each chunk's triple in order; the result is `PpmText`, and `None` where a short chunk makes it panic |
| `Ppm.BodySnoc` | src/main.rs:249-250 | one more chunk appends exactly its triple to what the loop wrote |
| `Ppm.ChannelTokensLength` | src/main.rs:250 | the loop writes exactly three values per chunk |
| `Ppm.ChannelTokenAt` | src/main.rs:250 | value 3k+j is the decimal form of byte j of chunk k |
| `Ppm.LayoutFrom` | src/main.rs:249-250 | after any space-joined prefix, appending the triples of the chunks equals joining the prefix tokens followed by the channel values |
| `Ppm.Layout` | src/main.rs:248-250 | header plus triples is the tokens `P3`, width, height, `255` and the channel values, separated by single spaces, with nothing before the first or after the last |
| `Ppm.AlphaIgnored` | src/main.rs:249-250 | slices that differ only in bytes 4k+3 (alpha) give the same output, or both panic |
| `Decimal.Dec` | src/main.rs:250 | `Display` for integers: a canonical numeral (digits only, no leading zero) denoting the number, starting with `0` only for 0 |
| `Decimal.DecLength` | src/main.rs:250 | a number has 1 digit exactly below 10, at most 2 exactly below 100 and at most 3 exactly below 1000 |
| `Decimal.ByteNumeral` | src/main.rs:250 | a byte is written with one to three digits |
| `Decimal.ParseDec` | src/main.rs:250 | parsing a written number gives it back |
| `Decimal.DecOfParse` | src/main.rs:250 | every canonical numeral is the rendering of the value it denotes, so rendering is a bijection onto canonical numerals |
| `PpmDecode.SplitJoin` | src/main.rs:248-250 | splitting space-separated tokens without spaces gives the tokens back |
| `PpmDecode.DecodeChannelTokens` | src/main.rs:250 | the channel values read back three at a time are the colours of the chunks, in order |
| `PpmDecode.TokensNoSpace` | src/main.rs:248-250 | no token of the written text, header or channel value, contains a space |
| `PpmDecode.RoundTrip` | src/main.rs:247-251 | the written text reads back as the given width and height, maximum 255, and the colour of every chunk in chunk order |
| `PpmDecode.RoundTripPixels` | src/main.rs:249-250 | for whole pixels the text holds exactly len / 4 pixels, pixel k being bytes 4k, 4k+1 and 4k+2 |

## Left out

- All `ash` and Vulkan calls: loading the entry point, creating the instance and the device, getting the queue, command pool and command buffer, creating and binding the buffer, image and image view (src/main.rs:6-46, 66-153). They are foreign calls whose behaviour the program does not define. `Readback.Run` assumes each of them succeeds, and that at least one physical device is listed. The aborts their `unwrap`s cause are not modelled, and neither are those of lines 218, 225, 233, 237 (the 1-second fence timeout) and 242. Nor is the driver's rejection of a zero-sized allocation, buffer or image extent, so `Readback.Run` writes `P3 0 0 255` for width 0. Only the memory-type table (line 51), the image's `memory_type_bits` (line 126) and the mapped bytes (line 244) are parameters.
- Command recording, the two barriers, dynamic rendering, the image-to-buffer copy, submission and the 1-second fence wait (src/main.rs:156-237). They run on the device, and their ordering is the driver's. The bytes they leave in the buffer are the `memory` parameter.
- The clear colour `[0.1, 0.1, 0.2, 1.0]` and its 8-bit quantization (src/main.rs:183). This is floating-point conversion done by the device.
- `map_memory` and `from_raw_parts` (src/main.rs:240-244). They are unsafe pointer work, replaced by the given byte sequence of the allocation's size. There is no flush or invalidate before the read, and the chosen memory type need not be host-coherent. The model assumes the bytes are the device's final ones.
- File creation and `BufWriter` I/O (src/main.rs:247-251). The output is a returned string. Failures to create or write the file, and the partial output left behind by a panic, are not modelled.
- `vk::make_api_version` (src/main.rs:9). It is a library call with no logic here.
- `Readback.AllocationSize`: models a debug build, where `u64` overflow panics. A release build would wrap around instead. Neither matters for 100 by 100.
- The `as u32` conversions of the memory-type index and of `width` and `height` for the image extent (src/main.rs:70, 105-106, 187-188) are not modelled. The index is below the table length, which Vulkan caps at 32.
- `MemoryTypes.SelectHostVisibleMemoryType`: takes the table as the slice `memory_types_as_slice` returns. Cutting the fixed array down to `memory_type_count` is done inside `ash` and is not modelled.
