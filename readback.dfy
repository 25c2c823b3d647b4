/** The CPU-side logic of one render-and-readback: choosing the buffer's and the
    image's memory types, sizing the allocation, and writing the mapped pixels as
    a plain PPM text. The device calls in between are not modelled; their results
    enter as parameters. */
module Readback {
  import opened Wrappers
  import opened MemoryTypes
  import opened Decimal
  import opened Ppm
  import opened PpmDecode

  const WIDTH: nat := 100
  const HEIGHT: nat := 100
  const U64_MAX: nat := 0xFFFF_FFFF_FFFF_FFFF

  /** `u64`, the type of the dimensions and of `VkDeviceSize`. */
  type U64 = n: nat | n <= U64_MAX

  /** `width * height * 4` in `u64`, with the overflow checks of a debug build:
      either multiplication overflowing panics (`None`). */
  function AllocationSize(width: U64, height: U64): (r: Option<U64>)
    ensures r.None? <==> width * height * 4 > U64_MAX
    ensures r.Some? ==> r.value % 4 == 0 && r.value / 4 == width * height
  {
    if width * height > U64_MAX then None
    else if width * height * 4 > U64_MAX then None
    else Some(width * height * 4)
  }

  /** The 100 by 100 image the program renders needs 40000 bytes. */
  lemma DemoAllocationSize()
    ensures AllocationSize(WIDTH, HEIGHT) == Some(40000)
  {
  }

  /** The header of the 100 by 100 image. */
  lemma DemoHeader()
    ensures Header(WIDTH, HEIGHT) == "P3 100 100 255"
  {
    var s := "100";
    assert s[..2] == "10" && "10"[..1] == "1" && "1"[..0] == "";
    assert IsCanonical(s) && DigitsValue(s) == 100;
    DecOfParse(s);
  }

  /** Why the program stops early; every one of them aborts the process. */
  datatype Failure =
    | NoHostVisibleMemoryType      // `position(..).unwrap()` on `None`
    | AllocationSizeOverflow       // `width * height * 4` overflows `u64`
    | EmptyImageMemoryTypeBits     // `assert_ne!(memory_type_bits, 0)` fails

  datatype Outcome =
    | Aborted(failure: Failure)
    | Written(bufferMemoryType: nat, imageMemoryType: nat,
              bufferSize: nat, mappedLength: nat, ppm: string)

  /** The readback path of the program for a `width` by `height` image:
      `memoryTypes` is the device's memory-type table, `imageMemoryTypeBits` the
      mask of the image's memory requirements, and `memory` the content of the
      buffer's allocation once the fence has signalled. */
  method Run(width: U64, height: U64, memoryTypes: seq<MemoryType>,
             imageMemoryTypeBits: U32, memory: seq<Byte>) returns (outcome: Outcome)
    requires width * height * 4 <= U64_MAX ==> |memory| == width * height * 4
    ensures outcome == Aborted(NoHostVisibleMemoryType) <==>
              forall j :: 0 <= j < |memoryTypes| ==> !HostReadable(memoryTypes[j])
    ensures outcome == Aborted(AllocationSizeOverflow) <==>
              (exists j :: 0 <= j < |memoryTypes| && HostReadable(memoryTypes[j])) &&
              width * height * 4 > U64_MAX
    ensures outcome == Aborted(EmptyImageMemoryTypeBits) <==>
              (exists j :: 0 <= j < |memoryTypes| && HostReadable(memoryTypes[j])) &&
              width * height * 4 <= U64_MAX && imageMemoryTypeBits == 0
    ensures outcome.Written? <==>
              (exists j :: 0 <= j < |memoryTypes| && HostReadable(memoryTypes[j])) &&
              width * height * 4 <= U64_MAX && imageMemoryTypeBits != 0
    ensures outcome.Written? ==>
              var i := outcome.bufferMemoryType;
              i < |memoryTypes| && HostReadable(memoryTypes[i]) &&
              forall j :: 0 <= j < i ==> !HostReadable(memoryTypes[j])
    ensures outcome.Written? ==>
              var k := outcome.imageMemoryType;
              k < 32 && Bit(imageMemoryTypeBits, k) &&
              forall j :: 0 <= j < k ==> !Bit(imageMemoryTypeBits, j)
    ensures outcome.Written? ==>
              outcome.bufferSize == outcome.mappedLength == width * height * 4
    ensures outcome.Written? ==>
              Some(outcome.ppm) == PpmText(width, height, memory) &&
              var image := DecodePpm(outcome.ppm);
              image.Some? && image.value.width == width && image.value.height == height &&
              |image.value.pixels| == width * height &&
              forall p :: 0 <= p < width * height ==>
                image.value.pixels[p] == Rgb(memory[4 * p], memory[4 * p + 1], memory[4 * p + 2])
  {
    var hostVisible := SelectHostVisibleMemoryType(memoryTypes);
    if hostVisible.None? {
      return Aborted(NoHostVisibleMemoryType);
    }
    var allocationSize := AllocationSize(width, height);
    if allocationSize.None? {
      return Aborted(AllocationSizeOverflow);
    }
    var size := allocationSize.value;
    var bufferSize := size;
    var imageType := SelectImageMemoryType(imageMemoryTypeBits);
    if imageType.None? {
      return Aborted(EmptyImageMemoryTypeBits);
    }
    var slice := memory[..size];
    assert slice == memory;
    RoundTripPixels(width, height, slice);
    var text := WritePpm(width, height, slice);
    outcome := Written(hostVisible.value, imageType.value, bufferSize, |slice|, text.value);
  }
}
