/**
 * Staging of glTF images for upload (renderer.cpp:232-294): every image row is
 * copied with `memcpy` into a mapped upload buffer, which `CopyTextureRegion` then
 * reads with the placed footprint that `GetCopyableFootprints` reported.
 */
module TextureUpload {

  import opened Alignment

  newtype byte = x: int | 0 <= x < 256

  /**
   * `memcpy(dst + dstOffset, src + srcOffset, count)`: `count` bytes of `src` from
   * `srcOffset` on overwrite `dst` from `dstOffset` on, and nothing else changes.
   */
  method Memcpy(dst: array<byte>, dstOffset: nat, src: seq<byte>, srcOffset: nat, count: nat)
    requires dstOffset + count <= dst.Length && srcOffset + count <= |src|
    modifies dst
    ensures forall k :: 0 <= k < dst.Length ==>
      dst[k] == if dstOffset <= k < dstOffset + count then src[srcOffset + (k - dstOffset)] else old(dst[k])
  {
    var j := 0;
    while j < count
      invariant 0 <= j <= count
      invariant forall k :: 0 <= k < dst.Length ==>
        dst[k] == if dstOffset <= k < dstOffset + j then src[srcOffset + (k - dstOffset)] else old(dst[k])
    {
      dst[dstOffset + j] := src[srcOffset + j];
      j := j + 1;
    }
  }

  /** Where row `r` starts in a buffer whose rows are `stride` bytes apart: `stride * r`,
      accumulated row by row so that offsets stay linear. */
  function RowStart(stride: nat, r: nat): nat {
    if r == 0 then 0 else RowStart(stride, r - 1) + stride
  }

  lemma {:induction false} RowStartIsProduct(stride: nat, r: nat)
    ensures RowStart(stride, r) == stride * r
  {
    if r > 0 {
      RowStartIsProduct(stride, r - 1);
      assert stride * r == stride * (r - 1) + stride;
    }
  }

  lemma {:induction false} RowStartMonotone(stride: nat, r: nat, later: nat)
    requires r <= later
    ensures RowStart(stride, r) <= RowStart(stride, later)
    decreases later
  {
    if r < later {
      RowStartMonotone(stride, r, later - 1);
    }
  }

  /** A narrower row gives an earlier start, row for row. */
  lemma {:induction false} RowStartNarrower(narrow: nat, wide: nat, r: nat)
    requires narrow <= wide
    ensures RowStart(narrow, r) <= RowStart(wide, r)
  {
    if r > 0 {
      RowStartNarrower(narrow, wide, r - 1);
    }
  }

  /** `rows` rows of `rowBytes` bytes, `stride` bytes apart, fit in `size` bytes. */
  predicate FitsRows(size: nat, rows: nat, rowBytes: nat, stride: nat) {
    rows == 0 || RowStart(stride, rows - 1) + rowBytes <= size
  }

  lemma FitsFewerRows(size: nat, rows: nat, fewer: nat, rowBytes: nat, stride: nat)
    requires FitsRows(size, rows, rowBytes, stride) && fewer <= rows
    ensures FitsRows(size, fewer, rowBytes, stride)
  {
    if fewer > 0 {
      RowStartMonotone(stride, fewer - 1, rows - 1);
    }
  }

  /**
   * Byte `k` of the staging buffer `s` after the row loop (renderer.cpp:280-282) has
   * copied `rows` rows of `rowBytes` bytes, packed in `image`, to rows `stride` bytes
   * apart: the last row written over `k` decides it, and the old byte stays otherwise.
   */
  function StagedAt(s: seq<byte>, image: seq<byte>, rows: nat, rowBytes: nat, stride: nat, k: nat): byte
    requires k < |s| && RowStart(rowBytes, rows) <= |image|
    decreases rows
  {
    if rows == 0 then s[k]
    else if RowStart(stride, rows - 1) <= k < RowStart(stride, rows - 1) + rowBytes then
      image[RowStart(rowBytes, rows - 1) + (k - RowStart(stride, rows - 1))]
    else StagedAt(s, image, rows - 1, rowBytes, stride, k)
  }

  /** The whole staging buffer after the row loop. */
  function Staged(s: seq<byte>, image: seq<byte>, rows: nat, rowBytes: nat, stride: nat): (r: seq<byte>)
    requires RowStart(rowBytes, rows) <= |image|
    ensures |r| == |s|
  {
    seq(|s|, k requires 0 <= k < |s| => StagedAt(s, image, rows, rowBytes, stride, k))
  }

  /**
   * The row loop of the image upload (renderer.cpp:280-282), on the mapped staging
   * buffer: row `r` of `rowBytes` bytes goes from `image` offset `rowBytes * r` to
   * staging offset `stride * r`.
   */
  method CopyRows(staging: array<byte>, image: seq<byte>, rowCount: nat, rowBytes: nat, stride: nat)
    requires FitsRows(staging.Length, rowCount, rowBytes, stride) && RowStart(rowBytes, rowCount) <= |image|
    modifies staging
    ensures staging[..] == Staged(old(staging[..]), image, rowCount, rowBytes, stride)
  {
    var rowIndex: nat := 0;
    while rowIndex < rowCount
      invariant rowIndex <= rowCount
      invariant RowStart(rowBytes, rowIndex) <= |image|
      invariant forall k :: 0 <= k < staging.Length ==>
        staging[k] == StagedAt(old(staging[..]), image, rowIndex, rowBytes, stride, k)
    {
      FitsFewerRows(staging.Length, rowCount, rowIndex + 1, rowBytes, stride);
      RowStartMonotone(rowBytes, rowIndex + 1, rowCount);
      Memcpy(staging, RowStart(stride, rowIndex), image, RowStart(rowBytes, rowIndex), rowBytes);
      rowIndex := rowIndex + 1;
    }
  }

  /** Every byte of every copied row lands `stride * r` bytes into the staging buffer,
      as long as rows do not overlap. */
  lemma {:induction false} StagedRowReadback(s: seq<byte>, image: seq<byte>, rows: nat, rowBytes: nat, stride: nat, r: nat, j: nat)
    requires rowBytes <= stride
    requires FitsRows(|s|, rows, rowBytes, stride) && RowStart(rowBytes, rows) <= |image|
    requires r < rows && j < rowBytes
    ensures RowStart(stride, r) + j < |s| && RowStart(rowBytes, r) + j < |image|
    ensures StagedAt(s, image, rows, rowBytes, stride, RowStart(stride, r) + j) == image[RowStart(rowBytes, r) + j]
    decreases rows
  {
    FitsFewerRows(|s|, rows, r + 1, rowBytes, stride);
    RowStartMonotone(rowBytes, r + 1, rows);
    if r < rows - 1 {
      RowStartMonotone(stride, r + 1, rows - 1);
      RowStartMonotone(rowBytes, rows - 1, rows);
      StagedRowReadback(s, image, rows - 1, rowBytes, stride, r, j);
    }
  }

  /** A byte outside every row keeps its old value. */
  lemma {:induction false} StagedOutsideRows(s: seq<byte>, image: seq<byte>, rows: nat, rowBytes: nat, stride: nat, k: nat)
    requires RowStart(rowBytes, rows) <= |image|
    requires k < |s|
    requires forall r :: 0 <= r < rows ==> k < RowStart(stride, r) || RowStart(stride, r) + rowBytes <= k
    ensures StagedAt(s, image, rows, rowBytes, stride, k) == s[k]
    decreases rows
  {
    if rows > 0 {
      RowStartMonotone(rowBytes, rows - 1, rows);
      StagedOutsideRows(s, image, rows - 1, rowBytes, stride, k);
    }
  }

  // ---------------------------------------------------------------------------
  // Footprints

  /** D3D12_TEXTURE_DATA_PITCH_ALIGNMENT */
  const TexturePitchAlignment: nat := 256

  /** Bytes per texel of DXGI_FORMAT_R8G8B8A8_UNORM, the format every texture is created with. */
  const BytesPerTexel: nat := 4

  /** What `GetCopyableFootprints` reports for one subresource: the placed
      footprint's row pitch, the row count, the unpadded row size and the total size. */
  datatype Footprint = Footprint(rowPitch: nat, rowCount: nat, rowSize: nat, totalBytes: nat)

  /**
   * The constraints a footprint `GetCopyableFootprints` reports for a `width` by
   * `height` R8G8B8A8 texture satisfies: one row per texel row, rows of
   * `4 * width` bytes, a pitch that is a multiple of 256 no smaller than a row,
   * and room for every row at that pitch.
   */
  ghost predicate ValidFootprint(fp: Footprint, width: nat, height: nat) {
    && fp.rowCount == height
    && fp.rowSize == BytesPerTexel * width
    && fp.rowSize <= fp.rowPitch
    && IsMultipleOf(fp.rowPitch, TexturePitchAlignment)
    && FitsRows(fp.totalBytes, height, fp.rowSize, fp.rowPitch)
  }

  /** The row `r` that `CopyTextureRegion` reads from a staging buffer laid out by `fp`. */
  function ReadRow(staging: seq<byte>, fp: Footprint, r: nat): (row: seq<byte>)
    requires RowStart(fp.rowPitch, r) + fp.rowSize <= |staging|
    ensures |row| == fp.rowSize
    ensures forall j :: 0 <= j < fp.rowSize ==> row[j] == staging[RowStart(fp.rowPitch, r) + j]
  {
    staging[RowStart(fp.rowPitch, r)..RowStart(fp.rowPitch, r) + fp.rowSize]
  }

  /** A glTF image as tinygltf decodes it: `component` bytes per texel, rows packed. */
  datatype Image = Image(width: nat, height: nat, component: nat, data: seq<byte>)

  /** An image the row loop can copy into an R8G8B8A8 footprint: at most four
      bytes per texel and enough bytes for every row. */
  predicate WellFormedImage(image: Image) {
    image.component <= BytesPerTexel && image.width * image.component * image.height <= |image.data|
  }

  /** With at most four bytes per texel, the rows the loop writes fit in the staging
      buffer at stride `rowSize` and at stride `rowPitch` alike. */
  lemma ImageRowsFit(image: Image, fp: Footprint)
    requires WellFormedImage(image) && ValidFootprint(fp, image.width, image.height)
    ensures image.width * image.component <= fp.rowSize
    ensures RowStart(image.width * image.component, fp.rowCount) <= |image.data|
    ensures FitsRows(fp.totalBytes, fp.rowCount, image.width * image.component, fp.rowSize)
    ensures FitsRows(fp.totalBytes, fp.rowCount, image.width * image.component, fp.rowPitch)
  {
    MulMonotone(image.width, image.component, BytesPerTexel);
    RowStartIsProduct(image.width * image.component, image.height);
    if fp.rowCount > 0 {
      RowStartNarrower(fp.rowSize, fp.rowPitch, fp.rowCount - 1);
    }
  }

  /** A freshly created upload buffer of `n` bytes, all zero. */
  function Zeroed(n: nat): (z: seq<byte>)
    ensures |z| == n
  {
    seq(n, _ => 0)
  }

  /** The staging buffer the image loop fills, as written: a zeroed upload buffer of
      `totalBytes` bytes whose rows are `rowSize` bytes apart (renderer.cpp:262-282). */
  function StageImage(image: Image, fp: Footprint): (staging: seq<byte>)
    requires WellFormedImage(image) && ValidFootprint(fp, image.width, image.height)
    ensures |staging| == fp.totalBytes
  {
    ImageRowsFit(image, fp);
    Staged(Zeroed(fp.totalBytes), image.data, fp.rowCount, image.width * image.component, fp.rowSize)
  }

  /** The staging buffer with rows `rowPitch` bytes apart, where `CopyTextureRegion` reads them. */
  function StageImageAtPitch(image: Image, fp: Footprint): (staging: seq<byte>)
    requires WellFormedImage(image) && ValidFootprint(fp, image.width, image.height)
    ensures |staging| == fp.totalBytes
  {
    ImageRowsFit(image, fp);
    Staged(Zeroed(fp.totalBytes), image.data, fp.rowCount, image.width * image.component, fp.rowPitch)
  }

  /** Byte `j` of row `r` of an RGBA image, staged at the row pitch, sits where
      `CopyTextureRegion` reads it. */
  lemma StageImageAtPitchByte(image: Image, fp: Footprint, r: nat, j: nat)
    requires WellFormedImage(image) && ValidFootprint(fp, image.width, image.height)
    requires image.component == BytesPerTexel && r < image.height && j < fp.rowSize
    ensures RowStart(fp.rowPitch, r) + j < fp.totalBytes && RowStart(fp.rowSize, r) + j < |image.data|
    ensures StageImageAtPitch(image, fp)[RowStart(fp.rowPitch, r) + j] == image.data[RowStart(fp.rowSize, r) + j]
  {
    ImageRowsFit(image, fp);
    assert image.width * image.component == fp.rowSize;
    StagedRowReadback(Zeroed(fp.totalBytes), image.data, fp.rowCount, fp.rowSize, fp.rowPitch, r, j);
  }

  /** Row `r` of an RGBA image lies within both the image and the footprint. */
  lemma ImageRowBounds(image: Image, fp: Footprint, r: nat)
    requires WellFormedImage(image) && ValidFootprint(fp, image.width, image.height)
    requires image.component == BytesPerTexel && r < image.height
    ensures RowStart(fp.rowPitch, r) + fp.rowSize <= fp.totalBytes
    ensures RowStart(fp.rowSize, r) + fp.rowSize <= |image.data|
  {
    ImageRowsFit(image, fp);
    FitsFewerRows(fp.totalBytes, fp.rowCount, r + 1, fp.rowSize, fp.rowPitch);
    RowStartMonotone(fp.rowSize, r + 1, fp.rowCount);
  }

  /** Staged at the row pitch, an RGBA image reads back row by row as the texture it came from. */
  lemma StageImageAtPitchReadsBack(image: Image, fp: Footprint, r: nat)
    requires WellFormedImage(image) && ValidFootprint(fp, image.width, image.height)
    requires image.component == BytesPerTexel && r < image.height
    ensures RowStart(fp.rowPitch, r) + fp.rowSize <= fp.totalBytes
    ensures RowStart(fp.rowSize, r) + fp.rowSize <= |image.data|
    ensures ReadRow(StageImageAtPitch(image, fp), fp, r) == image.data[RowStart(fp.rowSize, r)..RowStart(fp.rowSize, r) + fp.rowSize]
  {
    ImageRowBounds(image, fp, r);
    var row := ReadRow(StageImageAtPitch(image, fp), fp, r);
    var expected := image.data[RowStart(fp.rowSize, r)..RowStart(fp.rowSize, r) + fp.rowSize];
    forall j | 0 <= j < fp.rowSize
      ensures row[j] == expected[j]
    {
      StageImageAtPitchByte(image, fp, r, j);
    }
  }

  /** A one-texel-wide, two-row RGBA image with the smallest valid footprint. */
  const NarrowImage := Image(1, 2, 4, [1, 1, 1, 1, 2, 2, 2, 2])
  const NarrowFootprint := Footprint(256, 2, 4, 260)

  /** As written, the second row of `NarrowImage` is staged at offset 4, but
      `CopyTextureRegion` reads it from offset 256, which the loop never wrote. */
  lemma AsWrittenSecondRowMisplaced()
    ensures WellFormedImage(NarrowImage) && ValidFootprint(NarrowFootprint, 1, 2)
    ensures ReadRow(StageImage(NarrowImage, NarrowFootprint), NarrowFootprint, 1) == [0, 0, 0, 0]
    ensures NarrowImage.data[4..8] == [2, 2, 2, 2]
  {
    assert IsMultipleOf(256, TexturePitchAlignment);
    var zeros := Zeroed(260);
    var staged := StageImage(NarrowImage, NarrowFootprint);
    forall k | 256 <= k < 260
      ensures staged[k] == 0
    {
      StagedOutsideRows(zeros, NarrowImage.data, 2, 4, 4, k);
    }
  }
}
