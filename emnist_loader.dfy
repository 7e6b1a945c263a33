/**
 The IDX dataset reader of src/emnist_loader.rs.

 `MnistData::new` turns the decompressed bytes of one IDX file into its
 header sizes and its payload; `load_data` reads a label file and an image
 file, cuts the image payload into `sizes[0]` images of `rows * cols`
 pixels and pairs them, in order, with the label payload.

 The input of the model is the byte sequence that decompression produces;
 opening and decompressing the files are not part of it.
 */
module EmnistLoader {
  import opened BigEndian
  import opened Outcomes
  import opened Cursors

  /** Magic number of an IDX file of unsigned bytes with one dimension (labels). */
  const LABEL_MAGIC: I32 := 0x0000_0801
  /** Magic number of an IDX file of unsigned bytes with three dimensions (images). */
  const IMAGE_MAGIC: I32 := 0x0000_0803

  /** One past the largest `usize` value. */
  const USIZE_LIMIT: int := 0x1_0000_0000_0000_0000
  /** The largest length of a Rust `Vec<u8>` (`isize::MAX`). */
  const ISIZE_MAX: int := 0x7FFF_FFFF_FFFF_FFFF

  /** A decoded IDX file: the dimension sizes of its header and the bytes after the header. */
  datatype MnistData = MnistData(sizes: seq<I32>, data: seq<Byte>)

  // ---------------------------------------------------------------------------
  // The IDX layout
  // ---------------------------------------------------------------------------

  predicate IsKnownMagic(magic: I32) {
    magic == LABEL_MAGIC || magic == IMAGE_MAGIC
  }

  /** How many dimension sizes follow a recognised magic number. */
  function SizeCount(magic: I32): (n: nat)
    requires IsKnownMagic(magic)
    ensures n == 1 || n == 3
  {
    if magic == LABEL_MAGIC then 1 else 3
  }

  /** Bytes taken by the magic number and the sizes. */
  function HeaderLength(magic: I32): (n: nat)
    requires IsKnownMagic(magic)
    ensures n == 8 || n == 16
  {
    4 + 4 * SizeCount(magic)
  }

  /** The magic number: the first four bytes, big-endian. */
  function Magic(contents: seq<Byte>): I32
    requires 4 <= |contents|
  {
    DecodeI32(contents[..4])
  }

  /** The big-endian integer stored at byte offset `at`. */
  function I32At(contents: seq<Byte>, at: nat): I32
    requires at + 4 <= |contents|
  {
    DecodeI32(contents[at..at + 4])
  }

  /** A container a well-formed IDX file of one of the two kinds can describe. */
  predicate WellFormed(m: MnistData) {
    |m.sizes| == 1 || |m.sizes| == 3
  }

  /** The magic number that announces the container's number of sizes. */
  function MagicFor(m: MnistData): (magic: I32)
    requires WellFormed(m)
    ensures IsKnownMagic(magic) && SizeCount(magic) == |m.sizes|
  {
    if |m.sizes| == 1 then LABEL_MAGIC else IMAGE_MAGIC
  }

  /** The sizes, each as four big-endian bytes, in order. */
  function EncodeSizes(sizes: seq<I32>): (b: seq<Byte>)
    ensures |b| == 4 * |sizes|
  {
    if sizes == [] then [] else EncodeI32(sizes[0]) + EncodeSizes(sizes[1..])
  }

  /** The IDX file of a container: magic number, sizes, payload. */
  function Serialize(m: MnistData): (b: seq<Byte>)
    requires WellFormed(m)
  {
    EncodeI32(MagicFor(m)) + EncodeSizes(m.sizes) + m.data
  }

  // ---------------------------------------------------------------------------
  // MnistData::new
  // ---------------------------------------------------------------------------

  /**
   What `MnistData::new` makes of the decompressed bytes. A short header is an
   end-of-file error, an unknown magic number a panic; otherwise the sizes
   follow the magic number and the payload is every byte after them.
   */
  function Parse(contents: seq<Byte>): (r: Outcome<MnistData>)
    ensures r.Err? <==>
              |contents| < 4 || (IsKnownMagic(Magic(contents)) && |contents| < HeaderLength(Magic(contents)))
    ensures r.Err? ==> r.error == UnexpectedEof
    ensures r.Panicked? <==> 4 <= |contents| && !IsKnownMagic(Magic(contents))
    ensures r.Panicked? ==> r.panic == UnknownMagic(Magic(contents))
    ensures r.Ok? ==>
              IsKnownMagic(Magic(contents)) && |r.value.sizes| == SizeCount(Magic(contents))
              && r.value.data == contents[HeaderLength(Magic(contents))..]
    ensures r.Ok? ==>
              forall k :: 0 <= k < |r.value.sizes| ==> r.value.sizes[k] == I32At(contents, 4 + 4 * k)
  {
    if |contents| < 4 then Err(UnexpectedEof)
    else
      var magic := Magic(contents);
      if magic == LABEL_MAGIC then
        if |contents| < 8 then Err(UnexpectedEof)
        else Ok(MnistData([I32At(contents, 4)], contents[8..]))
      else if magic == IMAGE_MAGIC then
        if |contents| < 16 then Err(UnexpectedEof)
        else Ok(MnistData([I32At(contents, 4), I32At(contents, 8), I32At(contents, 12)], contents[16..]))
      else
        Panicked(UnknownMagic(magic))
  }

  /**
   `MnistData::new` after decompression: reads the magic number through a
   cursor, then one or three sizes according to it, then the rest as payload.
   */
  method NewMnistData(contents: seq<Byte>) returns (r: Outcome<MnistData>)
    ensures r == Parse(contents)
  {
    var cursor := new Cursor(contents);
    var magic :- cursor.ReadI32();
    assert contents[0..4] == contents[..4];
    var sizes: seq<I32> := [];
    if magic == LABEL_MAGIC {
      var count :- cursor.ReadI32();
      sizes := sizes + [count];
      assert sizes == [I32At(contents, 4)];
    } else if magic == IMAGE_MAGIC {
      var count :- cursor.ReadI32();
      sizes := sizes + [count];
      var rows :- cursor.ReadI32();
      sizes := sizes + [rows];
      var cols :- cursor.ReadI32();
      sizes := sizes + [cols];
      assert sizes == [I32At(contents, 4), I32At(contents, 8), I32At(contents, 12)];
    } else {
      return Panicked(UnknownMagic(magic));
    }
    var data := cursor.ReadToEnd();
    assert data == contents[HeaderLength(magic)..];
    assert magic == Magic(contents);
    return Ok(MnistData(sizes, data));
  }

  /** The encoded sizes, read back four bytes at a time. */
  lemma {:induction false} EncodeSizesAt(sizes: seq<I32>, k: nat)
    requires k < |sizes|
    ensures EncodeSizes(sizes)[4 * k..4 * k + 4] == EncodeI32(sizes[k])
  {
    if k > 0 {
      EncodeSizesAt(sizes[1..], k - 1);
      assert EncodeSizes(sizes) == EncodeI32(sizes[0]) + EncodeSizes(sizes[1..]);
      assert EncodeSizes(sizes)[4 * k..4 * k + 4] == EncodeSizes(sizes[1..])[4 * (k - 1)..4 * (k - 1) + 4];
    }
  }

  /** Parsing the IDX file of a container gives back the container. */
  lemma SerializeThenParse(m: MnistData)
    requires WellFormed(m)
    ensures Parse(Serialize(m)) == Ok(m)
  {
    var b := Serialize(m);
    var h := 4 + 4 * |m.sizes|;
    assert b[..4] == EncodeI32(MagicFor(m));
    DecodeEncodeI32(MagicFor(m));
    assert b[h..] == m.data;
    forall k | 0 <= k < |m.sizes|
      ensures I32At(b, 4 + 4 * k) == m.sizes[k]
    {
      EncodeSizesAt(m.sizes, k);
      assert b[4 + 4 * k..8 + 4 * k] == EncodeSizes(m.sizes)[4 * k..4 * k + 4];
      DecodeEncodeI32(m.sizes[k]);
    }
    var r := Parse(b);
    assert r.value.sizes == m.sizes;
  }

  /** A successful parse consumed the whole input: serializing its result gives the input back. */
  lemma ParseThenSerialize(contents: seq<Byte>)
    requires Parse(contents).Ok?
    ensures WellFormed(Parse(contents).value) && Serialize(Parse(contents).value) == contents
  {
    var m := Parse(contents).value;
    var h := HeaderLength(Magic(contents));
    EncodeDecodeI32(contents[..4]);
    EncodeDecodeI32(contents[4..8]);
    if |m.sizes| == 1 {
      assert EncodeSizes(m.sizes) == contents[4..8];
    } else {
      EncodeDecodeI32(contents[8..12]);
      EncodeDecodeI32(contents[12..16]);
      assert m.sizes[1..] == [m.sizes[1], m.sizes[2]] && m.sizes[1..][1..] == [m.sizes[2]];
      assert EncodeSizes([m.sizes[2]]) == contents[12..16];
      assert EncodeSizes([m.sizes[1], m.sizes[2]]) == contents[8..12] + contents[12..16];
      assert EncodeSizes(m.sizes) == contents[4..8] + (contents[8..12] + contents[12..16]);
      assert contents[4..16] == contents[4..8] + contents[8..12] + contents[12..16];
    }
    assert EncodeSizes(m.sizes) == contents[4..h];
    assert contents == contents[..4] + contents[4..h] + contents[h..];
  }

  /** The bytes of a label file: magic 2049, the count, the labels. */
  function LabelFile(count: I32, payload: seq<Byte>): seq<Byte> {
    EncodeI32(LABEL_MAGIC) + EncodeI32(count) + payload
  }

  /** The bytes of an image file: magic 2051, count, rows and columns in that order, the pixels. */
  function ImageFile(count: I32, rows: I32, cols: I32, payload: seq<Byte>): seq<Byte> {
    EncodeI32(IMAGE_MAGIC) + EncodeI32(count) + EncodeI32(rows) + EncodeI32(cols) + payload
  }

  /** A label file parses to its one size and its payload. */
  lemma ParseLabelFile(count: I32, payload: seq<Byte>)
    ensures Parse(LabelFile(count, payload)) == Ok(MnistData([count], payload))
  {
    var m := MnistData([count], payload);
    assert EncodeSizes(m.sizes) == EncodeI32(count);
    SerializeThenParse(m);
  }

  /** An image file parses to its three sizes, in file order, and its payload. */
  lemma ParseImageFile(count: I32, rows: I32, cols: I32, payload: seq<Byte>)
    ensures Parse(ImageFile(count, rows, cols, payload)) == Ok(MnistData([count, rows, cols], payload))
  {
    var m := MnistData([count, rows, cols], payload);
    assert m.sizes[1..] == [rows, cols] && m.sizes[1..][1..] == [cols];
    assert EncodeSizes([cols]) == EncodeI32(cols);
    assert EncodeSizes([rows, cols]) == EncodeI32(rows) + EncodeI32(cols);
    assert EncodeSizes(m.sizes) == EncodeI32(count) + (EncodeI32(rows) + EncodeI32(cols));
    SerializeThenParse(m);
  }

  // ---------------------------------------------------------------------------
  // load_data
  // ---------------------------------------------------------------------------

  /** A pixel array of `rows` by `cols` values, stored row-major (an `ndarray::Array2`). */
  datatype Image = Image(rows: nat, cols: nat, pixels: seq<real>)

  /** One labelled sample (`MnistImage`): an image and the label byte paired with it. */
  datatype MnistImage = MnistImage(image: Image, classification: Byte)

  /** A pixel byte scaled into the unit interval, `x / 255` computed exactly. */
  function Intensity(b: Byte): (v: real)
    ensures 0.0 <= v <= 1.0
    ensures v * 255.0 == b as real
  {
    b as real / 255.0
  }

  /** The byte a scaled pixel came from. */
  function Quantize(v: real): int {
    (v * 255.0).Floor
  }

  /**
   One image slice turned into a (len, 1) array of intensities, as the `map`
   and `Array2::from_shape_vec((image_shape, 1), ..)` of `load_data` do.
   */
  function ToImage(chunk: seq<Byte>): (img: Image)
    ensures img.rows == |chunk| && img.cols == 1 && |img.pixels| == img.rows * img.cols
    ensures forall j :: 0 <= j < |chunk| ==>
              0.0 <= img.pixels[j] <= 1.0 && img.pixels[j] * 255.0 == chunk[j] as real
  {
    Image(|chunk|, 1, seq(|chunk|, j requires 0 <= j < |chunk| => Intensity(chunk[j])))
  }

  /** The bytes an image was made from, recovered from its intensities. */
  function Raw(img: Image): seq<int> {
    seq(|img.pixels|, j requires 0 <= j < |img.pixels| => Quantize(img.pixels[j]))
  }

  /** The bytes of a sequence of images, one image after the other. */
  function Flatten(images: seq<Image>): seq<int> {
    if images == [] then [] else Flatten(images[..|images| - 1]) + Raw(images[|images| - 1])
  }

  /** Raw inverts ToImage. */
  lemma RawToImage(chunk: seq<Byte>)
    ensures Raw(ToImage(chunk)) == chunk
  {
    var r := Raw(ToImage(chunk));
    forall j | 0 <= j < |chunk|
      ensures r[j] == chunk[j]
    {
      assert ToImage(chunk).pixels[j] == Intensity(chunk[j]);
    }
  }

  /** `x as usize` for an i32: a negative value sign-extends to 64 bits. */
  function AsUsize(x: I32): (u: nat)
    ensures u < USIZE_LIMIT
    ensures (u - x) % USIZE_LIMIT == 0
    ensures 0 <= x ==> u == x
  {
    if x < 0 then x + USIZE_LIMIT else x
  }

  lemma MulMonotone(a: nat, b: nat, c: nat)
    requires a <= b
    ensures a * c <= b * c
  {
  }

  lemma MulSucc(a: nat, c: nat)
    ensures (a + 1) * c == a * c + c
  {
  }

  /** The first n images of `shape` pixels each, cut one after the other from data. */
  function ChunkImages(data: seq<Byte>, shape: nat, n: nat): (r: seq<Image>)
    requires n * shape <= |data|
    ensures |r| == n
    ensures forall k :: 0 <= k < n ==> r[k].rows == shape && r[k].cols == 1
    decreases n
  {
    if n == 0 then []
    else
      MulSucc(n - 1, shape);
      ChunkImages(data, shape, n - 1) + [ToImage(data[(n - 1) * shape..n * shape])]
  }

  /** Image k is made from bytes [k * shape, (k + 1) * shape) of the payload. */
  lemma {:induction false} ChunkImagesAt(data: seq<Byte>, shape: nat, n: nat, k: nat)
    requires n * shape <= |data| && k < n
    ensures (k + 1) * shape <= |data|
    ensures ChunkImages(data, shape, n)[k] == ToImage(data[k * shape..(k + 1) * shape])
  {
    MulMonotone(k + 1, n, shape);
    if k < n - 1 {
      MulMonotone(n - 1, n, shape);
      ChunkImagesAt(data, shape, n - 1, k);
    }
  }

  /** The images, put back together, are exactly the first n * shape payload bytes, in order. */
  lemma {:induction false} FlattenChunkImages(data: seq<Byte>, shape: nat, n: nat)
    requires n * shape <= |data|
    ensures Flatten(ChunkImages(data, shape, n)) == data[..n * shape]
  {
    if n > 0 {
      var images := ChunkImages(data, shape, n);
      MulMonotone(n - 1, n, shape);
      assert images[..n - 1] == ChunkImages(data, shape, n - 1);
      FlattenChunkImages(data, shape, n - 1);
      RawToImage(data[(n - 1) * shape..n * shape]);
      assert data[..n * shape] == data[..(n - 1) * shape] + data[(n - 1) * shape..n * shape];
    }
  }

  /** The image count `sizes[0] as usize` of an image container. */
  function ImageCount(m: MnistData): nat
    requires 3 <= |m.sizes|
  {
    AsUsize(m.sizes[0])
  }

  /** `sizes[1] * sizes[2]` computed without bounds. */
  function RowsTimesCols(m: MnistData): int
    requires 3 <= |m.sizes|
  {
    (m.sizes[1] as int) * m.sizes[2]
  }

  /** The pixels per image, `(sizes[1] * sizes[2]) as usize`, when the product fits in i32. */
  function ImageShape(m: MnistData): nat
    requires 3 <= |m.sizes| && InI32(RowsTimesCols(m))
  {
    AsUsize(RowsTimesCols(m))
  }

  /**
   The images `load_data` cuts from an image container, or the panic it runs
   into: indexing a size vector shorter than three, an i32 overflow of
   rows * cols, or a slice that runs past the payload.
   */
  function Images(m: MnistData): (r: Outcome<seq<Image>>)
    ensures !r.Err?
    ensures r == Panicked(IndexOutOfBounds) <==> |m.sizes| < 3
    ensures r == Panicked(MulOverflow) <==> 3 <= |m.sizes| && !InI32(RowsTimesCols(m))
    ensures r == Panicked(SliceOutOfRange) <==>
              3 <= |m.sizes| && InI32(RowsTimesCols(m)) && ImageCount(m) * ImageShape(m) > |m.data|
    ensures r.Ok? ==>
              |r.value| == ImageCount(m)
              && forall k :: 0 <= k < |r.value| ==> r.value[k].rows == ImageShape(m) && r.value[k].cols == 1
  {
    if |m.sizes| < 3 then Panicked(IndexOutOfBounds)
    else if !InI32(RowsTimesCols(m)) then Panicked(MulOverflow)
    else if ImageCount(m) * ImageShape(m) > |m.data| then Panicked(SliceOutOfRange)
    else Ok(ChunkImages(m.data, ImageShape(m), ImageCount(m)))
  }

  /** The offsets `load_data` computes in usize never wrap, since a payload is at most isize::MAX long. */
  lemma NoUsizeOverflow(i: nat, shape: nat, len: nat)
    requires i * shape <= len <= ISIZE_MAX && shape < USIZE_LIMIT
    ensures i * shape + shape < USIZE_LIMIT
  {
    if i > 0 {
      MulMonotone(1, i, shape);
    }
  }

  /**
   The first loop of `load_data`: for i in 0..sizes[0] it slices `image_shape`
   bytes at `i * image_shape` and pushes the image made from them.
   */
  method CutImages(m: MnistData) returns (r: Outcome<seq<Image>>)
    requires |m.data| <= ISIZE_MAX
    ensures r == Images(m)
  {
    if |m.sizes| < 3 {
      return Panicked(IndexOutOfBounds);
    }
    var product := (m.sizes[1] as int) * m.sizes[2];
    if !InI32(product) {
      return Panicked(MulOverflow);
    }
    var shape := AsUsize(product);
    var count := AsUsize(m.sizes[0]);
    var images: seq<Image> := [];
    var i: nat := 0;
    while i < count
      invariant i <= count
      invariant i * shape <= |m.data|
      invariant images == ChunkImages(m.data, shape, i)
    {
      var start := i * shape;
      NoUsizeOverflow(i, shape, |m.data|);
      if start + shape > |m.data| {
        MulMonotone(i + 1, count, shape);
        return Panicked(SliceOutOfRange);
      }
      images := images + [ToImage(m.data[start..start + shape])];
      i := i + 1;
    }
    return Ok(images);
  }

  function Min(a: nat, b: nat): nat {
    if a <= b then a else b
  }

  /** Images paired with labels position by position, stopping at the shorter of the two (`zip`). */
  function Zip(images: seq<Image>, labels: seq<Byte>): (r: seq<MnistImage>)
    ensures |r| == Min(|images|, |labels|)
    ensures forall k :: 0 <= k < |r| ==> r[k] == MnistImage(images[k], labels[k])
    decreases |images|
  {
    if images == [] || labels == [] then []
    else [MnistImage(images[0], labels[0])] + Zip(images[1..], labels[1..])
  }

  /** The second loop of `load_data`: pushes one sample per (image, tag) pair of the zip. */
  method PairWithLabels(images: seq<Image>, labels: seq<Byte>) returns (ret: seq<MnistImage>)
    ensures ret == Zip(images, labels)
  {
    ret := [];
    var n := Min(|images|, |labels|);
    for k := 0 to n
      invariant |ret| == k
      invariant forall j :: 0 <= j < k ==> ret[j] == MnistImage(images[j], labels[j])
    {
      ret := ret + [MnistImage(images[k], labels[k])];
    }
  }

  /**
   What `load_data` returns for the decompressed label file and image file:
   the label file is read first, then the image file; the labels are the
   label payload whatever its header says.
   */
  function Load(labelBytes: seq<Byte>, imageBytes: seq<Byte>): Outcome<seq<MnistImage>> {
    var labelData :- Parse(labelBytes);
    var imagesData :- Parse(imageBytes);
    var images :- Images(imagesData);
    Ok(Zip(images, labelData.data))
  }

  /** `load_data` after the two files have been opened and decompressed. */
  method LoadData(labelBytes: seq<Byte>, imageBytes: seq<Byte>) returns (r: Outcome<seq<MnistImage>>)
    requires |imageBytes| <= ISIZE_MAX
    ensures r == Load(labelBytes, imageBytes)
  {
    var labelData :- NewMnistData(labelBytes);
    var imagesData :- NewMnistData(imageBytes);
    var images :- CutImages(imagesData);
    var samples := PairWithLabels(images, labelData.data);
    return Ok(samples);
  }

  /**
   Sample k holds label byte k unchanged and the image made from the `shape`
   pixel bytes at k * shape of the image payload.
   */
  ghost predicate SampleFrom(s: MnistImage, pixels: seq<Byte>, shape: nat, k: nat, tag: Byte) {
    && s.classification == tag
    && (k + 1) * shape <= |pixels|
    && s.image == ToImage(pixels[k * shape..(k + 1) * shape])
  }

  /**
   A successful load has min(image count, label payload length) samples;
   sample k pairs image k of the image payload with label byte k.
   */
  lemma LoadSamples(labelBytes: seq<Byte>, imageBytes: seq<Byte>)
    requires Load(labelBytes, imageBytes).Ok?
    ensures Parse(labelBytes).Ok? && Parse(imageBytes).Ok?
    ensures var labels := Parse(labelBytes).value.data;
            var m := Parse(imageBytes).value;
            var samples := Load(labelBytes, imageBytes).value;
            && |m.sizes| == 3 && InI32(RowsTimesCols(m)) && ImageCount(m) * ImageShape(m) <= |m.data|
            && |samples| == Min(ImageCount(m), |labels|)
            && forall k :: 0 <= k < |samples| ==> SampleFrom(samples[k], m.data, ImageShape(m), k, labels[k])
  {
    var labels := Parse(labelBytes).value.data;
    var m := Parse(imageBytes).value;
    var samples := Load(labelBytes, imageBytes).value;
    var images := Images(m).value;
    assert samples == Zip(images, labels);
    forall k | 0 <= k < |samples|
      ensures SampleFrom(samples[k], m.data, ImageShape(m), k, labels[k])
    {
      ChunkImagesAt(m.data, ImageShape(m), ImageCount(m), k);
    }
  }

  /**
   Loading the files of a label container and of an image container with
   non-negative sizes and at least count * rows * cols payload bytes gives
   min(count, number of labels) samples, sample k being image k of the payload
   with label byte k; extra payload bytes and the label header play no part.
   */
  lemma LoadRoundTrip(labels: MnistData, images: MnistData)
    requires WellFormed(labels) && |images.sizes| == 3
    requires 0 <= images.sizes[0] && 0 <= images.sizes[1] && 0 <= images.sizes[2]
    requires InI32(RowsTimesCols(images)) && ImageCount(images) * ImageShape(images) <= |images.data|
    ensures var r := Load(Serialize(labels), Serialize(images));
            && r.Ok? && |r.value| == Min(ImageCount(images), |labels.data|)
            && forall k :: 0 <= k < |r.value| ==>
                 SampleFrom(r.value[k], images.data, ImageShape(images), k, labels.data[k])
  {
    SerializeThenParse(labels);
    SerializeThenParse(images);
    LoadSamples(Serialize(labels), Serialize(images));
  }

  /** An image payload shorter than count * rows * cols makes the slicing panic. */
  lemma LoadShortPayloadPanics(labelBytes: seq<Byte>, images: MnistData)
    requires Parse(labelBytes).Ok? && |images.sizes| == 3
    requires InI32(RowsTimesCols(images)) && ImageCount(images) * ImageShape(images) > |images.data|
    ensures Load(labelBytes, Serialize(images)) == Panicked(SliceOutOfRange)
  {
    SerializeThenParse(images);
  }

  /** A label container given as the image file panics when `sizes[1]` is indexed. */
  lemma LoadLabelContainerAsImagesPanics(labelBytes: seq<Byte>, images: MnistData)
    requires Parse(labelBytes).Ok? && |images.sizes| == 1
    ensures Load(labelBytes, Serialize(images)) == Panicked(IndexOutOfBounds)
  {
    SerializeThenParse(images);
  }
}
