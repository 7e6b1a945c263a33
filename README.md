# IDX dataset reader of the EMNIST experiments, in Dafny

This project models the dataset loader in `src/emnist_loader.rs`. The loader reads
the IDX files that MNIST and EMNIST ship: a big-endian 32-bit magic number, then
the dimension sizes it announces, then a flat payload of unsigned bytes. Magic
2049 (`0x00000801`) announces one size, the label count. Magic 2051
(`0x00000803`) announces three sizes: image count, rows and columns.

The model works in two stages.

- `MnistData::new` reads the decompressed bytes of one file through a cursor.
  It reads the magic number, then one or three sizes, then keeps every remaining
  byte as the payload. Too few bytes for a header integer gives an end-of-file
  error. Any other magic number panics. Here the cursor is the class
  `Cursors.Cursor`, and `EmnistLoader.NewMnistData` is the method that drives it.
  The method is proved equal to the function `EmnistLoader.Parse`. `Parse` is
  proved to be the inverse of `EmnistLoader.Serialize`, which writes magic, sizes
  and payload.
- `load_data` parses the label file, then the image file. It computes
  `image_shape = sizes[1] * sizes[2]` and cuts `sizes[0]` consecutive slices of
  that many bytes from the image payload. Each slice becomes a `(image_shape, 1)`
  array of `byte / 255` values. The second loop zips the images with the label
  payload, so the result stops at the shorter of the two. `EmnistLoader.CutImages`
  and `EmnistLoader.PairWithLabels` are these two loops. `EmnistLoader.LoadData`
  chains the whole stage and is proved equal to the function `EmnistLoader.Load`.

A run can end in three ways, kept apart by `Outcomes.Outcome`: a value, an I/O
error returned through `?` (`Err`), or a panic (`Panicked`). The panic sites are:

- the unknown magic number;
- indexing `sizes[1]` or `sizes[2]` of a container with fewer than three sizes;
- an `i32` overflow of `sizes[1] * sizes[2]`;
- a payload slice that runs past the end.

Integer widths follow the code:

- Header integers are `i32` in two's complement (`BigEndian.DecodeI32`).
- `as usize` sign-extends a negative `i32` to 64 bits (`EmnistLoader.AsUsize`).
- The `usize` offsets `i * image_shape` and `start + image_shape` are proved
  never to wrap. The proof uses the fact that a `Vec<u8>` holds at most
  `isize::MAX` bytes.

Some behaviour follows the code where a design description of the loader says
otherwise:

- Count mismatch. The description recommends treating a difference between the
  image count and the number of labels as a fatal consistency error. The code
  zips the two and silently truncates to the shorter side, and so does the model.
- Unknown magic. The description would turn an unknown magic number into a
  recoverable error. The code panics, and the model keeps that as a separate
  `Panicked` outcome.
- Entry point. The description names an entry point that takes an image path and
  a label path. The `load_data` in this file takes a dataset directory and builds
  fixed `emnist-letters-train-*` file names. The model takes the decompressed
  label bytes and image bytes, in the order the code reads them.

## Model

| member | source | states |
|---|---|---|
| `BigEndian.DecodeI32` | src/emnist_loader.rs:24 | four bytes read as big-endian two's complement: negative exactly when the top bit of the first byte is set; the value is the unsigned reading, or that minus 2^32 |
| `BigEndian.DecodeEncodeI32` | src/emnist_loader.rs:24 | decoding the four bytes written for any i32 gives that i32 back |
| `BigEndian.EncodeDecodeI32` | src/emnist_loader.rs:24 | encoding the i32 decoded from any four bytes gives those bytes back, so the header codec is a bijection |
| `Cursors.Cursor.constructor` | src/emnist_loader.rs:22 | a cursor over the decompressed bytes starts at position 0 |
| `Cursors.Cursor.ReadI32` | src/emnist_loader.rs:24-36 | with at least four bytes left: the big-endian i32 at the position, and the position advances by 4; otherwise an end-of-file error and the position moves to the end; never a partial value |
| `Cursors.Cursor.ReadToEnd` | src/emnist_loader.rs:41 | returns exactly the unread bytes, in order, and the cursor ends at the end |
| `EmnistLoader.Parse` | src/emnist_loader.rs:24-43 | end-of-file error if and only if fewer than 4 bytes, or a known magic with fewer than 8 (labels) or 16 (images) bytes; panic with the magic if and only if the magic is neither 2049 nor 2051; on success 1 or 3 sizes according to the magic, size k being the i32 at offset 4 + 4k, and the payload being every byte after the header |
| `EmnistLoader.NewMnistData` | src/emnist_loader.rs:17-44 | the cursor-driven parser returns exactly what `Parse` specifies, on every input |
| `EmnistLoader.SerializeThenParse` | src/emnist_loader.rs:24-43 | parsing the bytes magic ++ sizes ++ payload of any container with 1 or 3 sizes gives that container back |
| `EmnistLoader.ParseThenSerialize` | src/emnist_loader.rs:24-43 | every successful parse accounts for all of its input: re-serializing the result reproduces the input byte for byte, so the payload is unmodified and nothing is skipped |
| `EmnistLoader.ParseLabelFile` | src/emnist_loader.rs:29-32 | BE(2049) ++ BE(n) ++ p parses to sizes [n] and payload p |
| `EmnistLoader.ParseImageFile` | src/emnist_loader.rs:33-37 | BE(2051) ++ BE(c) ++ BE(r) ++ BE(w) ++ p parses to sizes [c, r, w], in file order, and payload p |
| `EmnistLoader.Intensity` | src/emnist_loader.rs:71 | a pixel byte divided by 255 lies in [0, 1] and times 255 gives the byte back |
| `EmnistLoader.ToImage` | src/emnist_loader.rs:69-73 | a slice becomes an image of shape (slice length, 1) whose element j lies in [0, 1] and is byte j divided by 255 |
| `EmnistLoader.RawToImage` | src/emnist_loader.rs:69-73 | the bytes of a slice can be recovered from its image, so no pixel information is lost |
| `EmnistLoader.AsUsize` | src/emnist_loader.rs:64-66 | `as usize` of an i32 is below 2^64, agrees with the i32 modulo 2^64, and is the value itself when that is non-negative |
| `EmnistLoader.ChunkImages` | src/emnist_loader.rs:66-74 | n slices give exactly n images, each of shape (shape, 1) |
| `EmnistLoader.ChunkImagesAt` | src/emnist_loader.rs:67-68 | image k lies within the payload and is made from bytes [k * shape, (k + 1) * shape) |
| `EmnistLoader.FlattenChunkImages` | src/emnist_loader.rs:66-74 | the images, read back and concatenated in order, are exactly the first n * shape payload bytes |
| `EmnistLoader.Images` | src/emnist_loader.rs:63-74 | panics on `sizes[1]`/`sizes[2]` if and only if fewer than 3 sizes; on the multiply if and only if rows * cols leaves i32; on the slice if and only if count * shape exceeds the payload; otherwise exactly `sizes[0] as usize` images of shape (rows * cols, 1) |
| `EmnistLoader.NoUsizeOverflow` | src/emnist_loader.rs:67-68 | the usize end offset `i * image_shape + image_shape` of every slice the loop reaches stays below 2^64 |
| `EmnistLoader.CutImages` | src/emnist_loader.rs:63-74 | the slicing loop, with its early panic, returns exactly what `Images` specifies |
| `EmnistLoader.Zip` | src/emnist_loader.rs:80 | min(#images, #labels) pairs; pair k is image k with label k |
| `EmnistLoader.PairWithLabels` | src/emnist_loader.rs:76-85 | the pushing loop returns exactly the zip of the images with the label payload |
| `EmnistLoader.LoadData` | src/emnist_loader.rs:53-88 | labels parsed first, then images, each failure propagated as it happens; the result is exactly `Load` of the two byte sequences |
| `EmnistLoader.LoadSamples` | src/emnist_loader.rs:63-87 | a successful load has an image container with 3 sizes whose count * shape fits the payload, min(count, number of label bytes) samples, and sample k holds label byte k verbatim and the image of payload bytes [k * shape, (k + 1) * shape) |
| `EmnistLoader.LoadRoundTrip` | src/emnist_loader.rs:58-87 | files built from any label container and an image container with non-negative sizes and enough pixels load successfully to min(count, number of labels) samples of that form; trailing pixels and the label header's count do not matter |
| `EmnistLoader.LoadShortPayloadPanics` | src/emnist_loader.rs:68 | an image payload shorter than count * rows * cols makes the load panic at the slice |
| `EmnistLoader.LoadLabelContainerAsImagesPanics` | src/emnist_loader.rs:64 | an image file that carries a single size (a label file) makes the load panic at `sizes[1]` |
| `Outcomes.Outcome.PropagateFailure` | src/emnist_loader.rs:58-61 | `?` passes an error on unchanged, and a panic stays the same panic |

## Left out

- Decompression and file access (`GzDecoder`, `File::open`, `read_to_end` on the gzip stream) are not modelled, because they are foreign I/O. The model's input is the decompressed byte sequence, and the I/O errors of those steps are not represented.
- The dataset-directory argument and the fixed `emnist-letters-train-*` file names are not modelled, because they are only path formatting.
- `Intensity`: the division `x / 255` is computed exactly over the reals, not in IEEE floating point for the generic element type `T`. Rounding of the float result is not modelled.
- `Images`: a container with image size 0 and a huge or negative-as-usize count yields that many empty images in the model. The real program would run out of memory first.
- `CutImages`: the model follows a build with integer overflow checks (Rust's default development profile), where an overflow of `sizes[1] * sizes[2]` panics. A release build would wrap the product modulo 2^32 instead.
- `Cursors.Cursor.ReadI32`: after a failed read the position goes to the end. This is never observed, because the parser returns at once.
- The category decoder `convert_max_outputs_to_category`, which turns per-class scores into class indices and is called at src/bin/emnist_characters_train.rs:75, is not part of this model.
- The training binaries (`src/bin/emnist_characters_train.rs`, `src/bin/reg_lin.rs`, `src/bin/equal_distance_model.rs`) are not part of this model. They are neural-network definitions, gradient descent and plotting built on external numerical libraries, and their shuffling uses a random number generator.
