# go-libwebp: verified model of the search callback and the encoder configuration

This project models, in Dafny, the two pieces of sequential logic in this WebP encoding bridge.
Everything else is glue around a native WebP encoder reached through a foreign-function boundary.

- `main.go`'s `bsearch` callback. Despite its name it is a linear search over raw memory. It copies
  `elements * size` bytes starting at `base`. It reads the first four bytes of each element as a
  little-endian `int32` and compares that with the `int32` stored at `key`. It returns the address of
  the first element that matches, or `base` when none does. It ignores the comparison callback it is
  given. Memory is an `array<byte>` that the method only reads: it has no `modifies` clause. Addresses
  are indices into that array. The search is proved against a recursive specification, `FirstMatch`.
  Lemmas then characterise that specification: the first match, no match, and bytes that never matter.
- `webp/encode.go`'s `Encoder`. The functional options `Quality(q)` and `Lossless()` are modelled as a
  datatype. The package-level `Encode` applies them in order to a zero-valued `Encoder` class. The
  quality clamp is written back into the encoder. The native call gets the quality rescaled to
  [0,100] and the lossless flag from `boolToInt32`. The native reply (size, nil-ness of the output
  pointer) is classified into an encode failure, an allocation failure, or output that goes on to be
  written. The native encoder is a parameter: a total function from the arguments it receives to its
  reply. So every statement holds for any native behaviour.

Files: `little_endian.dfy` (byte order and `int32` conversion), `bsearch.dfy` (`main.go`'s search),
`webp_encode.dfy` (`webp/encode.go`).

The doc comment of `bsearch` says its input is sorted. Nothing in the model requires that. Every
property is proved for arbitrary data, as the code (a linear scan) allows.

`bsearch` has one precondition the source leaves implicit. If the copy is non-empty, an element must
be at least 4 bytes long. Otherwise `binary.LittleEndian.Uint32` panics on the short slice. With
`size == 0` the copy is empty, the loop never runs and the result is `base`, and the model allows it.

## Model

| member | source | states |
|---|---|---|
| LittleEndian.ToInt32 | main.go:116 | Go's `int32(u)` of a `uint32` is the value congruent to `u` modulo 2^32, and it is non-negative exactly when `u < 2^31` |
| LittleEndian.Uint32 | main.go:116 | the four bytes read little-endian give an unsigned value below 2^32 |
| LittleEndian.DecodeInt32 | main.go:116 | the decoded `int32` is negative exactly when the top bit of the last byte is set, and it is the unsigned little-endian value minus 2^32 in that case and the unsigned value otherwise |
| LittleEndian.DecodeEncode | main.go:116 | decoding the four little-endian bytes of any `int32` gives the value back |
| LittleEndian.EncodeDecode | main.go:116 | every four-byte pattern is the encoding of the `int32` it decodes to, so decoding loses nothing |
| LittleEndian.DecodeReadsFourBytes | main.go:116 | the decoded value depends only on the first four bytes of the slice |
| Bsearch.Bsearch | main.go:106-126 | the loop returns `base` plus the byte offset of the first element whose key equals the `int32` at `key`, or `base` when there is none; with no elements or zero-size elements it returns `base`; memory is only read and the comparison callback does not affect the result |
| Bsearch.FirstMatchIsFirst | main.go:115-121 | a match found is an index below `elements` whose element's first four bytes decode to the key, and no earlier element's do |
| Bsearch.FirstMatchNone | main.go:115-125 | the search finds nothing exactly when no element's key equals the search key (both directions) |
| Bsearch.OnlyKeyBytesMatter | main.go:116 | two arrays that agree on the first four bytes of every element give the same result: bytes past the fourth never matter |
| Bsearch.BsearchFound | main.go:115-121 | a found address is `base + i * size` with `i < elements`, so its offset is a whole number of elements and the element lies wholly inside the copied bytes; that element holds the key and no earlier one does |
| Bsearch.BsearchNotFound | main.go:123-125 | nothing is found exactly when no element holds the key (`Address` then gives `base`, as the `Bsearch` method's contract states) |
| Bsearch.FirstMatch | main.go:115-121 | the index of the first element whose key matches, when there is one, is an index of an element (below the element count) |
| Bsearch.Lookup | main.go:111-125 | with no elements or zero-size elements nothing is found; a found index is below `elements`, and the elements scanned are at least four bytes wide |
| Bsearch.NotFoundLooksLikeFirst | main.go:117-125 | a concrete memory where the key is at index 0 and one where it is absent both return `base`, so a caller cannot tell the two apart |
| WebpEncode.ApplyOption | webp/encode.go:27-38 | `Quality(q)` sets the quality to `q` and leaves the lossless flag alone; `Lossless()` sets the flag and leaves the quality alone |
| WebpEncode.ApplyOptions | webp/encode.go:17-19 | applying options never clears the lossless flag, and the resulting quality is the starting one or one that a `Quality` option in the list carried |
| WebpEncode.ApplyOptionsSnoc | webp/encode.go:17-19 | applying a run of options and then one more is the same as applying the longer run |
| WebpEncode.ApplyOptionsAppend | webp/encode.go:17-19 | options are applied in order: applying `a ++ b` is applying `b` to the result of `a` |
| WebpEncode.LastQualityWins | webp/encode.go:16-31 | after the options, the quality is that of the last `Quality` option, or unchanged when there is none |
| WebpEncode.LosslessIffOption | webp/encode.go:16-38 | after the options, the encoder is lossless exactly when it started lossless or some option is `Lossless()` |
| WebpEncode.ClampQuality | webp/encode.go:42-56 | the clamped quality is in (0,1], and a quality already in (0,1] is kept |
| WebpEncode.ClampProperties | webp/encode.go:54-56 | clamping is idempotent, and values `<= 0` or `> 1` become exactly 1 |
| WebpEncode.BoolToInt32 | webp/encode.go:100-105 | the result is 0 or 1, and it is 1 exactly when the flag is true |
| WebpEncode.NativeArgsOf | webp/encode.go:83-85 | a quality in (0,1] reaches the native encoder in (0,100], and the lossless argument is 1 exactly when the flag is set |
| WebpEncode.Classify | webp/encode.go:88-93 | size 0 is an encode failure whatever the pointer; a non-zero size with a nil pointer is an allocation failure; only a non-zero size with a non-nil pointer goes on to the write, with that size |
| WebpEncode.Encoder.constructor | webp/encode.go:16 | `var enc Encoder` starts with quality 0 and lossless false |
| WebpEncode.Encoder.Apply | webp/encode.go:27-38 | running an option closure changes the encoder's fields exactly as `ApplyOption` says |
| WebpEncode.Encoder.Encode | webp/encode.go:51-93 | the clamp is written back into `enc.Quality` and the flag is unchanged; the native call gets the clamped quality times 100, which is in (0,100], and the flag as 0/1; the outcome is the classification of the native reply |
| WebpEncode.Encode | webp/encode.go:15-21 | the native encoder is called with the clamped result of applying the options in order to the zero encoder, and the outcome is the classification of its reply |
| WebpEncode.NativeArgsInRange | webp/encode.go:54-85 | through `Encode`, the native quality is always in (0,100] and never 0, so the native fault on quality 0 in lossless mode cannot be reached; the lossless argument is 1 exactly when a `Lossless()` option was given; with no options the call is lossy at quality 100 |

## Left out

- The native encoder (`lib.Encode`), `WebPPictureImportRGBA` and the function pointer built from a one-field struct are opaque foreign code. The native call is a function parameter from its quality and lossless arguments to its reply.
- The image: pixel normalisation through `image.NewRGBA`/`NewNRGBA` and `Set(x, y, m.At(x, y))` depends on Go's colour-model conversion. The width, height, stride and pixel address passed to the native call are therefore not modelled. The model covers non-empty images only: for an image with no pixels, `&rgbaImage.Pix[0]` (webp/encode.go:70, and `main.go:54` in the caller) panics with an index out of range after the clamp and before the native call, and the model has no such outcome.
- Output: copying `size` bytes from the native pointer with `libc.GoBytes` and `w.Write`, with its error wrapping, are I/O. `Produced(size)` marks the point where that step begins. A negative native size, which `int(size)` would pass to the copy, is classified as `Produced` and not followed further.
- Releasing the native output buffer is not modelled: `webp/encode.go` never frees it, so there is nothing to state.
- `runtime.LockOSThread`/`UnlockOSThread` (thread pinning) and `libc.NewTLS` are concurrency and runtime concerns. `bsearch`'s `tls` parameter is dropped.
- There is no separate check that rejects quality 0 together with lossless mode. The code has none, and the clamp already keeps quality 0 from reaching the native call through `Encode` (see `NativeArgsInRange`).
- Encoding options: in Go an option is any `func(*Encoder)`, so a caller can pass its own closure, which may set the fields to anything, or a nil one, which panics when `Encode` calls it (webp/encode.go:18). Only the package's own `Quality` and `Lossless` options are modelled, and `LastQualityWins`, `LosslessIffOption` and `NativeArgsInRange` do not hold for custom options.
- `main` and `run` in `main.go` are command-line and file I/O glue, including their own copy of the size and nil checks.
- WebpEncode.ClampQuality: quality is a `real`, not a `float32`. A NaN quality, which Go's comparisons do not clamp, and float32 rounding of `Quality*100` are not modelled.
- Bsearch.Bsearch: integers are unbounded. Overflow of `elements*size` in `uint64`, its conversion to `int`, and wrap-around of `base + ii` as a `uintptr` are excluded, because all addresses lie inside the memory array. The key is read from memory at address `key` as a little-endian `int32`. The Go code reads it with `*(*int32)(key)`, in the host's byte order, while elements are decoded little-endian byte by byte; the model assumes a little-endian host. On a big-endian host the key bytes `[0,0,0,7]` and an element with the same bytes would not match, which the model does not capture.
