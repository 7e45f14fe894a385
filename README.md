# imagic: magic-number image format detection, modelled in Dafny

The modelled program classifies a byte buffer as one of seven image formats
(JPEG, PNG, GIF, BMP, WEBP, little- and big-endian TIFF) or as
`UnknownFormat`, by testing which entry of a constant signature table the
buffer starts with. A buffer shorter than 16 bytes is refused with an error.
A buffer that starts with the RIFF signature counts as WEBP only if the ASCII
bytes "WEBP" occur somewhere in it; otherwise that candidate is skipped.

Files:

- `bytes.dfy` (module `Bytes`): the byte type and the meaning of
  `bytes.HasPrefix` and `bytes.Contains`, as predicates over `seq<Byte>`.
- `image.dfy` (module `Image`): the `ImageFormat` type over Go's `int`
  (32 or 64 bits depending on the platform; the model fixes 64 bits, and
  nothing in the detector or in `String` depends on the width), the name table, the signature table, `String`, `Image`, `New`, and
  the detector. The detector is a recursive function `Scan` over the entries
  in the order the map range visits them, wrapped by `DetectImageFormat`.
  `DetectImageFormatLoop` is the same `for … range` loop with early return,
  proved equal to the function.
- `image_lemmas.dfy` (module `ImageLemmas`): facts about the signature table,
  independence from the iteration order, the classification of each kind of
  input, and concrete headers.

Go iterates a map in an unspecified order. `DetectImageFormat` therefore
takes the visiting order as a parameter `order`. The only constraint is
`IsEnumeration(order)`: every table entry appears exactly once. Since the
seven signatures have pairwise distinct first bytes, at most one format can
recognise a buffer (`AtMostOneRecognized`). So the result is the same for
every order (`DetectOrderIndependent`), and equal to the result of scanning
in declaration order (`DetectAsDeclarationOrder`).

Two behaviours of the code worth spelling out:

- On a short buffer, image.go:66-67 returns `nil` and an error, with no
  image and no format. The model returns `Failure(InsufficientData)`, which
  carries no image.
- The "WEBP" search at image.go:74 covers the whole buffer, not only its
  first 16 bytes. So a longer buffer whose marker lies past byte 16 is
  classified as WEBP (`WebpMarkerBeyondHeader`).

## Model

| member | source | states |
|---|---|---|
| `Bytes.HasPrefix` | image.go:72 | `bytes.HasPrefix`: the buffer is at least as long as the prefix and agrees with it byte by byte |
| `Bytes.Contains` | image.go:74 | `bytes.Contains`: the pattern starts at some offset of the buffer; the empty pattern and any prefix of the buffer are contained, and a contained pattern is no longer than the buffer |
| `Image.String` | image.go:45-49 | the documented literal name for each of the eight declared formats ("Unknown", "JPEG", …, "TIFF_BE"), "Unknown" for every other value; the result is "Unknown" exactly for `UnknownFormat` and for values outside the table |
| `Image.Accepts` | image.go:72-75 | the loop body's test: a non-WEBP entry is taken exactly when its signature prefixes the buffer; the WEBP entry exactly when "RIFF" prefixes the buffer and "WEBP" occurs in it (otherwise `continue`) |
| `Image.Recognizes` | image.go:34-42 | the order-free meaning of a match: the format has a signature and its entry accepts the buffer; such a format is never `UnknownFormat`, and the buffer's first byte is its signature's first byte |
| `Image.IsEnumeration` | image.go:71 | the orders a `range` over the signature table can take: each entry once, none twice, none invented; every table entry (format and signature) appears in the order |
| `Image.New` | image.go:57-62 | always succeeds with an image whose format is 0, `UnknownFormat` (named "Unknown"), and whose content is empty |
| `Image.Scan` | image.go:71-82 | the format of the first entry (in visiting order) whose signature prefixes the buffer and that is not a RIFF candidate lacking "WEBP"; `UnknownFormat` when no entry is accepted |
| `Image.DetectImageFormat` | image.go:65-83 | fails with `InsufficientData` exactly when the buffer has fewer than 16 bytes; on success the content is the input unchanged, a non-unknown format is one the table recognises, and the format is `UnknownFormat` exactly when no format recognises the buffer |
| `Image.DetectImageFormatLoop` | image.go:65-83 | the range loop with `continue` and early return computes the same result as `DetectImageFormat` for the same visiting order |
| `ImageLemmas.SignaturesFitWindow` | image.go:34-42 | every signature is non-empty and at most 16 bytes long |
| `ImageLemmas.SignatureFirstBytesDistinct` | image.go:34-42 | two different table entries have different first bytes |
| `ImageLemmas.NoSignaturePrefixOfAnother` | image.go:34-42 | no signature is a prefix of another signature |
| `ImageLemmas.AtMostOnePrefixMatch` | image.go:72 | if two signatures both prefix one buffer, they belong to the same format |
| `ImageLemmas.AtMostOneRecognized` | image.go:71-78 | at most one format recognises any buffer |
| `ImageLemmas.DetectOrderIndependent` | image.go:71-82 | the detector gives the same result for any two visiting orders of the table |
| `ImageLemmas.TableSize` | image.go:34-42 | seven formats have a signature |
| `ImageLemmas.VisitsAllFormats` | image.go:71 | a range over the table visits exactly the formats that have a signature |
| `ImageLemmas.EnumerationLength` | image.go:71 | a range over the table takes exactly seven steps, one per signature |
| `ImageLemmas.DeclarationOrderIsEnumeration` | image.go:34-42 | the table in declaration order visits every entry exactly once |
| `ImageLemmas.DetectAsDeclarationOrder` | image.go:71-82 | for every visiting order the result equals the result in declaration order |
| `ImageLemmas.DetectsRecognized` | image.go:71-78 | a buffer of 16 or more bytes that a format recognises is detected as exactly that format, with the buffer as content |
| `ImageLemmas.DetectsPlainSignature` | image.go:71-78 | a buffer of 16 or more bytes that starts with the JPEG, PNG, GIF, BMP, TIFF or TIFF_BE signature is detected as that format, without error |
| `ImageLemmas.DetectsWebp` | image.go:72-78 | a buffer of 16 or more bytes that starts with RIFF and contains "WEBP" is detected as WEBP |
| `ImageLemmas.RiffWithoutWebpIsUnknown` | image.go:74-82 | a buffer of 16 or more bytes that starts with RIFF but contains no "WEBP" is detected as `UnknownFormat`, without error |
| `ImageLemmas.NoMatchIsUnknown` | image.go:82 | a buffer of 16 or more bytes that no signature prefixes is detected as `UnknownFormat`, without error |
| `ImageLemmas.PrefixTestWithinHeader` | image.go:66-72 | for a buffer of 16 or more bytes, each signature's prefix test depends only on the first 16 bytes |
| `ImageLemmas.WebpMarkerBeyondHeader` | image.go:74 | a 20-byte RIFF buffer whose only "WEBP" starts at offset 16 is detected as WEBP, because the marker search covers the whole buffer |
| `ImageLemmas.WebpMarkerAnywhere` | image.go:74 | "WEBP" at offset 4 instead of the container's offset 8 still gives WEBP |
| `ImageLemmas.JpegHeader` | image.go:65-83 | a 16-byte JPEG/JFIF header is detected as JPEG |
| `ImageLemmas.PngHeader` | image.go:65-83 | a 16-byte PNG header is detected as PNG |
| `ImageLemmas.WebpHeader` | image.go:65-83 | the 16-byte header "RIFF", size, "WEBPVP8 " is detected as WEBP |
| `ImageLemmas.TenZeroBytes` | image.go:66-68 | ten zero bytes give `InsufficientData` and no image |
| `ImageLemmas.StringNamesDistinct` | image.go:22-31 | the eight declared formats have eight different display names |
| `ImageLemmas.NewIgnoresArgument` | image.go:57-62 | `New` gives the same result for every argument: an empty image of `UnknownFormat` |

## Left out

- main.go is not part of this model: file opening, reading the 16-byte
  header, closing, formatting and printing are I/O. Its matching loop is a
  copy of the one in image.go.
- The text of the error message and Go's `*Image`/`nil` pointers are modelled
  abstractly, by the `Result` datatype with the single error
  `InsufficientData`.
- The runtime's randomised map iteration order is not modelled. Every order
  that visits each entry once is allowed, through the `order` parameter.
- How the `bytes` package implements `HasPrefix` and `Contains` is not
  modelled. Only their documented meaning is: prefix equality, and an offset
  where the sub-slice starts.
- Sharing of the returned `Content` slice with the caller's `data` (aliasing)
  is not modelled. The model states only that the content equals the input.
