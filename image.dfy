/** The magic-number image format detector: the format enumeration, its
    display names, the signature table, and the detector itself. */
module Image {
  import opened Bytes

  /** `ImageFormat` is declared over Go's `int`, whose width (32 or 64 bits)
      depends on the platform; this model fixes the 64-bit width. Any such
      value can be converted to it, not only the eight named ones; `String`
      behaves the same at either width. */
  newtype ImageFormat = x: int | -0x8000_0000_0000_0000 <= x < 0x8000_0000_0000_0000

  const UnknownFormat: ImageFormat := 0
  const JPEG: ImageFormat := 1
  const PNG: ImageFormat := 2
  const GIF: ImageFormat := 3
  const BMP: ImageFormat := 4
  const WEBP: ImageFormat := 5
  const TIFF: ImageFormat := 6
  /** Big-endian TIFF. */
  const TIFF_BE: ImageFormat := 7

  /** Display name of each declared format. */
  const ImageFormatNames: map<ImageFormat, string> := map[
    UnknownFormat := "Unknown",
    JPEG := "JPEG",
    PNG := "PNG",
    GIF := "GIF",
    BMP := "BMP",
    WEBP := "WEBP",
    TIFF := "TIFF",
    TIFF_BE := "TIFF_BE"
  ]

  /** Signature bytes each recognised format starts with. `UnknownFormat` has none. */
  const MagicNumbers: map<ImageFormat, seq<Byte>> := map[
    JPEG := [0xFF, 0xD8, 0xFF],
    PNG := [0x89, 0x50, 0x4E, 0x47, 0x0D, 0x0A, 0x1A, 0x0A],
    GIF := [0x47, 0x49, 0x46, 0x38],
    BMP := [0x42, 0x4D],
    // "RIFF": shared by every RIFF container, hence the extra "WEBP" check
    WEBP := [0x52, 0x49, 0x46, 0x46],
    // little-endian TIFF
    TIFF := [0x49, 0x49, 0x2A, 0x00],
    TIFF_BE := [0x4D, 0x4D, 0x00, 0x2A]
  ]

  /** Buffers shorter than this are refused. */
  const MinHeaderSize: nat := 16

  /** The ASCII bytes of "WEBP". */
  const WebpMarker: seq<Byte> := [0x57, 0x45, 0x42, 0x50]

  /** `ImageFormat.String`: the table name, or "Unknown" for any value
      outside the table. */
  function String(f: ImageFormat): (name: string)
    ensures f == UnknownFormat ==> name == "Unknown"
    ensures f == JPEG ==> name == "JPEG"
    ensures f == PNG ==> name == "PNG"
    ensures f == GIF ==> name == "GIF"
    ensures f == BMP ==> name == "BMP"
    ensures f == WEBP ==> name == "WEBP"
    ensures f == TIFF ==> name == "TIFF"
    ensures f == TIFF_BE ==> name == "TIFF_BE"
    ensures !(UnknownFormat <= f <= TIFF_BE) ==> name == "Unknown"
    ensures name == "Unknown" <==> (f == UnknownFormat || !(UnknownFormat <= f <= TIFF_BE))
  {
    if f in ImageFormatNames then ImageFormatNames[f] else "Unknown"
  }

  /** `Image`: a detected format with the bytes it was detected in. */
  datatype Image = Image(format: ImageFormat, content: seq<Byte>)

  /** The detector's one failure: fewer bytes than `MinHeaderSize`. */
  datatype Error = InsufficientData

  /** A successful result, or an error with no image (Go's `nil, err`). */
  datatype Result<T> = Success(value: T) | Failure(error: Error)

  /** `New`: ignores its argument and returns an empty image of format 0. */
  function New(data: seq<Byte>): (r: Result<Image>)
    ensures r.Success? && r.value.format == UnknownFormat && r.value.content == []
    ensures String(r.value.format) == "Unknown"
  {
    Success(Image(0, []))
  }

  /** One entry of the signature table, as a range over it yields it. */
  type Entry = (ImageFormat, seq<Byte>)

  /** The loop body's test: the entry's signature starts `data`, and, for WEBP,
      "WEBP" occurs somewhere in `data` (otherwise the candidate is skipped). */
  predicate Accepts(data: seq<Byte>, e: Entry)
    ensures e.0 != WEBP ==> (Accepts(data, e) <==> HasPrefix(data, e.1))
    ensures e.0 == WEBP ==> (Accepts(data, e) <==> HasPrefix(data, e.1) && Contains(data, WebpMarker))
  {
    HasPrefix(data, e.1) && !(e.0 == WEBP && !Contains(data, WebpMarker))
  }

  /** The order-free meaning of detection: `data` is recognised as format `f`
      when `f` has a signature and its table entry accepts `data`. */
  predicate Recognizes(data: seq<Byte>, f: ImageFormat)
    ensures Recognizes(data, f) ==> f in MagicNumbers && f != UnknownFormat && data != [] && data[0] == MagicNumbers[f][0]
  {
    f in MagicNumbers && Accepts(data, (f, MagicNumbers[f]))
  }

  /** `order` is one way a Go `range` can visit `MagicNumbers`: every entry
      exactly once, in some order the runtime picks. */
  predicate IsEnumeration(order: seq<Entry>)
    ensures IsEnumeration(order) ==> forall f | f in MagicNumbers :: (f, MagicNumbers[f]) in order
  {
    && (forall i | 0 <= i < |order| :: order[i].0 in MagicNumbers && MagicNumbers[order[i].0] == order[i].1)
    && (forall i, j | 0 <= i < j < |order| :: order[i].0 != order[j].0)
    && (forall f | f in MagicNumbers :: exists i | 0 <= i < |order| :: order[i].0 == f)
  }

  /** Entry `i` is the first entry of `entries` that accepts `data`. */
  predicate FirstAccepted(data: seq<Byte>, entries: seq<Entry>, i: int) {
    0 <= i < |entries| && Accepts(data, entries[i])
    && forall j | 0 <= j < i :: !Accepts(data, entries[j])
  }

  /** The matching loop over the entries in the order given: the format of
      the first accepting entry, or `UnknownFormat` once the entries run out. */
  function Scan(data: seq<Byte>, entries: seq<Entry>): (r: ImageFormat)
    ensures (exists i | 0 <= i < |entries| :: Accepts(data, entries[i])) ==>
              exists i | 0 <= i < |entries| :: FirstAccepted(data, entries, i) && r == entries[i].0
    ensures (forall i | 0 <= i < |entries| :: !Accepts(data, entries[i])) ==> r == UnknownFormat
    decreases |entries|
  {
    if entries == [] then UnknownFormat
    else if Accepts(data, entries[0]) then
      assert FirstAccepted(data, entries, 0);
      entries[0].0
    else
      var r := Scan(data, entries[1..]);
      assert forall i | 1 <= i < |entries| :: entries[i] == entries[1..][i - 1];
      assert forall i | 0 <= i < |entries[1..]| :: FirstAccepted(data, entries[1..], i) ==> FirstAccepted(data, entries, i + 1);
      r
  }

  /** `DetectImageFormat`, for the order `order` in which the map range visits
      the signature table. */
  function DetectImageFormat(data: seq<Byte>, order: seq<Entry>): (r: Result<Image>)
    requires IsEnumeration(order)
    ensures r.Failure? <==> |data| < MinHeaderSize
    ensures r.Failure? ==> r.error == InsufficientData
    ensures r.Success? ==> r.value.content == data
    ensures r.Success? && r.value.format != UnknownFormat ==> Recognizes(data, r.value.format)
    ensures r.Success? ==> (r.value.format == UnknownFormat <==> forall f :: !Recognizes(data, f))
  {
    if |data| < MinHeaderSize then Failure(InsufficientData)
    else
      var format := Scan(data, order);
      assert forall i | 0 <= i < |order| :: Accepts(data, order[i]) == Recognizes(data, order[i].0);
      assert (exists f :: Recognizes(data, f)) ==> exists i | 0 <= i < |order| :: Accepts(data, order[i]);
      assert UnknownFormat !in MagicNumbers;
      Success(Image(format, data))
  }

  /** `DetectImageFormat` as the loop it is written as: range over the
      entries, skip a RIFF candidate without "WEBP", return on the first match. */
  method DetectImageFormatLoop(data: seq<Byte>, order: seq<Entry>) returns (r: Result<Image>)
    requires IsEnumeration(order)
    ensures r == DetectImageFormat(data, order)
  {
    if |data| < MinHeaderSize {
      return Failure(InsufficientData);
    }
    for k := 0 to |order|
      invariant Scan(data, order[k..]) == Scan(data, order)
    {
      var (format, magic) := order[k];
      if HasPrefix(data, magic) {
        if format == WEBP && !Contains(data, WebpMarker) {
          assert order[k..][1..] == order[k + 1..];
          continue;
        }
        return Success(Image(format, data));
      }
      assert order[k..][1..] == order[k + 1..];
    }
    return Success(Image(UnknownFormat, data));
  }

  /** The signature table in the order it is declared in. */
  const DeclarationOrder: seq<Entry> := [
    (JPEG, MagicNumbers[JPEG]),
    (PNG, MagicNumbers[PNG]),
    (GIF, MagicNumbers[GIF]),
    (BMP, MagicNumbers[BMP]),
    (WEBP, MagicNumbers[WEBP]),
    (TIFF, MagicNumbers[TIFF]),
    (TIFF_BE, MagicNumbers[TIFF_BE])
  ]
}
