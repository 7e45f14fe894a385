/** What the signature table guarantees, and what the detector therefore
    computes whatever order the map range visits the table in. */
module ImageLemmas {
  import opened Bytes
  import opened Image

  /** Every signature is non-empty and fits in the minimum header. */
  lemma SignaturesFitWindow()
    ensures forall f | f in MagicNumbers :: 0 < |MagicNumbers[f]| <= MinHeaderSize
  {
  }

  /** The seven signatures begin with seven different bytes. */
  lemma SignatureFirstBytesDistinct(f: ImageFormat, g: ImageFormat)
    requires f in MagicNumbers && g in MagicNumbers && f != g
    ensures MagicNumbers[f][0] != MagicNumbers[g][0]
  {
  }

  /** No signature is a prefix of another one. */
  lemma NoSignaturePrefixOfAnother(f: ImageFormat, g: ImageFormat)
    requires f in MagicNumbers && g in MagicNumbers && f != g
    ensures !HasPrefix(MagicNumbers[g], MagicNumbers[f])
  {
    SignaturesFitWindow();
    SignatureFirstBytesDistinct(f, g);
  }

  /** At most one signature starts any buffer. */
  lemma AtMostOnePrefixMatch(data: seq<Byte>, f: ImageFormat, g: ImageFormat)
    requires f in MagicNumbers && g in MagicNumbers
    requires HasPrefix(data, MagicNumbers[f]) && HasPrefix(data, MagicNumbers[g])
    ensures f == g
  {
    if f != g {
      NoSignaturePrefixOfAnother(f, g);
      NoSignaturePrefixOfAnother(g, f);
      if |MagicNumbers[f]| <= |MagicNumbers[g]| {
        PrefixesNest(data, MagicNumbers[f], MagicNumbers[g]);
      } else {
        PrefixesNest(data, MagicNumbers[g], MagicNumbers[f]);
      }
    }
  }

  /** So at most one format recognises any buffer. */
  lemma AtMostOneRecognized(data: seq<Byte>, f: ImageFormat, g: ImageFormat)
    requires Recognizes(data, f) && Recognizes(data, g)
    ensures f == g
  {
    AtMostOnePrefixMatch(data, f, g);
  }

  /** The detector's result is the same for any two orders of the table. */
  lemma DetectOrderIndependent(data: seq<Byte>, order1: seq<Entry>, order2: seq<Entry>)
    requires IsEnumeration(order1) && IsEnumeration(order2)
    ensures DetectImageFormat(data, order1) == DetectImageFormat(data, order2)
  {
    var r1, r2 := DetectImageFormat(data, order1), DetectImageFormat(data, order2);
    if r1.Success? && r1.value.format != UnknownFormat && r2.value.format != UnknownFormat {
      AtMostOneRecognized(data, r1.value.format, r2.value.format);
    }
  }

  /** The table in declaration order is one of the orders a range may take. */
  lemma DeclarationOrderIsEnumeration()
    ensures IsEnumeration(DeclarationOrder)
  {
    forall f | f in MagicNumbers
      ensures exists i | 0 <= i < |DeclarationOrder| :: DeclarationOrder[i].0 == f
    {
      assert DeclarationOrder[(f as int) - 1].0 == f;
    }
  }

  /** The formats an order visits. */
  function VisitedFormats(order: seq<Entry>): set<ImageFormat> {
    set i | 0 <= i < |order| :: order[i].0
  }

  /** An order that visits no format twice visits as many formats as it has entries. */
  lemma {:induction false} DistinctVisitsCount(order: seq<Entry>)
    requires forall i, j | 0 <= i < j < |order| :: order[i].0 != order[j].0
    ensures |VisitedFormats(order)| == |order|
  {
    if order != [] {
      var init := order[..|order| - 1];
      DistinctVisitsCount(init);
      assert VisitedFormats(order) == VisitedFormats(init) + {order[|order| - 1].0};
      assert order[|order| - 1].0 !in VisitedFormats(init);
    }
  }

  /** A range over the table takes exactly seven steps, one per signature. */
  lemma EnumerationLength(order: seq<Entry>)
    requires IsEnumeration(order)
    ensures |order| == |MagicNumbers| == 7
  {
    VisitsAllFormats(order);
    DistinctVisitsCount(order);
    TableSize();
  }

  /** An enumeration visits exactly the formats that have a signature. */
  lemma VisitsAllFormats(order: seq<Entry>)
    requires IsEnumeration(order)
    ensures VisitedFormats(order) == MagicNumbers.Keys
  {
    forall f | f in MagicNumbers ensures f in VisitedFormats(order) {
      var i :| 0 <= i < |order| && order[i].0 == f;
    }
  }

  /** Seven formats have a signature. */
  lemma TableSize()
    ensures |MagicNumbers| == 7
  {
    assert MagicNumbers.Keys == {JPEG, PNG, GIF, BMP, WEBP, TIFF, TIFF_BE};
  }

  /** Whatever order the runtime picks, the result is the result of scanning
      the table in declaration order. */
  lemma DetectAsDeclarationOrder(data: seq<Byte>, order: seq<Entry>)
    requires IsEnumeration(order)
    ensures IsEnumeration(DeclarationOrder)
    ensures DetectImageFormat(data, order) == DetectImageFormat(data, DeclarationOrder)
  {
    DeclarationOrderIsEnumeration();
    DetectOrderIndependent(data, order, DeclarationOrder);
  }

  /** A long enough buffer recognised as `f` is detected as `f`. */
  lemma DetectsRecognized(data: seq<Byte>, order: seq<Entry>, f: ImageFormat)
    requires IsEnumeration(order) && |data| >= MinHeaderSize && Recognizes(data, f)
    ensures DetectImageFormat(data, order) == Success(Image(f, data))
  {
    var r := DetectImageFormat(data, order);
    AtMostOneRecognized(data, r.value.format, f);
  }

  /** A long enough buffer starting with a signature other than RIFF is
      detected as that signature's format. */
  lemma DetectsPlainSignature(data: seq<Byte>, order: seq<Entry>, f: ImageFormat)
    requires IsEnumeration(order) && |data| >= MinHeaderSize
    requires f in MagicNumbers && f != WEBP && HasPrefix(data, MagicNumbers[f])
    ensures DetectImageFormat(data, order) == Success(Image(f, data))
  {
    DetectsRecognized(data, order, f);
  }

  /** A long enough buffer starting with RIFF and containing "WEBP" is WEBP. */
  lemma DetectsWebp(data: seq<Byte>, order: seq<Entry>)
    requires IsEnumeration(order) && |data| >= MinHeaderSize
    requires HasPrefix(data, MagicNumbers[WEBP]) && Contains(data, WebpMarker)
    ensures DetectImageFormat(data, order) == Success(Image(WEBP, data))
  {
    DetectsRecognized(data, order, WEBP);
  }

  /** A long enough buffer starting with RIFF but holding no "WEBP" is of
      unknown format, and that is not an error: the candidate is skipped and
      no other signature starts with 0x52. */
  lemma RiffWithoutWebpIsUnknown(data: seq<Byte>, order: seq<Entry>)
    requires IsEnumeration(order) && |data| >= MinHeaderSize
    requires HasPrefix(data, MagicNumbers[WEBP]) && !Contains(data, WebpMarker)
    ensures DetectImageFormat(data, order) == Success(Image(UnknownFormat, data))
  {
    forall f | Recognizes(data, f) ensures false {
      AtMostOnePrefixMatch(data, f, WEBP);
    }
  }

  /** A long enough buffer that no signature starts is of unknown format,
      and that is not an error. */
  lemma NoMatchIsUnknown(data: seq<Byte>, order: seq<Entry>)
    requires IsEnumeration(order) && |data| >= MinHeaderSize
    requires forall f | f in MagicNumbers :: !HasPrefix(data, MagicNumbers[f])
    ensures DetectImageFormat(data, order) == Success(Image(UnknownFormat, data))
  {
  }

  /** Within a buffer of at least the minimum size, the prefix test of every
      signature looks only at the first `MinHeaderSize` bytes. */
  lemma PrefixTestWithinHeader(data: seq<Byte>, f: ImageFormat)
    requires |data| >= MinHeaderSize && f in MagicNumbers
    ensures HasPrefix(data, MagicNumbers[f]) <==> HasPrefix(data[..MinHeaderSize], MagicNumbers[f])
  {
  }

  /** The "WEBP" test searches the whole buffer, not only its first 16 bytes:
      a 20-byte RIFF buffer whose marker sits at offset 16 is WEBP. */
  lemma WebpMarkerBeyondHeader(order: seq<Entry>)
    requires IsEnumeration(order)
    ensures var data: seq<Byte> := [0x52, 0x49, 0x46, 0x46, 0, 0, 0, 0, 0, 0, 0, 0, 0, 0, 0, 0, 0x57, 0x45, 0x42, 0x50];
            !Contains(data[..MinHeaderSize], WebpMarker)
            && DetectImageFormat(data, order) == Success(Image(WEBP, data))
  {
    var data: seq<Byte> := [0x52, 0x49, 0x46, 0x46, 0, 0, 0, 0, 0, 0, 0, 0, 0, 0, 0, 0, 0x57, 0x45, 0x42, 0x50];
    assert OccursAt(data, WebpMarker, 16);
    forall i | 0 <= i <= MinHeaderSize - 4 ensures !OccursAt(data[..MinHeaderSize], WebpMarker, i) {
      assert data[..MinHeaderSize][i] != 0x57;
    }
    DetectsWebp(data, order);
  }

  /** The marker need not sit at offset 8 where a RIFF/WEBP container puts it:
      "RIFFWEBP" followed by zeros is WEBP too. */
  lemma WebpMarkerAnywhere(order: seq<Entry>)
    requires IsEnumeration(order)
    ensures var data: seq<Byte> := [0x52, 0x49, 0x46, 0x46, 0x57, 0x45, 0x42, 0x50, 0, 0, 0, 0, 0, 0, 0, 0];
            DetectImageFormat(data, order) == Success(Image(WEBP, data))
  {
    var data: seq<Byte> := [0x52, 0x49, 0x46, 0x46, 0x57, 0x45, 0x42, 0x50, 0, 0, 0, 0, 0, 0, 0, 0];
    assert OccursAt(data, WebpMarker, 4);
    DetectsWebp(data, order);
  }

  /** A JPEG/JFIF header is JPEG. */
  lemma JpegHeader(order: seq<Entry>)
    requires IsEnumeration(order)
    ensures var data: seq<Byte> := [0xFF, 0xD8, 0xFF, 0xE0, 0x00, 0x10, 0x4A, 0x46, 0x49, 0x46, 0x00, 0x01, 0x00, 0x00, 0x00, 0x01];
            DetectImageFormat(data, order) == Success(Image(JPEG, data))
  {
    var data: seq<Byte> := [0xFF, 0xD8, 0xFF, 0xE0, 0x00, 0x10, 0x4A, 0x46, 0x49, 0x46, 0x00, 0x01, 0x00, 0x00, 0x00, 0x01];
    DetectsPlainSignature(data, order, JPEG);
  }

  /** A PNG header up to its IHDR chunk is PNG. */
  lemma PngHeader(order: seq<Entry>)
    requires IsEnumeration(order)
    ensures var data: seq<Byte> := [0x89, 0x50, 0x4E, 0x47, 0x0D, 0x0A, 0x1A, 0x0A, 0x00, 0x00, 0x00, 0x0D, 0x49, 0x48, 0x44, 0x52];
            DetectImageFormat(data, order) == Success(Image(PNG, data))
  {
    var data: seq<Byte> := [0x89, 0x50, 0x4E, 0x47, 0x0D, 0x0A, 0x1A, 0x0A, 0x00, 0x00, 0x00, 0x0D, 0x49, 0x48, 0x44, 0x52];
    DetectsPlainSignature(data, order, PNG);
  }

  /** A RIFF/WEBP header ("RIFF", a size, "WEBPVP8 ") is WEBP. */
  lemma WebpHeader(order: seq<Entry>)
    requires IsEnumeration(order)
    ensures var data: seq<Byte> := [0x52, 0x49, 0x46, 0x46, 0x24, 0x00, 0x00, 0x00, 0x57, 0x45, 0x42, 0x50, 0x56, 0x50, 0x38, 0x20];
            DetectImageFormat(data, order) == Success(Image(WEBP, data))
  {
    var data: seq<Byte> := [0x52, 0x49, 0x46, 0x46, 0x24, 0x00, 0x00, 0x00, 0x57, 0x45, 0x42, 0x50, 0x56, 0x50, 0x38, 0x20];
    assert OccursAt(data, WebpMarker, 8);
    DetectsWebp(data, order);
  }

  /** Ten zero bytes are too few: an error and no image. */
  lemma TenZeroBytes(order: seq<Entry>)
    requires IsEnumeration(order)
    ensures DetectImageFormat(seq(10, _ => 0), order) == Failure(InsufficientData)
  {
  }

  /** The eight declared formats have eight different display names. */
  lemma StringNamesDistinct()
    ensures forall f, g | UnknownFormat <= f <= TIFF_BE && UnknownFormat <= g <= TIFF_BE && f != g :: String(f) != String(g)
  {
  }

  /** `New` ignores its argument. */
  lemma NewIgnoresArgument(a: seq<Byte>, b: seq<Byte>)
    ensures New(a) == New(b) == Success(Image(UnknownFormat, []))
  {
  }
}
