/** The GPS branch of the long-range radio reader. Each chunk read from the
    serial link is judged on its own, with no buffering across reads: a chunk
    whose first byte is 0x28 carries latitude in bytes 1..4 and longitude in
    bytes 5..8, big-endian, in units of 1e-7 degree. */
module RadioGps {
  import opened Optional
  import opened Bytes
  import opened Telemetry

  /** First byte of a chunk that carries a GPS fix. */
  const GpsTag: Byte := 0x28

  /** Python's slice `p[i:j]` for 0 <= i <= j: indices past the end are
      clamped, so a short chunk gives a short (possibly empty) slice. */
  function Slice(p: seq<Byte>, i: nat, j: nat): (r: seq<Byte>)
    requires i <= j
    ensures |r| == (if j <= |p| then j - i else if i <= |p| then |p| - i else 0)
    ensures forall k :: 0 <= k < |r| ==> r[k] == p[i + k]
  {
    if |p| <= i then [] else if |p| <= j then p[i..] else p[i..j]
  }

  function LatField(p: seq<Byte>): (f: seq<Byte>)
    ensures |f| <= 4
  {
    Slice(p, 1, 5)
  }

  function LonField(p: seq<Byte>): (f: seq<Byte>)
    ensures |f| <= 4
  {
    Slice(p, 5, 9)
  }

  /** A two's-complement reading of at most four bytes fits in 32 bits. */
  lemma SignedFieldIsInt32(f: seq<Byte>)
    requires |f| <= 4
    ensures IsInt32(FromBESigned(f))
  {
    if |f| == 4 {
      assert 128 * Pow256(3) == Int32Bound;
    } else if |f| == 3 {
      assert 128 * Pow256(2) < Int32Bound;
    } else if |f| == 2 {
      assert 128 * Pow256(1) < Int32Bound;
    }
  }

  /** An unsigned reading of at most four bytes lies in [0, 2^32). */
  lemma UnsignedFieldIsUint32(f: seq<Byte>)
    requires |f| <= 4
    ensures 0 <= FromBE(f) < Uint32Bound
  {
    if |f| == 4 {
      assert Pow256(4) == Uint32Bound;
    } else if |f| == 3 {
      assert Pow256(3) < Uint32Bound;
    } else if |f| == 2 {
      assert Pow256(2) < Uint32Bound;
    } else if |f| == 1 {
      assert Pow256(1) < Uint32Bound;
    }
  }

  /** Decoder of groundstation.py: a non-empty chunk tagged 0x28 gives a fix
      read as signed integers; anything else gives nothing. The `except`
      around the decode never fires, since slicing never fails. */
  function DecodeGps(p: seq<Byte>): (r: Option<GpsFix>)
    ensures r.Some? <==> |p| > 0 && p[0] == GpsTag
    ensures r.Some? ==> IsInt32(r.value.lat) && IsInt32(r.value.lon)
  {
    if |p| > 0 && p[0] == GpsTag then
      SignedFieldIsInt32(LatField(p));
      SignedFieldIsInt32(LonField(p));
      Some(GpsFix(FromBESigned(LatField(p)), FromBESigned(LonField(p))))
    else None
  }

  /** Decoder of groundstation/groundstation.py: the same layout read as
      unsigned integers. An empty chunk raises IndexError on `packet[0]`,
      which the surrounding `except` swallows, so it gives nothing too. */
  function DecodeGpsLegacy(p: seq<Byte>): (r: Option<GpsFix>)
    ensures r.Some? <==> |p| > 0 && p[0] == GpsTag
    ensures r.Some? ==> 0 <= r.value.lat < Uint32Bound && 0 <= r.value.lon < Uint32Bound
  {
    if |p| == 0 then None
    else if p[0] == GpsTag then
      UnsignedFieldIsUint32(LatField(p));
      UnsignedFieldIsUint32(LonField(p));
      Some(GpsFix(FromBE(LatField(p)), FromBE(LonField(p))))
    else None
  }

  /** The snapshot after one chunk, as groundstation.py applies it: only
      `gps` can change, and only for a chunk tagged 0x28. */
  function ApplyGps(t: Snapshot, p: seq<Byte>): (r: Snapshot)
    ensures r == t.(gps := r.gps)
    ensures !(|p| > 0 && p[0] == GpsTag) ==> r == t
    ensures |p| > 0 && p[0] == GpsTag ==> r.gps == DecodeGps(p).value
    ensures |p| > 0 && p[0] == GpsTag ==> IsInt32(r.gps.lat) && IsInt32(r.gps.lon)
  {
    match DecodeGps(p)
    case Some(fix) => t.(gps := fix)
    case None => t
  }

  /** The same for groundstation/groundstation.py, with the unsigned decode. */
  function ApplyGpsLegacy(t: Snapshot, p: seq<Byte>): (r: Snapshot)
    ensures r == t.(gps := r.gps)
    ensures !(|p| > 0 && p[0] == GpsTag) ==> r == t
    ensures |p| > 0 && p[0] == GpsTag ==> r.gps == DecodeGpsLegacy(p).value
    ensures |p| > 0 && p[0] == GpsTag ==> 0 <= r.gps.lat < Uint32Bound && 0 <= r.gps.lon < Uint32Bound
  {
    match DecodeGpsLegacy(p)
    case Some(fix) => t.(gps := fix)
    case None => t
  }

  /** The chunk a sender would write for a fix, followed by `tail`. */
  function EncodeGps(fix: GpsFix, tail: seq<Byte>): (p: seq<Byte>)
    requires IsInt32(fix.lat) && IsInt32(fix.lon)
    ensures |p| == 9 + |tail| && p[0] == GpsTag && p[9..] == tail
  {
    assert 128 * Pow256(3) == Int32Bound;
    [GpsTag] + ToBESigned(fix.lat, 4) + ToBESigned(fix.lon, 4) + tail
  }

  /** Decoding an encoded fix gives it back, whatever bytes follow. */
  lemma GpsRoundTrip(fix: GpsFix, tail: seq<Byte>)
    requires IsInt32(fix.lat) && IsInt32(fix.lon)
    ensures DecodeGps(EncodeGps(fix, tail)) == Some(fix)
  {
    assert 128 * Pow256(3) == Int32Bound;
    var p := EncodeGps(fix, tail);
    assert LatField(p) == ToBESigned(fix.lat, 4);
    assert LonField(p) == ToBESigned(fix.lon, 4);
    FromToBESigned(fix.lat, 4);
    FromToBESigned(fix.lon, 4);
  }

  /** Conversely, every complete GPS chunk is the encoding of what it decodes
      to, followed by whatever comes after byte 8: the decode loses nothing
      of bytes 0..8 and reads nothing beyond them. */
  lemma GpsChunkIsEncoding(p: seq<Byte>)
    requires |p| >= 9 && p[0] == GpsTag
    ensures p == EncodeGps(DecodeGps(p).value, p[9..])
    ensures DecodeGps(p) == DecodeGps(p[..9])
  {
    var lat, lon := LatField(p), LonField(p);
    assert lat == p[1..5] && lon == p[5..9];
    ToFromBESigned(lat);
    ToFromBESigned(lon);
    assert p == [p[0]] + p[1..5] + p[5..9] + p[9..];
    assert LatField(p[..9]) == lat && LonField(p[..9]) == lon;
  }

  /** A chunk shorter than nine bytes is not discarded: the short slices are
      read as they are, an empty one as 0. A lone tag byte resets the fix to
      (0, 0); a chunk of at most five bytes sets the longitude to 0, and a longer
      one reads the longitude from the one to three bytes after byte 4. */
  lemma TruncatedChunkStillDecodes(p: seq<Byte>)
    requires 1 <= |p| < 9 && p[0] == GpsTag
    ensures DecodeGps(p).Some?
    ensures |p| <= 5 ==> DecodeGps(p).value.lon == 0
    ensures |p| == 1 ==> DecodeGps(p) == Some(GpsFix(0, 0))
    ensures DecodeGps(p).value.lat == FromBESigned(p[1..if |p| < 5 then |p| else 5])
    ensures |p| > 5 ==> DecodeGps(p).value.lon == FromBESigned(p[5..])
  {
    assert LatField(p) == p[1..if |p| < 5 then |p| else 5];
    if |p| > 5 {
      assert LonField(p) == p[5..];
    }
  }

  /** An example chunk: payload 00 00 00 0A 00 00 00 05 after the tag is
      the fix (10, 5), that is (0.000001, 0.0000005) degrees. */
  lemma DecodeExample()
    ensures DecodeGps([0x28, 0, 0, 0, 10, 0, 0, 0, 5]) == Some(GpsFix(10, 5))
    ensures Degrees(10) == 0.000001 && Degrees(5) == 0.0000005
  {
    var p: seq<Byte> := [0x28, 0, 0, 0, 10, 0, 0, 0, 5];
    assert LatField(p) == [0, 0, 0, 10];
    assert LonField(p) == [0, 0, 0, 5];
    SmallField(10);
    SmallField(5);
  }

  /** A four-byte field holding a single low byte reads as that byte. */
  lemma SmallField(b: Byte)
    ensures FromBE([0, 0, 0, b]) == b
  {
    assert [b][1..] == [];
    assert FromBE([b]) == b;
    assert [0, b][1..] == [b];
    assert FromBE([0, b]) == b;
    assert [0, 0, b][1..] == [0, b];
    assert FromBE([0, 0, b]) == b;
    assert [0, 0, 0, b][1..] == [0, 0, b];
  }

  /** Both decoders accept the same chunks. On each field the unsigned
      reading equals the signed one when the field's top bit is clear and
      exceeds it by 256^n, for an n-byte field, when it is set; for a
      complete chunk that is exactly 2^32. */
  lemma LegacyVersusSigned(p: seq<Byte>)
    requires |p| > 0 && p[0] == GpsTag
    ensures DecodeGpsLegacy(p).Some? && DecodeGps(p).Some?
    ensures var s, u := DecodeGps(p).value, DecodeGpsLegacy(p).value;
      && u.lat == s.lat + (if s.lat < 0 then Pow256(|LatField(p)|) else 0)
      && u.lon == s.lon + (if s.lon < 0 then Pow256(|LonField(p)|) else 0)
    ensures |p| >= 9 ==>
      var s, u := DecodeGps(p).value, DecodeGpsLegacy(p).value;
      && u.lat == s.lat + (if s.lat < 0 then Uint32Bound else 0)
      && u.lon == s.lon + (if s.lon < 0 then Uint32Bound else 0)
  {
    UnsignedVersusSigned(LatField(p));
    UnsignedVersusSigned(LonField(p));
    assert Pow256(4) == Uint32Bound;
  }
}
