/** What the decoder of decoder/src/cpr.cpp accepts: every pair of frames and every single frame, whether or not they
    were encoded from one position.
  */
module CprGuards {
  import opened Wrappers
  import opened CprArithmetic
  import opened CprEncoder
  import opened CprDecoder
  import opened CprRecovery

  // ---------- local decoding ----------

  /** The longitude brought within half a turn of zero, for longitudes less than one and a half turns away. */
  lemma WrapLonExactly(lon: real)
    ensures -180.0 <= WrapLon(lon) <= 180.0 <==> -540.0 <= lon <= 540.0
    ensures WrapLon(lon) == if lon > 180.0 then lon - 360.0 else if lon < -180.0 then lon + 360.0 else lon
  {}

  /** The distance the guard measures to a representative within half a turn of the reference. */
  lemma GuardDistance(lon: real, reference: real)
    requires -180.0 < lon - reference <= 180.0 && -540.0 <= lon <= 540.0
    ensures LonDistance(WrapLon(lon), reference) <= 3.0
            <==> if lon > 180.0 then lon - reference <= 3.0
                 else if lon < -180.0 then reference - lon <= 3.0
                 else -3.0 <= lon - reference <= 3.0
  {}

  /** The height of the latitude zones of the standard, and the transmitted latitude in zone z. */
  function LatHeight(frame: Frame): real {
    if frame.format.Even? then 6.0 else 360.0 / 59.0
  }

  function LatIn(frame: Frame, z: int): real {
    LatHeight(frame) * (z as real + frame.latCpr as real / 131072.0)
  }

  /** The width of the longitude zones where NL is `zones`, and the transmitted longitude in zone z. */
  function LonWidth(frame: Frame, zones: int): real {
    var n := if frame.format.Even? then zones else zones - 1;
    if n >= 1 then 360.0 / n as real else 360.0
  }

  function LonIn(frame: Frame, zones: int, z: int): real {
    LonWidth(frame, zones) * (z as real + frame.lonCpr as real / 131072.0)
  }

  /** Main result: let lat and lon be the transmitted coordinates nearest to the reference, before any wrapping. The
      frame is accepted exactly when lat is a latitude, both are within three degrees of the reference and lon is at
      most one and a half turns from zero; for a reference longitude beyond 180 degrees the guard only looks in one
      direction.
    */
  lemma LocalDecodeExactly(frame: Frame, reference: Position, nl: real -> int, zLat: int, zLon: int)
    requires InHalfZone(LatIn(frame, zLat), reference.lat, LatHeight(frame))
    requires
      var zones := nl(LatIn(frame, zLat));
      InHalfZone(LonIn(frame, zones, zLon), reference.lon, LonWidth(frame, zones))
    ensures
      var lat := LatIn(frame, zLat);
      var lon := LonIn(frame, nl(lat), zLon);
      && (LocalDecode(frame, reference, nl).Some?
          <==> -90.0 <= lat <= 90.0 && -3.0 <= lat - reference.lat <= 3.0 && -540.0 <= lon <= 540.0
               && (lon >= -180.0 ==> lon - reference.lon <= 3.0) && (lon <= 180.0 ==> reference.lon - lon <= 3.0))
      && (-180.0 <= reference.lon <= 180.0 ==>
            (LocalDecode(frame, reference, nl).Some?
             <==> -90.0 <= lat <= 90.0 && -3.0 <= lat - reference.lat <= 3.0 && -3.0 <= lon - reference.lon <= 3.0))
      && match LocalDecode(frame, reference, nl)
         case None => true
         case Some(p) => p.lat == lat && -180.0 <= p.lon <= 180.0 && p.lon in {lon - 360.0, lon, lon + 360.0}
  {
    hide *;
    var lat, dLat := LatIn(frame, zLat), LatHeight(frame);
    var lon, dLon := LonIn(frame, nl(lat), zLon), LonWidth(frame, nl(lat));
    LocalParts(frame, nl(lat), zLat, zLon);
    NearestIs(reference.lat, dLat, Fraction(frame.latCpr), zLat, lat);
    NearestIs(reference.lon, dLon, Fraction(frame.lonCpr), zLon, lon);
    HalfTurn(lon, reference.lon, dLon);
    LocalDecodeFrom(frame, reference, nl, lat, lon);
    WrapLonExactly(lon);
    if -540.0 <= lon <= 540.0 {
      GuardDistance(lon, reference.lon);
    }
  }

  lemma LocalParts(frame: Frame, zones: int, zLat: int, zLon: int)
    ensures LatZone(frame.format) == LatHeight(frame) > 0.0
    ensures LonSpan(frame.format, zones) == LonWidth(frame, zones) && 0.0 < LonWidth(frame, zones) <= 360.0
    ensures LatIn(frame, zLat) == LatHeight(frame) * (zLat as real + Fraction(frame.latCpr))
    ensures LonIn(frame, zones, zLon) == LonWidth(frame, zones) * (zLon as real + Fraction(frame.lonCpr))
  {
    var n := LonZones(frame.format, zones);
    assert 360.0 / n as real * n as real == 360.0;
    ScaleLeq(360.0 / n as real, 1.0, n as real);
  }

  lemma HalfTurn(x: real, reference: real, d: real)
    requires d <= 360.0 && InHalfZone(x, reference, d)
    ensures -180.0 < x - reference <= 180.0
  {}

  lemma LocalDecodeFrom(frame: Frame, reference: Position, nl: real -> int, lat: real, lon: real)
    requires Nearest(reference.lat, LatZone(frame.format), Fraction(frame.latCpr)) == lat
    requires Nearest(reference.lon, LonSpan(frame.format, nl(lat)), Fraction(frame.lonCpr)) == lon
    ensures
      LocalDecode(frame, reference, nl)
      == if -90.0 <= lat <= 90.0 && -180.0 <= WrapLon(lon) <= 180.0 && -3.0 <= lat - reference.lat <= 3.0
           && LonDistance(WrapLon(lon), reference.lon) <= 3.0
         then Some(Position(lat, WrapLon(lon))) else None
  {
    hide Nearest, Fraction, LonSpan, WrapLon, LonDistance;
  }

  // ---------- global decoding ----------

  /** j is the integer nearest to x, halves rounded up. */
  predicate RoundsUpTo(x: real, j: int) {
    j as real - 0.5 <= x < j as real + 0.5
  }

  /** A 17-bit fraction. */
  predicate IsFraction(cpr: nat) {
    cpr < 131072
  }

  /** The index of a pair before it is rounded, for an axis of so many zones. */
  function ZoneOffset(zones: int, even: nat, odd: nat): real {
    (zones - 1) as real * (even as real / 131072.0) - zones as real * (odd as real / 131072.0)
  }

  lemma RoundedIs(zones: int, a: nat, b: nat, j: int)
    requires RoundsUpTo(ZoneOffset(zones, a, b), j)
    ensures ZoneIndex(zones, Fraction(a), Fraction(b)) == j
  {
    var x := ZoneOffset(zones, a, b);
    assert (x + 0.5).Floor == j;
  }

  /** Of all zones with the residue of the index the decoder takes the one south of 270 degrees. */
  lemma LatOfResidue(d: real, zones: int, index: int, z: int, c: real)
    requires (zones == 60 && d == 6.0) || (zones == 59 && d == 360.0 / 59.0)
    requires (z - index) % zones == 0 && 0.0 <= c < 1.0 && -90.0 <= d * (z as real + c) < 270.0
    ensures WrapLat(ZoneCoordinate(d, index, zones, c)) == d * (z as real + c)
  {
    hide Mod, ZoneCoordinate;
    ZoneCoordinateOf(d, index, zones, c);
    SameResidue(z, index, zones);
    assert -zones < z < zones;
    assert z % zones == if z >= 0 then z else z + zones;
    if zones == 60 {
      assert ZoneCoordinate(d, index, zones, c) == 6.0 * ((z % 60) as real + c);
    } else {
      assert ZoneCoordinate(d, index, zones, c) == 360.0 / 59.0 * ((z % 59) as real + c);
    }
  }

  lemma SameResidue(z: int, index: int, n: int)
    requires n > 0 && (z - index) % n == 0
    ensures z % n == index % n
  {
    var q := (z - index) / n;
    assert z - index == n * q;
    ResidueShift(index, q, n);
  }

  /** The longitude of a pair is a whole number of turns away from zone m and below a turn. */
  lemma LonOfResidue(n: int, m: int, c: real) returns (turns: int)
    requires n >= 1 && 0.0 <= c < 1.0
    ensures
      var lon := ZoneCoordinate(360.0 / n as real, m, n, c);
      0.0 <= lon < 360.0 && lon == 360.0 / n as real * (m as real + c) + 360.0 * turns as real
  {
    ResidueIsWholeTurns(n, m, m, c);
    turns := -(m / n);
    hide ZoneCoordinate;
  }

  /** The longitude that zone m of the even frame names. */
  function PairLon(even: Frame, zones: int, m: int): real {
    360.0 / (if zones >= 1 then zones else 1) as real * (m as real + even.lonCpr as real / 131072.0)
  }

  /** Main result: let j be the rounded latitude index and latE, latO the latitudes below 270 degrees in zones of its
      residues. A pair of frames, from one position or not, is accepted exactly when it is an even and an odd frame with
      the same NL at both latitudes and the even one does not lie beyond the pole. It is then decoded to latE and the
      longitude of zone m, the rounded longitude index, brought into (-180, 180].
    */
  lemma GlobalDecodeExactly(even: Frame, odd: Frame, nl: real -> int, j: int, zE: int, zO: int, m: int)
    returns (turns: int)
    requires IsFraction(even.latCpr) && IsFraction(even.lonCpr) && IsFraction(odd.latCpr)
    requires RoundsUpTo(ZoneOffset(60, even.latCpr, odd.latCpr), j)
    requires (zE - j) % 60 == 0 && -90.0 <= 6.0 * (zE as real + even.latCpr as real / 131072.0) < 270.0
    requires (zO - j) % 59 == 0 && -90.0 <= 360.0 / 59.0 * (zO as real + odd.latCpr as real / 131072.0) < 270.0
    requires
      var zones := nl(6.0 * (zE as real + even.latCpr as real / 131072.0));
      RoundsUpTo(ZoneOffset(zones, even.lonCpr, odd.lonCpr), m)
    ensures
      var latE := 6.0 * (zE as real + even.latCpr as real / 131072.0);
      var latO := 360.0 / 59.0 * (zO as real + odd.latCpr as real / 131072.0);
      && (GlobalDecode(even, odd, nl).Some?
          <==> even.format.Even? && odd.format.Odd? && nl(latE) == nl(latO) && latE <= 90.0)
      && match GlobalDecode(even, odd, nl)
         case None => true
         case Some(p) =>
           && p.lat == latE && -180.0 < p.lon <= 180.0
           && p.lon == PairLon(even, nl(latE), m) + 360.0 * turns as real
  {
    hide *;
    var latE := 6.0 * (zE as real + even.latCpr as real / 131072.0);
    var latO := 360.0 / 59.0 * (zO as real + odd.latCpr as real / 131072.0);
    var zones := nl(latE);
    var n := if zones >= 1 then zones else 1;
    var cE, cO, c := Fraction(even.latCpr), Fraction(odd.latCpr), Fraction(even.lonCpr);
    FractionIs(even.latCpr);
    FractionIs(odd.latCpr);
    FractionIs(even.lonCpr);
    RoundedIs(60, even.latCpr, odd.latCpr, j);
    RoundedIs(zones, even.lonCpr, odd.lonCpr, m);
    LatOfResidue(6.0, 60, j, zE, cE);
    LatOfResidue(360.0 / 59.0, 59, j, zO, cO);
    turns := LonOfResidue(n, m, c);
    var lon := ZoneCoordinate(360.0 / n as real, m, n, c);
    PairLonIs(even, zones, m);
    GlobalDecodeOf(even, odd, nl, j, latE, latO, lon);
    if lon > 180.0 {
      turns := turns - 1;
    }
  }

  lemma FractionIs(cpr: nat)
    requires IsFraction(cpr)
    ensures Fraction(cpr) == cpr as real / 131072.0 && 0.0 <= Fraction(cpr) < 1.0
  {}

  lemma PairLonIs(even: Frame, zones: int, m: int)
    ensures PairLon(even, zones, m)
            == 360.0 / (if zones >= 1 then zones else 1) as real * (m as real + Fraction(even.lonCpr))
  {}

  lemma GlobalDecodeOf(even: Frame, odd: Frame, nl: real -> int, j: int, latE: real, latO: real, lon: real)
    requires ZoneIndex(60, Fraction(even.latCpr), Fraction(odd.latCpr)) == j && -90.0 <= latE && 0.0 <= lon < 360.0
    requires WrapLat(ZoneCoordinate(6.0, j, 60, Fraction(even.latCpr))) == latE
    requires WrapLat(ZoneCoordinate(360.0 / 59.0, j, 59, Fraction(odd.latCpr))) == latO
    requires
      var n := if nl(latE) >= 1 then nl(latE) else 1;
      var m := ZoneIndex(nl(latE), Fraction(even.lonCpr), Fraction(odd.lonCpr));
      lon == ZoneCoordinate(360.0 / n as real, m, n, Fraction(even.lonCpr))
    ensures
      GlobalDecode(even, odd, nl)
      == if even.format.Even? && odd.format.Odd? && nl(latE) == nl(latO) && latE <= 90.0
         then Some(Position(latE, if lon > 180.0 then lon - 360.0 else lon)) else None
  {
    hide ZoneCoordinate, ZoneIndex, Fraction, WrapLat;
  }
}
