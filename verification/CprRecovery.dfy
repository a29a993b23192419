/** The decoder inverts the encoder: global decoding, RTCA DO-260B section A.1.7.7, and
    local decoding, section A.1.7.5.
  */
module CprRecovery {
  import opened Wrappers
  import opened CprArithmetic
  import opened CprEncoder
  import opened CprDecoder

  // ---------- global decoding: latitude ----------

  lemma ZoneCoordinateOf(d: real, index: int, zones: int, c: real)
    requires zones > 0
    ensures ZoneCoordinate(d, index, zones, c) == d * ((index % zones) as real + c)
  {
    hide Mod;
    ModOfInteger(index, zones);
  }

  /** A zone between -15 and 15 is the one its residue names, once latitudes wrap at 270 degrees. */
  lemma LatFromResidue(d: real, zones: int, index: int, z: int, c: real, x: real)
    requires (zones == 60 && d == 6.0) || (zones == 59 && d == 360.0 / 59.0)
    requires index % zones == z % zones
    requires -15 <= z <= 15 && 0.0 <= c < 1.0 && x == d * (z as real + c) && -90.0 <= x <= 90.0
    ensures WrapLat(ZoneCoordinate(d, index, zones, c)) == x
  {
    hide Mod, ZoneCoordinate;
    ZoneCoordinateOf(d, index, zones, c);
    assert z % zones == if z >= 0 then z else z + zones;
    if zones == 60 {
      assert ZoneCoordinate(d, index, zones, c) == 6.0 * ((z % 60) as real + c);
    } else {
      assert ZoneCoordinate(d, index, zones, c) == 360.0 / 59.0 * ((z % 59) as real + c);
    }
  }

  lemma QuotientRange(x: real, d: real, b: real)
    requires d > 0.0 && -(d * b) <= x <= d * b
    ensures -b <= x / d <= b
  {
    var u := x / d;
    assert x == d * u;
    assert d * -b == -(d * b);
    if u > b { ScaleLess(d, b, u); }
    if u < -b { ScaleLess(d, u, -b); }
  }

  /** Rounding to the grid keeps a coordinate on its side of every grid line. */
  lemma GridStaysInside(x: real, d: real, b: real, lines: int)
    requires d > 0.0 && lines >= 0 && b * 131072.0 == lines as real
    requires -(d * b) <= x <= d * b
    ensures -(d * b) <= GridPoint(x, d) <= d * b
    ensures -b <= Zone(x, d) as real + Fraction(EncodeAxis(x, d)) <= b
  {
    hide *;
    var v := Zone(x, d) as real + Fraction(EncodeAxis(x, d));
    QuotientRange(x, d, b);
    GridIndex(x, d);
    RoundingStaysInside(x / d, b, lines);
    GridPointOfZone(x, d);
    ScaleLeq(d, v, b);
    ScaleLeq(d, -b, v);
    assert d * -b == -(d * b);
  }

  lemma RoundingStaysInside(u: real, b: real, lines: int)
    requires b * 131072.0 == lines as real
    requires -b <= u <= b
    ensures -b * 131072.0 <= (131072.0 * u + 0.5).Floor as real <= b * 131072.0
  {
    var k := (131072.0 * u + 0.5).Floor;
    assert -lines <= k <= lines;
  }

  lemma AxisRecovered(x: real, d: real, zones: int, index: int)
    requires (zones == 60 && d == 6.0) || (zones == 59 && d == 360.0 / 59.0)
    requires -90.0 <= x <= 90.0
    requires index % zones == Zone(x, d) % zones
    ensures WrapLat(ZoneCoordinate(d, index, zones, Fraction(EncodeAxis(x, d)))) == GridPoint(x, d)
    ensures -90.0 <= GridPoint(x, d) <= 90.0
  {
    hide *;
    GridPointOfZone(x, d);
    var b, lines := if zones == 60 then 15.0 else 14.75, if zones == 60 then 1966080 else 1933312;
    assert b * 131072.0 == lines as real;
    assert d * b == 90.0;
    GridStaysInside(x, d, b, lines);
    LatFromResidue(d, zones, index, Zone(x, d), Fraction(EncodeAxis(x, d)), GridPoint(x, d));
  }

  /** Both latitudes are recovered exactly as transmitted, whichever hemisphere they are in. */
  lemma LatitudeRecovered(latE: real, latO: real)
    requires -90.0 <= latE <= 90.0 && -90.0 <= latO <= 90.0
    requires WithinMotion(60, latE - latO)
    ensures
      var cE, cO := Fraction(EncodeAxis(latE, D_LAT_EVEN)), Fraction(EncodeAxis(latO, D_LAT_ODD));
      var j := ZoneIndex(60, cE, cO);
      && WrapLat(ZoneCoordinate(D_LAT_EVEN, j, 60, cE)) == GridPoint(latE, D_LAT_EVEN)
      && WrapLat(ZoneCoordinate(D_LAT_ODD, j, 59, cO)) == GridPoint(latO, D_LAT_ODD)
    ensures -90.0 <= GridPoint(latE, D_LAT_EVEN) <= 90.0
    ensures Abs(GridPoint(latE, D_LAT_EVEN) - latE) <= D_LAT_EVEN / 262144.0
    ensures Abs(GridPoint(latO, D_LAT_ODD) - latO) <= D_LAT_ODD / 262144.0
  {
    hide Abs, GridPoint, Bin, Mod, ZoneCoordinate, ZoneIndex, EncodeAxis, Zone, WrapLat, WithinMotion;
    HalfBinSymmetric(latE, D_LAT_EVEN);
    HalfBinSymmetric(latO, D_LAT_ODD);
    var cE, cO := Fraction(EncodeAxis(latE, D_LAT_EVEN)), Fraction(EncodeAxis(latO, D_LAT_ODD));
    var j := ZoneIndex(60, cE, cO);
    var zE, zO := Zone(latE, D_LAT_EVEN), Zone(latO, D_LAT_ODD);
    IndexIsExact(60, latE, latO);
    IndexResidues(60, zE, zO);
    AxisRecovered(latE, D_LAT_EVEN, 60, j);
    AxisRecovered(latO, D_LAT_ODD, 59, j);
  }

  // ---------- global decoding: longitude ----------

  /** The coordinate of a residue differs from that of the zone by whole turns. */
  lemma ResidueIsWholeTurns(n: int, index: int, z: int, c: real)
    requires n >= 1 && index % n == z % n && 0.0 <= c < 1.0
    ensures ZoneCoordinate(360.0 / n as real, index, n, c)
            == 360.0 / n as real * (z as real + c) - 360.0 * (z / n) as real
    ensures 0.0 <= ZoneCoordinate(360.0 / n as real, index, n, c) < 360.0
  {
    hide *;
    var d, q, r := 360.0 / n as real, z / n, z % n;
    ZoneCoordinateOf(d, index, n, c);
    WholeTurns(d, n as real, z as real, q as real, r as real, c) by {
      assert z == n * q + r;
      assert (n * q) as real == n as real * q as real;
    }
  }

  lemma WholeTurns(d: real, n: real, z: real, q: real, r: real, c: real)
    requires n >= 1.0 && d == 360.0 / n && z == n * q + r && 0.0 <= r <= n - 1.0 && 0.0 <= c < 1.0
    ensures d * (r + c) == d * (z + c) - 360.0 * q
    ensures 0.0 <= d * (r + c) < 360.0
  {
    assert d * n == 360.0;
    assert d * (n * q) == 360.0 * q;
    Distribute(d, z + c, n * q, r, c);
    Distribute(d, r + c, 0.0, r, c);
    ProductBelow(d, r + c, n, 360.0);
  }

  lemma QuotientOfShifted(d: real, x: real, z: real, m: real)
    requires d > 0.0 && z == x + d * m
    ensures z / d == x / d + m
  {
    var u := x / d;
    assert x == d * u;
    assert z == d * (u + m);
  }

  lemma RemainderOfShifted(d: real, x: real, z: real, m: real, f: real, g: real)
    requires z == x + d * m && g == f + m
    ensures z - d * g == x - d * f
  {
    assert d * g == d * f + d * m;
  }

  lemma FloorOfSum(u: real, v: real, m: int)
    requires v == u + m as real
    ensures v.Floor == u.Floor + m
  {}

  /** A shift by whole moduli is invisible to the remainder. */
  lemma ModOfShifted(d: real, x: real, z: real, m: int)
    requires d > 0.0 && z == x + d * m as real
    ensures Mod(z, d) == Mod(x, d)
  {
    hide *;
    var u, v := x / d, z / d;
    QuotientOfShifted(d, x, z, m as real);
    FloorOfSum(u, v, m);
    RemainderOfShifted(d, x, z, m as real, u.Floor as real, v.Floor as real);
  }

  /** A whole turn leaves the transmitted fraction as it is. */
  lemma TurnsAreInvisible(n: int, d: real, lon: real, turns: int)
    requires n >= 1 && d == 360.0 / n as real
    ensures EncodeAxis(Turned(lon, turns), d) == EncodeAxis(lon, d)
  {
    hide *;
    TurnsInZones(n, d, turns);
    assert Turned(lon, turns) == lon + 360.0 * turns as real by { TurnedIs(lon, turns); }
    ModOfShifted(d, lon, Turned(lon, turns), n * turns);
    AxisFollowsMod(lon, Turned(lon, turns), d);
  }

  lemma TurnedIs(lon: real, turns: int)
    ensures Turned(lon, turns) == lon + 360.0 * turns as real
  {}

  lemma TurnsInZones(n: int, d: real, turns: int)
    requires n >= 1 && d == 360.0 / n as real
    ensures d > 0.0 && d * (n * turns) as real == 360.0 * turns as real
  {
    assert (n * turns) as real == n as real * turns as real;
    assert d * n as real == 360.0;
    assert d * (n as real * turns as real) == d * n as real * turns as real;
  }

  lemma AxisFollowsMod(x: real, y: real, d: real)
    requires d > 0.0 && Mod(x, d) == Mod(y, d)
    ensures EncodeAxis(x, d) == EncodeAxis(y, d)
  {
    hide Mod;
  }

  /** Positions any number of turns around are sent alike. */
  lemma EncodeIgnoresTurns(format: Format, lat: real, lon: real, turns: int, nl: real -> int)
    ensures Encode(format, lat, Turned(lon, turns), nl) == Encode(format, lat, lon, nl)
  {
    hide Bin, EncodeAxis, GridPoint, Turned, LonZones;
    var zones := nl(GridPoint(lat, LatZone(format)));
    LonSpanIs(format, zones);
    TurnsAreInvisible(LonZones(format, zones), LonSpan(format, zones), lon, turns);
  }

  /** With NL zones shared by both frames the transmitted even longitude is recovered up to whole turns, the motion
      between the frames measured the shorter way around, across the antimeridian too.
    */
  lemma LongitudeRecovered(n: int, lonE: real, lonO: real, around: int) returns (turns: int)
    requires n >= 1 && (n == 1 || WithinMotion(n, lonE - Turned(lonO, around)))
    ensures
      var d := LonSpan(Even, n);
      var cE, cO := Fraction(EncodeAxis(lonE, d)), Fraction(EncodeAxis(lonO, LonSpan(Odd, n)));
      var lon := ZoneCoordinate(d, ZoneIndex(n, cE, cO), n, cE);
      lon == GridPoint(lonE, d) + 360.0 * turns as real && 0.0 <= lon < 360.0
  {
    hide *;
    var d := LonSpan(Even, n);
    GridPointOfZone(lonE, d);
    LonIndexResidue(n, lonE, Turned(lonO, around));
    LonSpanIs(Odd, n);
    TurnsAreInvisible(LonZones(Odd, n), LonSpan(Odd, n), lonO, around);
    var z, cE := Zone(lonE, d), Fraction(EncodeAxis(lonE, d));
    assert d == 360.0 / n as real by { LonSpanOf(n); }
    ResidueIsWholeTurns(n, ZoneIndex(n, cE, Fraction(EncodeAxis(lonO, LonSpan(Odd, n)))), z, cE);
    turns := -(z / n);
  }

  lemma LonSpanOf(n: int)
    requires n >= 1
    ensures LonSpan(Even, n) == 360.0 / n as real
    ensures n >= 2 ==> LonSpan(Odd, n) == 360.0 / (n - 1) as real
  {}

  lemma LonIndexResidue(n: int, lonE: real, lonO: real)
    requires n >= 1 && (n == 1 || WithinMotion(n, lonE - lonO))
    ensures
      var cE, cO := Fraction(EncodeAxis(lonE, LonSpan(Even, n))), Fraction(EncodeAxis(lonO, LonSpan(Odd, n)));
      ZoneIndex(n, cE, cO) % n == Zone(lonE, LonSpan(Even, n)) % n
  {
    hide *;
    LonSpanOf(n);
    if n >= 2 {
      IndexIsExact(n, lonE, lonO);
      IndexResidues(n, Zone(lonE, LonSpan(Even, n)), Zone(lonO, LonSpan(Odd, n)));
    }
  }

  // ---------- global decoding: both coordinates ----------

  /** The decoded longitude is the given one, some whole number of turns away, to within half a bin. */
  ghost predicate SameLongitude(decoded: real, lon: real, zones: int)
    requires zones >= 1
  {
    var d := 360.0 / zones as real;
    exists turns: int ::
      decoded == Turned(GridPoint(lon, d), turns) && Abs(decoded - Turned(lon, turns)) <= d / 262144.0
  }

  function Turned(lon: real, turns: int): real {
    lon + 360.0 * turns as real
  }

  lemma SameLongitudeOf(decoded: real, lon: real, zones: int, turns: int)
    requires zones >= 1 && decoded == Turned(GridPoint(lon, 360.0 / zones as real), turns)
    ensures SameLongitude(decoded, lon, zones)
  {
    var d := 360.0 / zones as real;
    HalfBin(lon, d);
    hide GridPoint, Bin, Mod;
    assert lon - GridPoint(lon, d) == Turned(lon, turns) - decoded;
    assert d * (1.0 / 262144.0) == d / 262144.0;
  }

  /** The longitude of a pair of frames before it is brought below 180 degrees. */
  function PairLongitude(even: Frame, odd: Frame, n: int): real
    requires n >= 1
  {
    ZoneCoordinate(360.0 / n as real, ZoneIndex(n, Fraction(even.lonCpr), Fraction(odd.lonCpr)), n,
                   Fraction(even.lonCpr))
  }

  function PairIndex(even: Frame, odd: Frame): int {
    ZoneIndex(60, Fraction(even.latCpr), Fraction(odd.latCpr))
  }

  /** Global decoding put together from the latitudes and the longitude it computes. */
  lemma GlobalDecodeFrom(even: Frame, odd: Frame, nl: real -> int, latE: real, latO: real)
    requires even.format.Even? && odd.format.Odd? && nl(latE) >= 1
    requires WrapLat(ZoneCoordinate(D_LAT_EVEN, PairIndex(even, odd), 60, Fraction(even.latCpr))) == latE
    requires WrapLat(ZoneCoordinate(D_LAT_ODD, PairIndex(even, odd), 59, Fraction(odd.latCpr))) == latO
    ensures
      GlobalDecode(even, odd, nl)
      == if nl(latE) != nl(latO) then None
         else
           var lon := PairLongitude(even, odd, nl(latE));
           var p := Position(latE, if lon > 180.0 then lon - 360.0 else lon);
           if InRange(p) then Some(p) else None
  {
    hide ZoneCoordinate, ZoneIndex, Fraction, WrapLat, InRange;
  }

  lemma EncodedFrame(format: Format, lat: real, lon: real, nl: real -> int)
    ensures
      var d := LatZone(format);
      Encode(format, lat, lon, nl)
        == Frame(format, EncodeAxis(lat, d), EncodeAxis(lon, LonSpan(format, nl(GridPoint(lat, d)))))
    ensures LatZone(Even) == D_LAT_EVEN && LatZone(Odd) == D_LAT_ODD
  {}

  /** Main result: two frames encoded from positions that moved little between them, the odd longitude taken any number
      of turns around so that the antimeridian is no exception, decode to the transmitted
      even position whenever both transmitted latitudes have the same NL, and are refused otherwise.
    */
  lemma GlobalDecodeInvertsEncode(e: Position, o: Position, around: int, nl: real -> int)
    requires -90.0 <= e.lat <= 90.0 && -90.0 <= o.lat <= 90.0
    requires WithinMotion(60, e.lat - o.lat)
    requires nl(GridPoint(e.lat, D_LAT_EVEN)) >= 1
    requires
      var n := nl(GridPoint(e.lat, D_LAT_EVEN));
      n == 1 || WithinMotion(n, e.lon - Turned(o.lon, around))
    ensures
      var n := nl(GridPoint(e.lat, D_LAT_EVEN));
      match GlobalDecode(Encode(Even, e.lat, e.lon, nl), Encode(Odd, o.lat, o.lon, nl), nl)
      case None => n != nl(GridPoint(o.lat, D_LAT_ODD))
      case Some(p) =>
        && n == nl(GridPoint(o.lat, D_LAT_ODD))
        && p.lat == GridPoint(e.lat, D_LAT_EVEN) && Abs(p.lat - e.lat) <= 6.0 / 262144.0
        && SameLongitude(p.lon, e.lon, n) && -180.0 < p.lon <= 180.0
  {
    hide GridPoint, Zone, EncodeAxis, Encode, Fraction, Bin, Mod, ZoneCoordinate, ZoneIndex, WithinMotion,
         SameLongitude,
         Abs, GlobalDecode, PairIndex, PairLongitude, InRange, WrapLat, Turned, LonSpan;
    var even, odd := Encode(Even, e.lat, e.lon, nl), Encode(Odd, o.lat, o.lon, nl);
    var rE, rO := GridPoint(e.lat, D_LAT_EVEN), GridPoint(o.lat, D_LAT_ODD);
    var n := nl(rE);
    EncodedFrame(Even, e.lat, e.lon, nl);
    EncodedFrame(Odd, o.lat, o.lon, nl);
    LatitudeRecovered(e.lat, o.lat);
    PairParts(even, odd, n);
    GlobalDecodeFrom(even, odd, nl, rE, rO);
    if n == nl(rO) {
      LonSpanOf(n);
      var turns := LongitudeRecovered(n, e.lon, o.lon, around);
      WrappedLongitude(PairLongitude(even, odd, n), e.lon, n, turns);
      PairInRange(rE, PairLongitude(even, odd, n));
    }
  }

  lemma PairParts(even: Frame, odd: Frame, n: int)
    requires n >= 1
    ensures PairIndex(even, odd) == ZoneIndex(60, Fraction(even.latCpr), Fraction(odd.latCpr))
    ensures PairLongitude(even, odd, n)
            == ZoneCoordinate(360.0 / n as real, ZoneIndex(n, Fraction(even.lonCpr), Fraction(odd.lonCpr)), n,
                              Fraction(even.lonCpr))
    ensures LonSpan(Even, n) == 360.0 / n as real
    ensures D_LAT_EVEN / 262144.0 == 6.0 / 262144.0
  {
    hide ZoneIndex, ZoneCoordinate, Fraction;
  }

  lemma WrappedLongitude(lon: real, encoded: real, n: int, turns: int)
    requires n >= 1 && lon == GridPoint(encoded, 360.0 / n as real) + 360.0 * turns as real
    ensures SameLongitude(if lon > 180.0 then lon - 360.0 else lon, encoded, n)
  {
    hide GridPoint, SameLongitude;
    SameLongitudeOf(if lon > 180.0 then lon - 360.0 else lon, encoded, n, if lon > 180.0 then turns - 1 else turns);
  }

  lemma PairInRange(lat: real, lon: real)
    requires -90.0 <= lat <= 90.0 && 0.0 <= lon < 360.0
    ensures
      var wrapped := if lon > 180.0 then lon - 360.0 else lon;
      -180.0 < wrapped <= 180.0 && InRange(Position(lat, wrapped))
  {}

  // ---------- local decoding ----------

  /** x lies within half a zone of the reference, the upper end included. */
  predicate InHalfZone(x: real, reference: real, d: real) {
    -0.5 * d < x - reference <= 0.5 * d
  }

  lemma NearestIndexRounds(reference: real, d: real, c: real)
    requires d > 0.0
    ensures NearestIndex(reference, d, c) == (reference / d - c + 0.5).Floor
  {
    var t := reference / d;
    assert Mod(reference, d) / d == t - t.Floor as real by {
      assert reference == d * t;
      assert Mod(reference, d) == d * (t - t.Floor as real);
    }
  }

  /** The decoder's zone index is the only one that puts the fraction within half a zone of the reference. */
  lemma NearestIsUnique(reference: real, d: real, c: real, k: int)
    requires d > 0.0
    ensures InHalfZone(d * (k as real + c), reference, d) <==> k == NearestIndex(reference, d, c)
  {
    NearestIndexRounds(reference, d, c);
    hide NearestIndex;
    var t := reference / d;
    var w := k as real + c - t;
    assert k == (t - c + 0.5).Floor <==> -0.5 < w <= 0.5;
    assert d * (k as real + c) - reference == d * w by { assert reference == d * t; }
    if w <= -0.5 { ScaleLeq(d, w, -0.5); } else { ScaleLess(d, -0.5, w); }
    if w <= 0.5 { ScaleLeq(d, w, 0.5); } else { ScaleLess(d, 0.5, w); }
  }

  lemma NearestIs(reference: real, d: real, c: real, k: int, x: real)
    requires d > 0.0 && x == d * (k as real + c) && InHalfZone(x, reference, d)
    ensures Nearest(reference, d, c) == x
  {
    NearestIsUnique(reference, d, c, k);
  }

  /** A whole turn is a whole number of zones. */
  lemma TurnsAreZones(n: int, d: real, z: int, c: real, turns: int, x: real)
    requires n >= 1 && d == 360.0 / n as real && x == d * (z as real + c)
    ensures Turned(x, turns) == d * ((z + n * turns) as real + c)
  {
    assert d * n as real == 360.0;
    assert (n * turns) as real == n as real * turns as real;
    assert d * (n as real * turns as real) == 360.0 * turns as real;
    Distribute(d, (z + n * turns) as real + c, z as real, c, n as real * turns as real);
    Distribute(d, z as real + c, z as real, c, 0.0);
  }

  /** Main result: a frame is decoded to the position it transmits whenever that position lies
      within half a zone of the reference, longitudes taken any number of turns around; only
      the final plausibility check can refuse it.
    */
  lemma LocalDecodeInvertsEncode(format: Format, pos: Position, reference: Position, turns: int, nl: real -> int)
    requires InHalfZone(GridPoint(pos.lat, LatZone(format)), reference.lat, LatZone(format))
    requires
      var d := LonSpan(format, nl(GridPoint(pos.lat, LatZone(format))));
      InHalfZone(Turned(GridPoint(pos.lon, d), turns), reference.lon, d)
    ensures
      var lat := GridPoint(pos.lat, LatZone(format));
      var d := LonSpan(format, nl(lat));
      var p := Position(lat, WrapLon(Turned(GridPoint(pos.lon, d), turns)));
      && Abs(lat - pos.lat) <= LatZone(format) / 262144.0
      && Abs(GridPoint(pos.lon, d) - pos.lon) <= d / 262144.0
      && LocalDecode(Encode(format, pos.lat, pos.lon, nl), reference, nl)
         == if Plausible(p, reference) then Some(p) else None
  {
    hide Bin, Mod, EncodeAxis, Fraction, Nearest, NearestIndex, GridPoint, Zone, InHalfZone, WrapLon, Plausible, Turned,
         LonZones, LatZone;
    LatZonePositive(format);
    var dLat := LatZone(format);
    var lat := GridPoint(pos.lat, dLat);
    var d := LonSpan(format, nl(lat));
    LatFromGrid(pos.lat, reference.lat, dLat);
    LonFromGrid(pos.lon, reference.lon, format, nl(lat), turns);
    HalfBinSymmetric(pos.lat, dLat);
    HalfBinSymmetric(pos.lon, d);
  }

  lemma LatZonePositive(format: Format)
    ensures LatZone(format) > 0.0
  {}

  lemma LonSpanIs(format: Format, zones: int)
    ensures LonZones(format, zones) >= 1
    ensures LonSpan(format, zones) == 360.0 / LonZones(format, zones) as real
  {}

  lemma LatFromGrid(x: real, reference: real, d: real)
    requires d > 0.0 && InHalfZone(GridPoint(x, d), reference, d)
    ensures Nearest(reference, d, Fraction(EncodeAxis(x, d))) == GridPoint(x, d)
  {
    hide *;
    GridPointOfZone(x, d);
    NearestIs(reference, d, Fraction(EncodeAxis(x, d)), Zone(x, d), GridPoint(x, d));
  }

  lemma LonFromGrid(x: real, reference: real, format: Format, zones: int, turns: int)
    requires InHalfZone(Turned(GridPoint(x, LonSpan(format, zones)), turns), reference, LonSpan(format, zones))
    ensures
      var d := LonSpan(format, zones);
      Nearest(reference, d, Fraction(EncodeAxis(x, d))) == Turned(GridPoint(x, d), turns)
  {
    var n, d := LonZones(format, zones), LonSpan(format, zones);
    hide *;
    LonSpanIs(format, zones);
    GridPointOfZone(x, d);
    TurnsAreZones(n, d, Zone(x, d), Fraction(EncodeAxis(x, d)), turns, GridPoint(x, d));
    NearestIs(reference, d, Fraction(EncodeAxis(x, d)), Zone(x, d) + n * turns, Turned(GridPoint(x, d), turns));
  }

  lemma HalfBinSymmetric(x: real, d: real)
    requires d > 0.0
    ensures Abs(GridPoint(x, d) - x) <= d / 262144.0
  {
    HalfBin(x, d);
    hide GridPoint;
    assert d * (1.0 / 262144.0) == d / 262144.0;
  }

  /** With at most 60 longitude zones every position transmitted within three degrees of the reference is accepted. */
  lemma LocalDecodeAccepts(format: Format, pos: Position, reference: Position, turns: int, nl: real -> int)
    requires InRange(reference)
    requires
      var lat := GridPoint(pos.lat, LatZone(format));
      && -90.0 <= lat <= 90.0 && -3.0 < lat - reference.lat <= 3.0 && nl(lat) <= 60
      && -3.0 < Turned(GridPoint(pos.lon, LonSpan(format, nl(lat))), turns) - reference.lon <= 3.0
    ensures
      var lat := GridPoint(pos.lat, LatZone(format));
      LocalDecode(Encode(format, pos.lat, pos.lon, nl), reference, nl)
      == Some(Position(lat, WrapLon(Turned(GridPoint(pos.lon, LonSpan(format, nl(lat))), turns))))
  {
    hide *;
    LatZonePositive(format);
    var lat := GridPoint(pos.lat, LatZone(format));
    var d := LonSpan(format, nl(lat));
    var lon := Turned(GridPoint(pos.lon, d), turns);
    LatZoneAtLeastSix(format);
    LonSpanAtLeastSix(format, nl(lat));
    HalfZoneOfSix(lat, reference.lat, LatZone(format));
    HalfZoneOfSix(lon, reference.lon, d);
    LocalDecodeInvertsEncode(format, pos, reference, turns, nl);
    NearIsPlausible(lat, lon, reference);
  }

  lemma LonSpanAtLeastSix(format: Format, zones: int)
    requires zones <= 60
    ensures LonSpan(format, zones) >= 6.0
  {
    var n, d := LonZones(format, zones), LonSpan(format, zones);
    assert 1 <= n <= 60 && d * n as real == 360.0;
    FactorAtLeast(d, n as real, 60.0, 360.0);
  }

  lemma LatZoneAtLeastSix(format: Format)
    ensures LatZone(format) >= 6.0
  {}

  lemma HalfZoneOfSix(x: real, reference: real, d: real)
    requires d >= 6.0 && -3.0 < x - reference <= 3.0
    ensures InHalfZone(x, reference, d)
  {}

  lemma NearIsPlausible(lat: real, lon: real, reference: Position)
    requires InRange(reference) && -90.0 <= lat <= 90.0
    requires -3.0 < lat - reference.lat <= 3.0 && -3.0 < lon - reference.lon <= 3.0
    ensures Plausible(Position(lat, WrapLon(lon)), reference)
  {}

  /** The three-degree guard on the latitude never refuses an even frame. */
  lemma EvenLatitudeIsPlausible(reference: real, latCpr: nat)
    ensures Abs(Nearest(reference, D_LAT_EVEN, Fraction(latCpr)) - reference) <= 3.0
  {
    var c := Fraction(latCpr);
    NearestIsUnique(reference, D_LAT_EVEN, c, NearestIndex(reference, D_LAT_EVEN, c));
  }

  lemma ZeroIsOnTheGrid(d: real)
    requires d > 0.0
    ensures GridPoint(0.0, d) == 0.0 && Fraction(EncodeAxis(0.0, d)) == 0.0
  {
    assert 0.0 / d == 0.0;
    assert Bin(0.0, d) == 0;
  }

  /** An odd zone is wider than the guard: this odd frame names a latitude inside the half zone and is refused. */
  lemma OddLatitudeCanBeRefused(nl: real -> int)
    ensures InHalfZone(GridPoint(0.0, D_LAT_ODD), 3.02, D_LAT_ODD)
    ensures LocalDecode(Encode(Odd, 0.0, 0.0, nl), Position(3.02, 0.0), nl) == None
  {
    ZeroIsOnTheGrid(D_LAT_ODD);
    hide Bin, Mod, NearestIndex, Nearest, Fraction, GridPoint, EncodeAxis, LonSpan, LonZones;
    NearestIs(3.02, D_LAT_ODD, 0.0, 0, 0.0);
  }
}
