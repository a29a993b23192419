/** Compact Position Reporting: the encoder of RTCA DO-260B, Appendix A, section A.1.7,
    and the airborne decoder of decoder/src/cpr.cpp, over exact reals.

    The number of longitude zones NL is an arbitrary function of the latitude: nothing here
    depends on its trigonometric formula.
  */
module CprArithmetic {

  /** The number of values a 17-bit fraction can take. */
  const BINS: real := 131072.0

  function Abs(x: real): real {
    if x < 0.0 then -x else x
  }

  /** C's `fmod`: the quotient is truncated toward zero. */
  function Fmod(x: real, y: real): real
    requires y > 0.0
  {
    var q := x / y;
    var t := if q >= 0.0 then q.Floor else -((-q).Floor);
    x - y * (t as real)
  }

  /** The decoder's `mod`: `fmod`, moved into [0, y). */
  function Mod(x: real, y: real): (r: real)
    requires y > 0.0
    ensures 0.0 <= r < y
    ensures r == x - y * ((x / y).Floor as real)
  {
    FmodRange(x, y);
    var r := Fmod(x, y);
    if r < 0.0 then r + y else r
  }

  lemma FmodRange(x: real, y: real)
    requires y > 0.0
    ensures 0.0 <= x - y * ((x / y).Floor as real) < y
    ensures x - y * ((x / y).Floor as real) == if Fmod(x, y) < 0.0 then Fmod(x, y) + y else Fmod(x, y)
  {
    FloorRemainder(x, y);
    var q := x / y;
    var f := q.Floor as real;
    if q < 0.0 {
      if q == f {
        assert (-q).Floor == -q.Floor;
      } else {
        assert (-q).Floor == -q.Floor - 1;
        assert y * (f + 1.0) == y * f + y;
      }
    }
  }

  lemma FloorRemainder(x: real, y: real)
    requires y > 0.0
    ensures 0.0 <= x - y * ((x / y).Floor as real) < y
  {
    var q := x / y;
    assert x == y * q;
    RemainderRange(x, y, q, q.Floor as real);
  }

  lemma RemainderRange(x: real, y: real, q: real, f: real)
    requires y > 0.0 && x == y * q && f <= q < f + 1.0
    ensures 0.0 <= x - y * f < y
  {
    var r := y * (q - f);
    assert r >= 0.0;
    assert r < y by {
      var g := 1.0 - (q - f);
      assert y * g > 0.0;
      assert y * g == y - r;
    }
    assert x - y * f == r;
  }

  lemma ScaleLess(k: real, a: real, b: real)
    requires k > 0.0 && a < b
    ensures k * a < k * b
  {}

  lemma ScaleLeq(k: real, a: real, b: real)
    requires k >= 0.0 && a <= b
    ensures k * a <= k * b
  {}

  lemma Distribute(k: real, sum: real, a: real, b: real, c: real)
    requires sum == a + b + c
    ensures k * sum == k * a + k * b + k * c
  {}

  lemma ProductBelow(d: real, s: real, n: real, t: real)
    requires d > 0.0 && d * n == t && 0.0 <= s < n
    ensures 0.0 <= d * s < t
  {
    ScaleLess(d, s, n);
    ScaleLeq(d, 0.0, s);
  }

  lemma FactorAtLeast(d: real, n: real, m: real, t: real)
    requires d * n == t && 0.0 < n <= m && t > 0.0
    ensures d * m >= t
  {
    if d <= 0.0 {
      ScaleLeq(n, d, 0.0);
    } else {
      ScaleLeq(d, n, m);
    }
  }

  /** Scaling an error bounded by h. */
  lemma ScaleError(k: real, e: real, h: real)
    requires k >= 0.0 && Abs(e) <= h
    ensures -Times(k, h) <= Times(k, e) <= Times(k, h)
  {
    ScaleLeq(k, e, h);
    ScaleLeq(k, -h, e);
    assert k * -h == -(k * h);
  }

  /** Multiplication by name: proofs about sums of products hide its definition and stay linear. */
  function Times(x: real, y: real): real {
    x * y
  }

  lemma ScaleSplitError(k: real, u: real, z: real, c: real, h: real)
    requires k >= 0.0 && Abs(u - z - c) <= h
    ensures -Times(k, h) <= Times(k, u) - Times(k, z) - Times(k, c) <= Times(k, h)
  {
    ScaleError(k, u - z - c, h);
    assert k * (u - z - c) == k * u - k * z - k * c;
  }

  /** A quotient known up to an error gives the dividend up to the scaled error. */
  lemma QuotientError(x: real, d: real, z: real, c: real, g: real, h: real)
    requires d > 0.0 && Abs(x / d - z - c) <= h && g == d * (z + c)
    ensures Abs(x - g) <= d * h
  {
    assert x == d * (x / d);
    assert g == d * z + d * c;
    ScaleSplitError(d, x / d, z, c, h);
  }

  lemma MultiplesAreFar(n: int, t: int)
    requires n > 0
    ensures t >= 1 ==> n * t >= n
    ensures t <= -1 ==> n * t <= -n
  {}

  lemma QuotientUnique(x: int, n: int, q: int, r: int)
    requires n > 0 && 0 <= r < n && x == n * q + r
    ensures x / n == q && x % n == r
  {
    var q', r' := x / n, x % n;
    assert x == n * q' + r';
    assert n * (q - q') == n * q - n * q' == r' - r;
    MultiplesAreFar(n, q - q');
  }

  lemma ResidueShift(z: int, k: int, n: int)
    requires n > 0
    ensures (n * k + z) % n == z % n
  {
    var q := z / n;
    assert z == n * q + z % n;
    assert n * (k + q) == n * k + n * q;
    QuotientUnique(n * k + z, n, k + q, z % n);
  }

  /** The zone index both axes compute from an even and an odd fraction (latitude uses 60 zones). */
  function ZoneIndex(zones: int, cEven: real, cOdd: real): int {
    RoundedDifference((zones - 1) as real, cEven, zones as real, cOdd)
  }

  function RoundedDifference(a: real, x: real, b: real, y: real): int {
    (Times(a, x) - Times(b, y) + 0.5).Floor
  }

  /** `Mod` on whole numbers is the Euclidean remainder. */
  lemma ModOfInteger(j: int, n: int)
    requires n > 0
    ensures Mod(j as real, n as real) == (j % n) as real
  {
    var q, r := j / n, j % n;
    assert j == n * q + r;
    assert (n * q) as real == n as real * q as real;
    FloorOfQuotient(j as real, n as real, q, r as real);
  }

  lemma FloorOfQuotient(x: real, y: real, q: int, r: real)
    requires y > 0.0 && x == y * q as real + r && 0.0 <= r < y
    ensures (x / y).Floor == q
  {
    var u := x / y;
    assert x == y * u;
    if u < q as real { ScaleLess(y, u, q as real); }
    if u >= q as real + 1.0 { ScaleLeq(y, q as real + 1.0, u); }
  }

  /** A real within half a unit of an integer rounds to it. */
  lemma RoundsTo(x: real, k: int)
    requires -0.5 < x - k as real < 0.5
    ensures (x + 0.5).Floor == k
  {}
}

/** The encoder of DO-260B, Appendix A, section A.1.7.3. */
module CprEncoder {
  import opened CprArithmetic

  datatype Format = Even | Odd

  /** The position fields of an airborne position message. */
  datatype Frame = Frame(format: Format, latCpr: nat, lonCpr: nat)

  const NZ: int := 15
  const D_LAT_EVEN: real := 360.0 / (4.0 * NZ as real)
  const D_LAT_ODD: real := 360.0 / (4.0 * NZ as real - 1.0)

  function LatZone(format: Format): real {
    if format.Even? then D_LAT_EVEN else D_LAT_ODD
  }

  /** The number of longitude zones a frame of this format uses where NL is `zones`. */
  function LonZones(format: Format, zones: int): int {
    var n := if format.Odd? then zones - 1 else zones;
    if n < 1 then 1 else n
  }

  function LonSpan(format: Format, zones: int): (d: real)
    ensures d > 0.0
  {
    360.0 / LonZones(format, zones) as real
  }

  /** The 17-bit fraction before it wraps: a value in 0..2^17, both ends included. */
  function Bin(x: real, d: real): (b: nat)
    requires d > 0.0
    ensures b <= 131072
    ensures -0.5 < b as real - BINS * (x / d - (x / d).Floor as real) <= 0.5
  {
    var f := x / d - (x / d).Floor as real;
    assert Mod(x, d) / d == f by {
      assert x == d * (x / d);
      assert Mod(x, d) == d * f;
    }
    (BINS * (Mod(x, d) / d) + 0.5).Floor
  }

  function EncodeAxis(x: real, d: real): nat
    requires d > 0.0
  {
    Bin(x, d) % 131072
  }

  /** The coordinate the encoder actually transmits (Rlat and Rlon of the standard). */
  function GridPoint(x: real, d: real): real
    requires d > 0.0
  {
    d * (Bin(x, d) as real / BINS + (x / d).Floor as real)
  }

  function Encode(format: Format, lat: real, lon: real, nl: real -> int): Frame {
    var dLat := LatZone(format);
    var dLon := LonSpan(format, nl(GridPoint(lat, dLat)));
    Frame(format, EncodeAxis(lat, dLat), EncodeAxis(lon, dLon))
  }

  /** The zone index the transmitted fraction belongs to, after wrapping at 2^17. */
  function Zone(x: real, d: real): int
    requires d > 0.0
  {
    (x / d).Floor + if Bin(x, d) == 131072 then 1 else 0
  }

  /** The fraction carried by a frame, as the decoder reads it. */
  function Fraction(cpr: nat): real {
    cpr as real / BINS
  }

  /** Zone and fraction name the transmitted grid point, half a bin from the encoded coordinate. */
  lemma GridPointOfZone(x: real, d: real)
    requires d > 0.0
    ensures GridPoint(x, d) == d * (Zone(x, d) as real + Fraction(EncodeAxis(x, d)))
    ensures 0.0 <= Fraction(EncodeAxis(x, d)) < 1.0
    ensures Abs(x / d - Zone(x, d) as real - Fraction(EncodeAxis(x, d))) <= 1.0 / 262144.0
  {
    hide Mod;
  }

  lemma HalfBin(x: real, d: real)
    requires d > 0.0
    ensures Abs(x - GridPoint(x, d)) <= d * (1.0 / 262144.0)
  {
    hide *;
    GridPointOfZone(x, d);
    QuotientError(x, d, Zone(x, d) as real, Fraction(EncodeAxis(x, d)), GridPoint(x, d), 1.0 / 262144.0);
  }

  /** How far the index formula moves, in index units, per degree between the two positions. */
  function MotionGain(n: int): real {
    n as real * (n - 1) as real / 360.0
  }

  /** Two positions on the n- and (n-1)-zone grids are close enough for the index to be recovered. */
  predicate WithinMotion(n: int, delta: real)
  {
    MotionGain(n) * Abs(delta) + (2 * n - 1) as real / 262144.0 < 0.5
  }

  /** The decoder's index formula recovers a fixed combination of the two zone numbers. */
  lemma IndexIsExact(n: int, x: real, y: real)
    requires n >= 2 && WithinMotion(n, x - y)
    ensures
      var dE, dO := 360.0 / n as real, 360.0 / (n - 1) as real;
      ZoneIndex(n, Fraction(EncodeAxis(x, dE)), Fraction(EncodeAxis(y, dO))) == n * Zone(y, dO) - (n - 1) * Zone(x, dE)
  {
    hide *;
    var dE, dO := 360.0 / n as real, 360.0 / (n - 1) as real;
    GridPointOfZone(x, dE);
    GridPointOfZone(y, dO);
    GridDifference(n, x, y);
    ZoneIndexRounds(n, Fraction(EncodeAxis(x, dE)), Fraction(EncodeAxis(y, dO)));
    IndexOfParts(n, x - y, x / dE, y / dO, Zone(x, dE), Zone(y, dO),
                 Fraction(EncodeAxis(x, dE)), Fraction(EncodeAxis(y, dO)));
  }

  lemma ZoneIndexRounds(n: int, cE: real, cO: real)
    ensures ZoneIndex(n, cE, cO) == RoundedDifference((n - 1) as real, cE, n as real, cO)
  {}

  lemma IndexOfParts(n: int, delta: real, uE: real, uO: real, zE: int, zO: int, cE: real, cO: real)
    requires n >= 2 && WithinMotion(n, delta)
    requires Abs(uE - zE as real - cE) <= 1.0 / 262144.0 && Abs(uO - zO as real - cO) <= 1.0 / 262144.0
    requires Times((n - 1) as real, uE) - Times(n as real, uO) == Times(MotionGain(n), delta)
    ensures RoundedDifference((n - 1) as real, cE, n as real, cO) == n * zO - (n - 1) * zE
  {
    hide *;
    IntegerCombination(n, zE, zO);
    MotionBudget(n, delta);
    IndexRounds((n - 1) as real, n as real, MotionGain(n), delta, uE, uO, zE as real, zO as real, cE, cO,
                n * zO - (n - 1) * zE);
  }

  lemma IndexRounds(a: real, b: real, g: real, delta: real, uE: real, uO: real,
                    zE: real, zO: real, cE: real, cO: real, k: int)
    requires a > 0.0 && b > 0.0 && g >= 0.0
    requires Abs(uE - zE - cE) <= 1.0 / 262144.0 && Abs(uO - zO - cO) <= 1.0 / 262144.0
    requires Times(a, uE) - Times(b, uO) == Times(g, delta)
    requires Times(g, Abs(delta)) + Times(a, 1.0 / 262144.0) + Times(b, 1.0 / 262144.0) < 0.5
    requires k as real == Times(b, zO) - Times(a, zE)
    ensures RoundedDifference(a, cE, b, cO) == k
  {
    hide Abs, Times;
    ScaleSplitError(a, uE, zE, cE, 1.0 / 262144.0);
    ScaleSplitError(b, uO, zO, cO, 1.0 / 262144.0);
    ScaleError(g, delta, Abs(delta));
    RoundsTo(Times(a, cE) - Times(b, cO), k);
  }

  lemma MotionBudget(n: int, delta: real)
    requires n >= 2 && WithinMotion(n, delta)
    ensures MotionGain(n) > 0.0
    ensures Times(MotionGain(n), Abs(delta)) + Times((n - 1) as real, 1.0 / 262144.0)
            + Times(n as real, 1.0 / 262144.0) < 0.5
  {
    ScaleLess(n as real, 0.0, (n - 1) as real);
  }

  lemma IntegerCombination(n: int, zE: int, zO: int)
    ensures (n * zO - (n - 1) * zE) as real == Times(n as real, zO as real) - Times((n - 1) as real, zE as real)
  {}

  /** Measured in zones, the two coordinates differ by the scaled distance between them. */
  lemma GridDifference(n: int, x: real, y: real)
    requires n >= 2
    ensures Times((n - 1) as real, x / (360.0 / n as real)) - Times(n as real, y / (360.0 / (n - 1) as real))
            == Times(MotionGain(n), x - y)
  {
    var a, b := (n - 1) as real, n as real;
    assert x / (360.0 / b) == x * b / 360.0;
    assert y / (360.0 / a) == y * a / 360.0;
    assert a * (x * b / 360.0) == MotionGain(n) * x;
    assert b * (y * a / 360.0) == MotionGain(n) * y;
  }

  /** The residues the decoder takes of that combination are the zone numbers themselves. */
  lemma IndexResidues(n: int, zE: int, zO: int)
    requires n >= 2
    ensures (n * zO - (n - 1) * zE) % n == zE % n
    ensures (n * zO - (n - 1) * zE) % (n - 1) == zO % (n - 1)
  {
    var k := zO - zE;
    assert n * zO - (n - 1) * zE == n * k + zE;
    assert n * zO - (n - 1) * zE == (n - 1) * k + zO;
    ResidueShift(zE, k, n);
    ResidueShift(zO, k, n - 1);
  }

  /** Zone and fraction together are the coordinate rounded to the nearest of all grid lines. */
  lemma GridIndex(x: real, d: real)
    requires d > 0.0
    ensures (Zone(x, d) as real + Fraction(EncodeAxis(x, d))) * 131072.0 == (131072.0 * (x / d) + 0.5).Floor as real
  {
    var u := x / d;
    assert Zone(x, d) * 131072 + EncodeAxis(x, d) == Bin(x, d) + 131072 * u.Floor == (BINS * u + 0.5).Floor;
  }
}

/** decoder/src/cpr.cpp: the decoder, and the proof that it inverts the encoder. */
module CprDecoder {
  import opened Wrappers
  import opened CprArithmetic
  import opened CprEncoder

  datatype Position = Position(lat: real, lon: real)

  /** The coordinate of fraction c in the zone whose residue is `index`, before any adjustment. */
  function ZoneCoordinate(d: real, index: int, zones: int, c: real): real
    requires zones > 0
  {
    d * (Mod(index as real, zones as real) + c)
  }

  /** Coordinates past 270 degrees are in the southern hemisphere. */
  function WrapLat(lat: real): real {
    if lat >= 270.0 then lat - 360.0 else lat
  }

  predicate InRange(p: Position) {
    -90.0 <= p.lat <= 90.0 && -180.0 <= p.lon <= 180.0
  }

  /** What global decoding yields for a pair of frames. */
  function GlobalDecode(even: Frame, odd: Frame, nl: real -> int): Option<Position> {
    var j := ZoneIndex(60, Fraction(even.latCpr), Fraction(odd.latCpr));
    var latEven := WrapLat(ZoneCoordinate(D_LAT_EVEN, j, 60, Fraction(even.latCpr)));
    var latOdd := WrapLat(ZoneCoordinate(D_LAT_ODD, j, 59, Fraction(odd.latCpr)));
    var zones := nl(latEven);
    if !even.format.Even? || !odd.format.Odd? || zones != nl(latOdd) then None
    else
      var m := ZoneIndex(zones, Fraction(even.lonCpr), Fraction(odd.lonCpr));
      var ni := LonZones(Even, zones);
      var lon := ZoneCoordinate(LonSpan(Even, zones), m, ni, Fraction(even.lonCpr));
      var p := Position(latEven, if lon > 180.0 then lon - 360.0 else lon);
      if InRange(p) then Some(p) else None
  }

  /** How far above the reference the nearest representative of fraction c lies, in zones. */
  function NearestIndex(reference: real, d: real, c: real): int
    requires d > 0.0
  {
    (reference / d).Floor + (Mod(reference, d) / d - c + 0.5).Floor
  }

  function Nearest(reference: real, d: real, c: real): real
    requires d > 0.0
  {
    d * (NearestIndex(reference, d, c) as real + c)
  }

  function WrapLon(lon: real): real {
    var a := if lon > 180.0 then lon - 360.0 else lon;
    if a < -180.0 then a + 360.0 else a
  }

  function LonDistance(a: real, b: real): real {
    var diff := Abs(a - b);
    if diff > 180.0 then 360.0 - diff else diff
  }

  /** The last check of local decoding: a valid position within three degrees of the reference. */
  predicate Plausible(p: Position, reference: Position) {
    InRange(p) && Abs(p.lat - reference.lat) <= 3.0 && LonDistance(p.lon, reference.lon) <= 3.0
  }

  function LocalDecode(frame: Frame, reference: Position, nl: real -> int): Option<Position> {
    var lat := Nearest(reference.lat, LatZone(frame.format), Fraction(frame.latCpr));
    var dLon := LonSpan(frame.format, nl(lat));
    var p := Position(lat, WrapLon(Nearest(reference.lon, dLon, Fraction(frame.lonCpr))));
    if Plausible(p, reference) then Some(p) else None
  }

  /** The fields of an airborne position message that decoding reads and writes. */
  class AirbornePosition {
    var cprFormat: Format
    var latCpr: nat
    var lonCpr: nat
    var latitude: Option<real>
    var longitude: Option<real>

    constructor (cprFormat: Format, latCpr: nat, lonCpr: nat)
      ensures Frame() == CprEncoder.Frame(cprFormat, latCpr, lonCpr)
      ensures latitude == None && longitude == None
    {
      this.cprFormat, this.latCpr, this.lonCpr := cprFormat, latCpr, lonCpr;
      latitude, longitude := None, None;
    }

    function Frame(): Frame
      reads this
    {
      CprEncoder.Frame(cprFormat, latCpr, lonCpr)
    }

    predicate Holds(p: Position)
      reads this
    {
      latitude == Some(p.lat) && longitude == Some(p.lon)
    }
  }

  method DecodeGlobal(evenPos: AirbornePosition, oddPos: AirbornePosition, nl: real -> int) returns (ok: bool)
    modifies evenPos`latitude, evenPos`longitude, oddPos`latitude, oddPos`longitude
    ensures
      match GlobalDecode(old(evenPos.Frame()), old(oddPos.Frame()), nl)
      case None => !ok && unchanged(evenPos) && unchanged(oddPos)
      case Some(p) => ok && evenPos.Holds(p) && oddPos.Holds(p)
  {
    hide ZoneIndex, ZoneCoordinate, Fraction;
    if !evenPos.cprFormat.Even? || !oddPos.cprFormat.Odd? {
      return false;
    }
    var latCprEven, lonCprEven := Fraction(evenPos.latCpr), Fraction(evenPos.lonCpr);
    var latCprOdd, lonCprOdd := Fraction(oddPos.latCpr), Fraction(oddPos.lonCpr);
    var j := ZoneIndex(60, latCprEven, latCprOdd);
    var latEven := ZoneCoordinate(D_LAT_EVEN, j, 60, latCprEven);
    var latOdd := ZoneCoordinate(D_LAT_ODD, j, 59, latCprOdd);
    if latEven >= 270.0 { latEven := latEven - 360.0; }
    if latOdd >= 270.0 { latOdd := latOdd - 360.0; }
    var zones := nl(latEven);
    if zones != nl(latOdd) {
      return false;
    }
    var ni := if zones < 1 then 1 else zones;
    var dLon := 360.0 / ni as real;
    var m := ZoneIndex(zones, lonCprEven, lonCprOdd);
    var lon := ZoneCoordinate(dLon, m, ni, lonCprEven);
    if lon > 180.0 { lon := lon - 360.0; }
    if latEven < -90.0 || latEven > 90.0 || lon < -180.0 || lon > 180.0 {
      return false;
    }
    evenPos.latitude, evenPos.longitude := Some(latEven), Some(lon);
    oddPos.latitude, oddPos.longitude := Some(latEven), Some(lon);
    return true;
  }

  method DecodeLocal(pos: AirbornePosition, refLat: real, refLon: real, nl: real -> int) returns (ok: bool)
    modifies pos`latitude, pos`longitude
    ensures
      match LocalDecode(old(pos.Frame()), Position(refLat, refLon), nl)
      case None => !ok && unchanged(pos)
      case Some(p) => ok && pos.Holds(p)
  {
    hide Nearest, Fraction;
    var latCpr, lonCpr := Fraction(pos.latCpr), Fraction(pos.lonCpr);
    var dLat := if pos.cprFormat.Even? then D_LAT_EVEN else D_LAT_ODD;
    var lat := Nearest(refLat, dLat, latCpr);
    var zones := nl(lat);
    if pos.cprFormat.Odd? {
      zones := if zones - 1 < 1 then 1 else zones - 1;
    }
    var dLon := if zones > 0 then 360.0 / zones as real else 360.0;
    var lon := Nearest(refLon, dLon, lonCpr);
    if lon > 180.0 { lon := lon - 360.0; }
    if lon < -180.0 { lon := lon + 360.0; }
    if lat < -90.0 || lat > 90.0 || lon < -180.0 || lon > 180.0 {
      return false;
    }
    var latDiff, lonDiff := Abs(lat - refLat), Abs(lon - refLon);
    if lonDiff > 180.0 { lonDiff := 360.0 - lonDiff; }
    if latDiff > 3.0 || lonDiff > 3.0 {
      return false;
    }
    pos.latitude, pos.longitude := Some(lat), Some(lon);
    return true;
  }
}
