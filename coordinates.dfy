/**
 * The two coordinate structs nested in IcoLattice: a (face, division) pair and a polar
 * coordinate made of a latitude pair and a longitude pair, with their normalisation.
 *
 * Latitude faces run 0 (north cap), 1 (tropics), 2 (south cap) and 3 (the south pole at
 * division 0); a lattice of `n` subdivisions has `n` divisions per latitude face. The
 * longitude of a point has 5 faces, each as long as the ring the point lies on.
 */
module IcoCoordinates {
  import opened Arith
  import opened IntMath

  datatype SubdividedCoordinate = SubdividedCoordinate(face: int, div: int)
  {
    /**
     * SubdividedCoordinate.Normalize: carries whole subdivisions from `div` into `face` with
     * C#'s truncating operators, then repairs negative remainders.
     */
    method Normalize(faces: int, subdivisions: int) returns (r: SubdividedCoordinate)
      requires faces > 0 && subdivisions > 0
      ensures r == Normalized(this, faces, subdivisions)
    {
      var f := face + TruncDiv(div, subdivisions);
      var d := TruncRem(div, subdivisions);
      if d < 0 {
        f := f - 1;
        d := d + subdivisions;
      }
      assert div == (f - face) * subdivisions + d by {
        assert div == TruncDiv(div, subdivisions) * subdivisions + TruncRem(div, subdivisions);
      }
      DivModUnique(div, subdivisions, f - face, d);
      var g := TruncRem(f, faces);
      EuclideanRemainder(f, faces, TruncDiv(f, faces), g, if g < 0 then g + faces else g);
      if g < 0 {
        g := g + faces;
      }
      r := SubdividedCoordinate(g, d);
    }
  }

  /**
   * The normal form of `c`: the division in [0, subdivisions), the face in [0, faces), and the
   * same point modulo a full turn of `faces * subdivisions` divisions.
   */
  function Normalized(c: SubdividedCoordinate, faces: int, subdivisions: int): (r: SubdividedCoordinate)
    requires faces > 0 && subdivisions > 0
    ensures 0 <= r.face < faces && 0 <= r.div < subdivisions
    ensures r.face * subdivisions + r.div == Offset(c, subdivisions) % (faces * subdivisions)
  {
    NormalizedOffset(c, faces, subdivisions);
    SubdividedCoordinate((c.face + c.div / subdivisions) % faces, c.div % subdivisions)
  }

  /** The number of divisions from face 0, division 0 to `c`. */
  function Offset(c: SubdividedCoordinate, subdivisions: int): int
  {
    c.face * subdivisions + c.div
  }

  lemma NormalizedOffset(c: SubdividedCoordinate, faces: int, s: int)
    requires faces > 0 && s > 0
    ensures ((c.face + c.div / s) % faces) * s + c.div % s == Offset(c, s) % (faces * s)
  {
    var q, d := c.div / s, c.div % s;
    assert (c.face + q) * s + d == Offset(c, s) by {
      assert c.div == q * s + d;
      assert (c.face + q) * s == c.face * s + q * s;
    }
    OffsetWrap(c.face + q, d, faces, s);
  }

  lemma OffsetWrap(f: int, d: int, faces: int, s: int)
    requires faces > 0 && 0 <= d < s
    ensures (f * s + d) % (faces * s) == (f % faces) * s + d
  {
    var k, g := f / faces, f % faces;
    assert f * s == k * (faces * s) + g * s by {
      assert f == k * faces + g;
    }
    assert g * s + d < faces * s by {
      MulLeq(g, faces - 1, s);
    }
    MulNonneg(g, s);
    DivModUnique(f * s + d, faces * s, k, g * s + d);
  }

  /** A normalised coordinate is its own normal form, so normalising twice changes nothing more. */
  lemma NormalizedFixedPoint(c: SubdividedCoordinate, faces: int, subdivisions: int)
    requires faces > 0 && subdivisions > 0
    ensures Normalized(c, faces, subdivisions) == c <==> 0 <= c.face < faces && 0 <= c.div < subdivisions
    ensures Normalized(Normalized(c, faces, subdivisions), faces, subdivisions) == Normalized(c, faces, subdivisions)
  {
    var r := Normalized(c, faces, subdivisions);
    if 0 <= c.face < faces && 0 <= c.div < subdivisions {
      ModSmall(c.div, subdivisions);
      DivModUnique(c.div, subdivisions, 0, c.div);
      ModSmall(c.face, faces);
    }
    ModSmall(r.div, subdivisions);
    DivModUnique(r.div, subdivisions, 0, r.div);
    ModSmall(r.face, faces);
  }

  /** Two coordinates normalise alike exactly when they are a whole number of turns apart. */
  lemma NormalizedSameTurn(c: SubdividedCoordinate, e: SubdividedCoordinate, faces: int, subdivisions: int)
    requires faces > 0 && subdivisions > 0
    ensures Normalized(c, faces, subdivisions) == Normalized(e, faces, subdivisions)
        <==> Offset(c, subdivisions) % (faces * subdivisions) == Offset(e, subdivisions) % (faces * subdivisions)
  {
    var r, t := Normalized(c, faces, subdivisions), Normalized(e, faces, subdivisions);
    if r.face * subdivisions + r.div == t.face * subdivisions + t.div {
      DivModUnique(r.face * subdivisions + r.div, subdivisions, r.face, r.div);
      DivModUnique(t.face * subdivisions + t.div, subdivisions, t.face, t.div);
    }
  }

  datatype PolarCoordinate = PolarCoordinate(lat: SubdividedCoordinate, lon: SubdividedCoordinate)
  {
    /**
     * PolarCoordinate.Normalize: normalises the latitude over 6 faces, collapses the poles,
     * folds latitude faces 3 to 5 back over the equator or the pole, then normalises the
     * longitude over the length of the ring it lies on.
     */
    method Normalize(subdivisions: int) returns (outcome: Normalization)
      requires subdivisions >= 1
      ensures outcome == NormalizedPolar(this, subdivisions)
    {
      var la := lat.Normalize(6, subdivisions);
      var lo := lon;
      if la.div == 0 && (la.face == 0 || la.face == 3) {
        lo := SubdividedCoordinate(0, 0);
      } else {
        if la.face >= 3 {
          la := SubdividedCoordinate(5 - la.face, subdivisions - la.div);
          if la.face == 1 {
            lo := lo.(face := lo.face + 5);
          } else {
            TruncNonneg(la.div, 2);
            if TruncRem(la.div, 2) == 0 {
              lo := SubdividedCoordinate(lo.face + 2, lo.div + TruncDiv(la.div, 2));
            } else {
              return Unrepresentable(PolarCoordinate(la, lo));
            }
          }
        }
        lo := lo.Normalize(5, LonLength(la, subdivisions));
      }
      outcome := Done(PolarCoordinate(la, lo));
    }
  }

  /** `new PolarCoordinate(latFace, latDiv, lonFace, lonDiv)`. */
  function Polar(latFace: int, latDiv: int, lonFace: int, lonDiv: int): PolarCoordinate
  {
    PolarCoordinate(SubdividedCoordinate(latFace, latDiv), SubdividedCoordinate(lonFace, lonDiv))
  }

  const NorthPole := Polar(0, 0, 0, 0)
  const SouthPole := Polar(3, 0, 0, 0)

  /**
   * What PolarCoordinate.Normalize leaves behind: either a normalised coordinate, or (when an
   * odd polar latitude would have to be folded, which the source reports with an
   * InvalidOperationException) the coordinate as far as it got.
   */
  datatype Normalization = Done(c: PolarCoordinate) | Unrepresentable(partial: PolarCoordinate)

  /** The number of longitude divisions per face on the ring at latitude `lat`. */
  function LonLength(lat: SubdividedCoordinate, subdivisions: int): int
  {
    if lat.face == 0 then lat.div else if lat.face == 1 then subdivisions else subdivisions - lat.div
  }

  /** The coordinates the lattice enumerates: the two poles, and every other vertex once. */
  predicate Canonical(c: PolarCoordinate, subdivisions: int)
  {
    c == NorthPole || c == SouthPole ||
    (0 <= c.lat.face < 3 && 0 <= c.lat.div < subdivisions && (c.lat.face == 0 ==> c.lat.div >= 1) &&
     0 <= c.lon.face < 5 && 0 <= c.lon.div < LonLength(c.lat, subdivisions))
  }

  /**
   * Canonical, except that the latitude division may also be a whole face: the borders
   * (0, n) and (1, n) name the rings (1, 0) and (2, 0).
   */
  predicate InRange(c: PolarCoordinate, subdivisions: int)
  {
    c == NorthPole || c == SouthPole ||
    (0 <= c.lat.face < 3 && 0 <= c.lat.div <= subdivisions && (c.lat.face == 0 ==> c.lat.div >= 1) &&
     (c.lat.face == 2 ==> c.lat.div < subdivisions) &&
     0 <= c.lon.face < 5 && 0 <= c.lon.div < LonLength(c.lat, subdivisions))
  }

  /** Whether folding `lat` (already normalised over 6 faces) across a pole has to halve an odd latitude. */
  predicate OddPolarFold(lat: SubdividedCoordinate, subdivisions: int)
  {
    (lat.face == 5 || (lat.face == 3 && lat.div >= 1)) && (subdivisions - lat.div) % 2 == 1
  }

  /** The normal form of a polar coordinate on a lattice of `subdivisions` subdivisions. */
  function NormalizedPolar(c: PolarCoordinate, subdivisions: int): (o: Normalization)
    requires subdivisions >= 1
    ensures o.Done? ==> InRange(o.c, subdivisions)
    ensures o.Done? && !Canonical(o.c, subdivisions) ==> o.c.lat.div == subdivisions && o.c.lat.face < 2
    ensures o.Unrepresentable? <==> OddPolarFold(Normalized(c.lat, 6, subdivisions), subdivisions)
  {
    var lat := Normalized(c.lat, 6, subdivisions);
    if lat.div == 0 && (lat.face == 0 || lat.face == 3) then
      Done(PolarCoordinate(lat, SubdividedCoordinate(0, 0)))
    else if lat.face >= 3 then
      var folded := SubdividedCoordinate(5 - lat.face, subdivisions - lat.div);
      if folded.face == 1 then
        Done(PolarCoordinate(folded, Normalized(c.lon.(face := c.lon.face + 5), 5, subdivisions)))
      else if folded.div % 2 == 0 then
        var lon := SubdividedCoordinate(c.lon.face + 2, c.lon.div + folded.div / 2);
        Done(PolarCoordinate(folded, Normalized(lon, 5, LonLength(folded, subdivisions))))
      else
        Unrepresentable(PolarCoordinate(folded, c.lon))
    else
      Done(PolarCoordinate(lat, Normalized(c.lon, 5, LonLength(lat, subdivisions))))
  }

  /** A latitude that normalises onto a pole gives that pole, whatever the longitude was. */
  lemma NormalizedPolarPoles(c: PolarCoordinate, subdivisions: int)
    requires subdivisions >= 1
    ensures Normalized(c.lat, 6, subdivisions) == SubdividedCoordinate(0, 0) ==> NormalizedPolar(c, subdivisions) == Done(NorthPole)
    ensures Normalized(c.lat, 6, subdivisions) == SubdividedCoordinate(3, 0) ==> NormalizedPolar(c, subdivisions) == Done(SouthPole)
  {
  }

  /**
   * Off the poles and outside latitude faces 3 to 5, the normalised latitude is kept and the
   * longitude is normalised over the ring it lies on.
   */
  lemma NormalizedPolarUnfolded(c: PolarCoordinate, subdivisions: int)
    requires subdivisions >= 1
    ensures var l := Normalized(c.lat, 6, subdivisions);
      l.face < 3 && l != SubdividedCoordinate(0, 0) ==>
        NormalizedPolar(c, subdivisions) == Done(PolarCoordinate(l, Normalized(c.lon, 5, LonLength(l, subdivisions))))
  {
  }

  /**
   * A normalised latitude `l` on faces 3 to 5 (other than the south pole) is folded back to
   * `(5 - l.face, n - l.div)`; the partial state of an unrepresentable fold has that latitude
   * and the longitude as it was given.
   */
  lemma NormalizedPolarFold(c: PolarCoordinate, subdivisions: int)
    requires subdivisions >= 1
    ensures var l := Normalized(c.lat, 6, subdivisions);
      l.face >= 3 && l != SubdividedCoordinate(3, 0) ==>
        var folded := SubdividedCoordinate(5 - l.face, subdivisions - l.div);
        match NormalizedPolar(c, subdivisions)
        case Done(d) => d.lat == folded
        case Unrepresentable(p) => p == PolarCoordinate(folded, c.lon)
  {
  }

  /**
   * A fold across the equator (latitude face 4) adds 5 longitude faces, which in the tropics is
   * a whole turn: the longitude comes out as the given one normalised.
   */
  lemma NormalizedPolarEquatorFold(c: PolarCoordinate, subdivisions: int)
    requires subdivisions >= 1 && Normalized(c.lat, 6, subdivisions).face == 4
    ensures var l := Normalized(c.lat, 6, subdivisions);
      NormalizedPolar(c, subdivisions)
        == Done(PolarCoordinate(SubdividedCoordinate(1, subdivisions - l.div), Normalized(c.lon.(face := c.lon.face + 5), 5, subdivisions)))
    ensures NormalizedPolar(c, subdivisions).c.lon == Normalized(c.lon, 5, subdivisions)
  {
    var n := subdivisions;
    var shifted := c.lon.(face := c.lon.face + 5);
    var x := Offset(c.lon, n);
    assert Offset(shifted, n) == x + 5 * n;
    DivModUnique(x + 5 * n, 5 * n, x / (5 * n) + 1, x % (5 * n));
    NormalizedSameTurn(shifted, c.lon, 5, n);
  }

  /**
   * A fold across a pole (latitude face 5, or face 3 off the pole) with an even folded division
   * adds 2 longitude faces and half the folded division, then normalises over the new ring.
   * Across the north pole that is half a turn of the ring.
   */
  lemma NormalizedPolarPolarFold(c: PolarCoordinate, subdivisions: int)
    requires subdivisions >= 1
    requires var l := Normalized(c.lat, 6, subdivisions);
      (l.face == 5 || (l.face == 3 && l.div >= 1)) && (subdivisions - l.div) % 2 == 0
    ensures var l := Normalized(c.lat, 6, subdivisions);
      var folded := SubdividedCoordinate(5 - l.face, subdivisions - l.div);
      NormalizedPolar(c, subdivisions) == Done(PolarCoordinate(folded,
        Normalized(SubdividedCoordinate(c.lon.face + 2, c.lon.div + folded.div / 2), 5, LonLength(folded, subdivisions))))
    ensures var l := Normalized(c.lat, 6, subdivisions);
      var ring := subdivisions - l.div;
      var r := NormalizedPolar(c, subdivisions).c.lon;
      l.face == 5 ==> r.face * ring + r.div == (Offset(c.lon, ring) + 5 * (ring / 2)) % (5 * ring)
  {
    var l := Normalized(c.lat, 6, subdivisions);
    if l.face == 5 {
      var ring := subdivisions - l.div;
      var h := ring / 2;
      var lon := SubdividedCoordinate(c.lon.face + 2, c.lon.div + h);
      assert ring == 2 * h;
      assert Offset(lon, ring) == Offset(c.lon, ring) + 5 * h by {
        assert (c.lon.face + 2) * ring == c.lon.face * ring + 2 * ring;
      }
    }
  }

  /** The canonical coordinates are exactly those that normalisation leaves as they are. */
  lemma CanonicalIsFixedPoint(c: PolarCoordinate, subdivisions: int)
    requires subdivisions >= 1
    ensures NormalizedPolar(c, subdivisions) == Done(c) <==> Canonical(c, subdivisions)
  {
    if Canonical(c, subdivisions) {
      CanonicalFixed(c, subdivisions);
    } else if InRange(c, subdivisions) {
      BorderMoves(c, subdivisions);
    }
  }

  lemma CanonicalFixed(c: PolarCoordinate, subdivisions: int)
    requires subdivisions >= 1 && Canonical(c, subdivisions)
    ensures NormalizedPolar(c, subdivisions) == Done(c)
  {
    NormalizedFixedPoint(c.lat, 6, subdivisions);
    if c != NorthPole && c != SouthPole {
      NormalizedFixedPoint(c.lon, 5, LonLength(c.lat, subdivisions));
    }
  }

  /** On a face border the latitude moves on to the next face, so the coordinate is not left as it is. */
  lemma BorderMoves(c: PolarCoordinate, subdivisions: int)
    requires subdivisions >= 1 && InRange(c, subdivisions) && !Canonical(c, subdivisions)
    ensures NormalizedPolar(c, subdivisions) != Done(c)
  {
    var n := subdivisions;
    var lat := Normalized(c.lat, 6, n);
    assert c.lat.div == n && 0 <= c.lat.face < 2;
    assert Offset(c.lat, n) == (c.lat.face + 1) * n;
    DivModUnique(Offset(c.lat, n), 6 * n, 0, (c.lat.face + 1) * n + 0);
    assert lat == SubdividedCoordinate(c.lat.face + 1, 0) by {
      DivModUnique(lat.face * n + lat.div, n, lat.face, lat.div);
      DivModUnique(lat.face * n + lat.div, n, c.lat.face + 1, 0);
    }
    assert NormalizedPolar(c, n).c.lat == lat != c.lat;
  }

  /**
   * Normalising twice always reaches a canonical coordinate; a coordinate that one pass left
   * on a face border moves to the start of the next latitude face and keeps its longitude.
   */
  lemma NormalizeTwiceCanonical(c: PolarCoordinate, subdivisions: int)
    requires subdivisions >= 1 && NormalizedPolar(c, subdivisions).Done?
    ensures NormalizedPolar(NormalizedPolar(c, subdivisions).c, subdivisions).Done?
    ensures Canonical(NormalizedPolar(NormalizedPolar(c, subdivisions).c, subdivisions).c, subdivisions)
    ensures Canonical(NormalizedPolar(c, subdivisions).c, subdivisions) ==>
      NormalizedPolar(NormalizedPolar(c, subdivisions).c, subdivisions) == NormalizedPolar(c, subdivisions)
    ensures !Canonical(NormalizedPolar(c, subdivisions).c, subdivisions) ==>
      var d := NormalizedPolar(c, subdivisions).c;
      NormalizedPolar(d, subdivisions) == Done(PolarCoordinate(SubdividedCoordinate(d.lat.face + 1, 0), d.lon))
  {
    var d := NormalizedPolar(c, subdivisions).c;
    if Canonical(d, subdivisions) {
      CanonicalIsFixedPoint(d, subdivisions);
    } else {
      var n := subdivisions;
      var lat := Normalized(d.lat, 6, n);
      var want := SubdividedCoordinate(d.lat.face + 1, 0);
      assert lat == want by {
        DivModUnique(Offset(d.lat, n), 6 * n, 0, (d.lat.face + 1) * n + 0);
        DivModUnique(lat.face * n + lat.div, n, lat.face, lat.div);
        DivModUnique(lat.face * n + lat.div, n, d.lat.face + 1, 0);
      }
      assert LonLength(want, n) == LonLength(d.lat, n) == n;
      NormalizedFixedPoint(d.lon, 5, n);
      assert Canonical(PolarCoordinate(want, d.lon), n);
    }
  }

  /** The pole expectations of IcoLatticeTest.PolarCoordinateTest, on a lattice of 3 subdivisions. */
  lemma NormalizePoleExamples()
    ensures NormalizedPolar(Polar(0, 0, 1, 1), 3) == Done(NorthPole)
    ensures NormalizedPolar(Polar(5, 3, 1, 1), 3) == Done(NorthPole)
    ensures NormalizedPolar(Polar(3, 0, 1, 1), 3) == Done(SouthPole)
    ensures NormalizedPolar(Polar(2, 3, 1, 1), 3) == Done(SouthPole)
  {
    assert Normalized(Polar(0, 0, 1, 1).lat, 6, 3) == SubdividedCoordinate(0, 0);
    assert Normalized(Polar(5, 3, 1, 1).lat, 6, 3) == SubdividedCoordinate(0, 0);
    assert Normalized(Polar(3, 0, 1, 1).lat, 6, 3) == SubdividedCoordinate(3, 0);
    assert Normalized(Polar(2, 3, 1, 1).lat, 6, 3) == SubdividedCoordinate(3, 0);
  }

  /** The tropic expectations of IcoLatticeTest.PolarCoordinateTest, on a lattice of 3 subdivisions. */
  lemma NormalizeTropicExamples()
    ensures NormalizedPolar(Polar(1, -1, 0, -1), 3) == Done(Polar(0, 2, 4, 1))
    ensures NormalizedPolar(Polar(1, -1, 4, 2), 3) == Done(Polar(0, 2, 0, 0))
    ensures NormalizedPolar(Polar(1, 1, 0, -1), 3) == Done(Polar(1, 1, 4, 2))
    ensures NormalizedPolar(Polar(1, 1, 4, 3), 3) == Done(Polar(1, 1, 0, 0))
    ensures NormalizedPolar(Polar(1, 2, 0, -1), 3) == Done(Polar(1, 2, 4, 2))
    ensures NormalizedPolar(Polar(1, 2, 4, 3), 3) == Done(Polar(1, 2, 0, 0))
    ensures NormalizedPolar(Polar(1, 3, 0, -1), 3) == Done(Polar(2, 0, 4, 2))
    ensures NormalizedPolar(Polar(1, 3, 4, 3), 3) == Done(Polar(2, 0, 0, 0))
  {
    assert Normalized(SubdividedCoordinate(1, -1), 6, 3) == SubdividedCoordinate(0, 2);
    assert Normalized(SubdividedCoordinate(1, 1), 6, 3) == SubdividedCoordinate(1, 1);
    assert Normalized(SubdividedCoordinate(1, 2), 6, 3) == SubdividedCoordinate(1, 2);
    assert Normalized(SubdividedCoordinate(1, 3), 6, 3) == SubdividedCoordinate(2, 0);
    assert Normalized(SubdividedCoordinate(0, -1), 5, 2) == SubdividedCoordinate(4, 1);
    assert Normalized(SubdividedCoordinate(4, 2), 5, 2) == SubdividedCoordinate(0, 0);
    assert Normalized(SubdividedCoordinate(0, -1), 5, 3) == SubdividedCoordinate(4, 2);
    assert Normalized(SubdividedCoordinate(4, 3), 5, 3) == SubdividedCoordinate(0, 0);
  }
}
