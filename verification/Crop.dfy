/** The avatar crop: cropAndScale of internal/upload/upload.go. */
module Crop {

  datatype Bounds = Bounds(minX: int, minY: int, width: nat, height: nat)

  /** A pixel outside the bounds reads as some blank pixel. */
  datatype Image<P> = Image(bounds: Bounds, at: (int, int) -> P)

  /** The largest centred square. */
  datatype Square = Square(x: int, y: int, side: nat)

  function CentredSquare(b: Bounds): Square {
    var side := if b.height < b.width then b.height else b.width;
    Square(b.minX + (b.width - side) / 2, b.minY + (b.height - side) / 2, side)
  }

  /** The source column of destination column d out of n (rows likewise). */
  function Sample(d: nat, side: nat, n: nat): nat
    requires n > 0
  {
    NatQuotient(d * side, n);
    d * side / n
  }

  lemma NatQuotient(a: nat, n: nat)
    requires n > 0
    ensures a / n >= 0
  {
  }

  /** `convert` is the colour model of the destination, which Set applies to every pixel. */
  method CropAndScale<P, Q(0)>(src: Image<P>, convert: P -> Q, w: nat, h: nat) returns (dst: array2<Q>)
    ensures dst.Length0 == w && dst.Length1 == h
    ensures var sq := CentredSquare(src.bounds);
            forall x, y :: 0 <= x < w && 0 <= y < h ==>
              dst[x, y] == convert(src.at(sq.x + Sample(x, sq.side, w), sq.y + Sample(y, sq.side, h)))
  {
    var sb := src.bounds;
    var sw, sh := sb.width, sb.height;
    var cs := sw;
    if sh < cs {
      cs := sh;
    }
    var cx := sb.minX + (sw - cs) / 2;
    var cy := sb.minY + (sh - cs) / 2;
    dst := new Q[w, h];
    for dy := 0 to h
      invariant forall x, y :: 0 <= x < w && 0 <= y < dy ==>
                  dst[x, y] == convert(src.at(cx + Sample(x, cs, w), cy + Sample(y, cs, h)))
    {
      for dx := 0 to w
        invariant forall x, y :: 0 <= x < w && 0 <= y < dy ==>
                    dst[x, y] == convert(src.at(cx + Sample(x, cs, w), cy + Sample(y, cs, h)))
        invariant forall x :: 0 <= x < dx ==>
                    dst[x, dy] == convert(src.at(cx + Sample(x, cs, w), cy + Sample(dy, cs, h)))
      {
        var sx := cx + dx * cs / w;
        var sy := cy + dy * cs / h;
        dst[dx, dy] := convert(src.at(sx, sy));
      }
    }
  }

  // ----- The square -----

  predicate Inside(sq: Square, x: int, y: int) {
    sq.x <= x < sq.x + sq.side && sq.y <= y < sq.y + sq.side
  }

  /** The square is inside the bounds and touches two opposite sides; on the other axis the two margins
      differ by at most one. */
  lemma {:induction false} SquareIsCentred(b: Bounds)
    ensures var sq := CentredSquare(b);
            var left, top := sq.x - b.minX, sq.y - b.minY;
            var right, bottom := b.width - sq.side - left, b.height - sq.side - top;
            && 0 <= left <= right <= left + 1 && 0 <= top <= bottom <= top + 1
            && ((sq.side == b.width && left == right == 0) || (sq.side == b.height && top == bottom == 0))
  {
  }

  // ----- The sampling -----

  /** Which destination columns show column c. */
  lemma SampledAt(d: nat, side: nat, n: nat, c: nat)
    requires n > 0
    ensures Sample(d, side, n) == c <==> c * n <= d * side < (c + 1) * n
  {
    var q, r := Sample(d, side, n), d * side % n;
    assert d * side == q * n + r;
    assert (c + 1) * n == c * n + n && (q + 1) * n == q * n + n;
    if q < c {
      Times(q + 1, c, n);
    } else if c < q {
      Times(c + 1, q, n);
    }
  }

  lemma Times(a: nat, b: nat, n: nat)
    requires a <= b
    ensures a * n <= b * n
  {
  }

  /** Every sample lies in the square. */
  lemma SampleInside(d: nat, side: nat, n: nat)
    requires d < n && side > 0
    ensures 0 <= Sample(d, side, n) < side
  {
    var q := Sample(d, side, n);
    SampledAt(d, side, n, q);
    if q >= side {
      Times(side, q, n);
      assert d * side < n * side by { TimesLess(d, n, side); }
    }
  }

  lemma TimesLess(a: nat, b: nat, n: nat)
    requires a < b && n > 0
    ensures a * n < b * n
  {
    assert b * n == a * n + (b - a) * n;
    Times(1, b - a, n);
  }

  lemma {:induction false} SampleMonotone(d: nat, e: nat, side: nat, n: nat)
    requires d <= e && n > 0
    ensures Sample(d, side, n) <= Sample(e, side, n)
  {
    var p, q := Sample(d, side, n), Sample(e, side, n);
    SampledAt(d, side, n, p);
    SampledAt(e, side, n, q);
    Times(d, e, side);
    if q < p {
      Times(q + 1, p, n);
    }
  }

  /** The least d with a <= d * side. */
  function Ceiling(a: nat, side: nat): nat
    requires side > 0
  {
    NatQuotient(a + side - 1, side);
    (a + side - 1) / side
  }

  lemma CeilingIsLeast(a: nat, side: nat, d: nat)
    requires side > 0
    ensures a <= d * side <==> Ceiling(a, side) <= d
  {
    var k, r := Ceiling(a, side), (a + side - 1) % side;
    assert a + side - 1 == k * side + r;
    assert (d + 1) * side == d * side + side;
    if k <= d {
      Times(k, d, side);
    } else {
      Times(d + 1, k, side);
    }
  }

  /** Column c is shown on a run of columns, without a gap. */
  lemma {:induction false} ShownOn(d: nat, side: nat, n: nat, c: nat)
    requires n > 0 && side > 0
    ensures Sample(d, side, n) == c <==> Ceiling(c * n, side) <= d < Ceiling((c + 1) * n, side)
  {
    SampledAt(d, side, n, c);
    CeilingIsLeast(c * n, side, d);
    CeilingIsLeast((c + 1) * n, side, d);
  }

  /** The columns share the destination evenly: each gets the quotient n / side of it, or one more. */
  lemma {:induction false} EvenShare(side: nat, n: nat, c: nat)
    requires n > 0 && side > 0 && c < side
    ensures var share := Ceiling((c + 1) * n, side) - Ceiling(c * n, side);
            n / side <= share <= n / side + 1
    ensures Ceiling((c + 1) * n, side) <= n
  {
    assert (c + 1) * n == c * n + n;
    AtMostAfter(c * n, n, side);
    CeilingIsLeast((c + 1) * n, side, Ceiling((c + 1) * n, side));
    QuotientTimes(n, side);
    AtMostBefore(c * n, (c + 1) * n, side, n / side, Ceiling((c + 1) * n, side));
    CeilingIsLeast((c + 1) * n, side, n);
    Times(c + 1, side, n);
    assert n * side == side * n;
  }

  lemma QuotientTimes(n: nat, side: nat)
    requires side > 0
    ensures n / side >= 0 && (n / side) * side <= n < (n / side + 1) * side
  {
    assert n == (n / side) * side + n % side;
    assert (n / side + 1) * side == (n / side) * side + side;
  }

  lemma AtMostAfter(a: nat, n: nat, side: nat)
    requires side > 0
    ensures n / side >= 0 && Ceiling(a + n, side) <= Ceiling(a, side) + n / side + 1
  {
    var from, q := Ceiling(a, side), n / side;
    QuotientTimes(n, side);
    CeilingIsLeast(a, side, from);
    assert (from + q + 1) * side == from * side + (q + 1) * side;
    CeilingIsLeast(a + n, side, from + q + 1);
  }

  lemma AtMostBefore(a: nat, b: nat, side: nat, q: nat, to: nat)
    requires side > 0 && q * side <= b - a && b <= to * side
    ensures Ceiling(a, side) + q <= to
  {
    if to < q {
      TimesLess(to, q, side);
    } else {
      assert (to - q) * side == to * side - q * side;
      CeilingIsLeast(a, side, to - q);
    }
  }

  ghost predicate Shown(c: nat, side: nat, n: nat)
    requires n > 0
  {
    exists d: nat :: d < n && Sample(d, side, n) == c
  }

  ghost predicate ShowsAll(side: nat, n: nat)
    requires n > 0
  {
    forall c: nat :: c < side ==> Shown(c, side, n)
  }

  ghost predicate NeverRepeats(side: nat, n: nat)
    requires n > 0
  {
    forall d: nat, e: nat :: d < e < n ==> Sample(d, side, n) != Sample(e, side, n)
  }

  /** Every column of the square is shown exactly when the picture is not scaled down. */
  lemma ShowsAllIff(side: nat, n: nat)
    requires n > 0 && side > 0
    ensures ShowsAll(side, n) <==> side <= n
  {
    if side <= n {
      forall c: nat | c < side ensures Shown(c, side, n) {
        RoomShows(side, n, c);
      }
    } else {
      if ShowsAll(side, n) {
        AllShownNeedsRoom(side, n, side);
        EvenShare(side, n, side - 1);
      }
    }
  }

  /** No column is repeated exactly when the picture is not scaled up. */
  lemma NeverRepeatsIff(side: nat, n: nat)
    requires n > 0 && side > 0
    ensures NeverRepeats(side, n) <==> n <= side
  {
    if n <= side {
      forall d: nat, e: nat | d < e < n ensures Sample(d, side, n) != Sample(e, side, n) {
        Strict(d, e, side, n);
      }
    } else {
      if NeverRepeats(side, n) {
        NoRepeatsClimb(side, n, n - 1);
        SampleInside(n - 1, side, n);
      }
    }
  }

  lemma Strict(d: nat, e: nat, side: nat, n: nat)
    requires d < e && 0 < n <= side
    ensures Sample(d, side, n) < Sample(e, side, n)
  {
    var p := Sample(d, side, n);
    SampledAt(d, side, n, p);
    SampledAt(e, side, n, p);
    Times(d + 1, e, side);
    assert (d + 1) * side == d * side + side && (p + 1) * n == p * n + n;
    SampleMonotone(d, e, side, n);
  }

  lemma RoomShows(side: nat, n: nat, c: nat)
    requires 0 < side <= n && c < side
    ensures Shown(c, side, n)
  {
    var d := Ceiling(c * n, side);
    EvenShare(side, n, c);
    AtLeastOne(n, side);
    ShownOn(d, side, n, c);
  }

  lemma AtLeastOne(n: nat, side: nat)
    requires 0 < side <= n
    ensures n / side >= 1
  {
  }

  lemma {:induction false} AllShownNeedsRoom(side: nat, n: nat, c: nat)
    requires n > 0 && c <= side && side > 0 && ShowsAll(side, n)
    ensures c <= Ceiling(c * n, side)
  {
    if c > 0 {
      AllShownNeedsRoom(side, n, c - 1);
      assert Shown(c - 1, side, n);
      var d: nat :| d < n && Sample(d, side, n) == c - 1;
      ShownOn(d, side, n, c - 1);
    }
  }

  lemma {:induction false} NoRepeatsClimb(side: nat, n: nat, d: nat)
    requires d < n && NeverRepeats(side, n)
    ensures d <= Sample(d, side, n)
  {
    if d > 0 {
      NoRepeatsClimb(side, n, d - 1);
      SampleMonotone(d - 1, d, side, n);
    }
  }

  /** From a picture that is not empty, every pixel read is in the centred square and in bounds. */
  lemma {:induction false} PixelsInBounds(b: Bounds, w: nat, h: nat, x: nat, y: nat)
    requires b.width > 0 && b.height > 0 && x < w && y < h
    ensures var sq := CentredSquare(b);
            var sx, sy := sq.x + Sample(x, sq.side, w), sq.y + Sample(y, sq.side, h);
            && Inside(sq, sx, sy)
            && b.minX <= sx < b.minX + b.width && b.minY <= sy < b.minY + b.height
  {
    var sq := CentredSquare(b);
    SampleInside(x, sq.side, w);
    SampleInside(y, sq.side, h);
    SquareIsCentred(b);
  }

  /** A square picture of the wanted size is left as it is. */
  lemma {:induction false} SameSizeUnchanged(d: nat, side: nat)
    requires d < side
    ensures Sample(d, side, side) == d
  {
    SampledAt(d, side, side, d);
    assert (d + 1) * side == d * side + side;
  }
}
