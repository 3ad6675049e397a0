/** fillTriangle (main.cpp:57-80): the flat, white scanline fill.

    The three vertices are sorted by `y` with three conditional swaps, the
    rows `i = 0 .. total_height - 1` above the lowest vertex are swept, and
    every column from the truncated left end of a row's span to its right
    end, inclusive, is written white. The routine has no bounds check, so
    FillTriangle requires every byte it writes to lie in the buffer. Its row
    flip multiplies by `image_size[1]` and subtracts from `image_size[0]`,
    the reverse of drawLine; the model keeps that order. Only the `x`
    components of the interpolated ends `A` and `B` are used by the source,
    so only they are modelled. */
module FlatFill {
  import opened ScreenMath

  /** Three vertices, after sorting. */
  datatype Tri = Tri(v0: Point, v1: Point, v2: Point)

  predicate SortedByY(t: Tri)
  {
    t.v0.y <= t.v1.y <= t.v2.y
  }

  /** Lines 59-61: sorting by three conditional swaps yields the same three
      vertices in ascending order of `y`. */
  function SortByY(v0: Point, v1: Point, v2: Point): (t: Tri)
    ensures SortedByY(t)
    ensures multiset{t.v0, t.v1, t.v2} == multiset{v0, v1, v2}
  {
    var (p0, p1) := if v0.y > v1.y then (v1, v0) else (v0, v1);
    var (q0, p2) := if p0.y > v2.y then (v2, p0) else (p0, v2);
    var (q1, q2) := if p1.y > p2.y then (p2, p1) else (p1, p2);
    Tri(q0, q1, q2)
  }

  /** Line 62: the number of rows swept. */
  function TotalHeight(t: Tri): int
  {
    t.v2.y - t.v0.y
  }

  /** Line 64: row `i` belongs to the upper half of the triangle. */
  predicate SecondHalf(t: Tri, i: int)
  {
    i > t.v1.y - t.v0.y || t.v1.y == t.v0.y
  }

  /** Line 65: the height of the half containing row `i`. It is never 0 in
      a row the loop reaches, so the division of line 67 is always defined. */
  function HalfHeight(t: Tri, i: int): (hh: int)
    requires SortedByY(t) && 0 <= i < TotalHeight(t)
    ensures hh >= 1
  {
    if SecondHalf(t, i) then t.v2.y - t.v1.y else t.v1.y - t.v0.y
  }

  /** A quotient of a count by a larger positive count is a fraction. */
  lemma DivFraction(n: int, d: int)
    requires 0 <= n <= d && 0 < d
    ensures 0.0 <= n as real / d as real <= 1.0
    ensures n < d ==> n as real / d as real < 1.0
  {
    var q := n as real / d as real;
    assert (q - 1.0) * d as real == (n - d) as real;
  }

  /** Lines 66-67: how far row `i` lies along the long edge (`a`) and along
      the edge of its half (`b`); both are fractions between 0 and 1. */
  function Fractions(t: Tri, i: int): (r: (real, real))
    requires SortedByY(t) && 0 <= i < TotalHeight(t)
    ensures 0.0 <= r.0 < 1.0 && 0.0 <= r.1 <= 1.0
  {
    var n := i - (if SecondHalf(t, i) then t.v1.y - t.v0.y else 0);
    DivFraction(i, TotalHeight(t));
    DivFraction(n, HalfHeight(t, i));
    (i as real / TotalHeight(t) as real, n as real / HalfHeight(t, i) as real)
  }

  /** `p + (q - p) * s` for a fraction `s` lies between `p` and `q`. */
  lemma LerpBetween(p: real, q: real, s: real)
    requires 0.0 <= s <= 1.0
    ensures p <= q ==> p <= p + (q - p) * s <= q
    ensures q <= p ==> q <= p + (q - p) * s <= p
  {
    if p <= q {
      assert (q - p) * s <= (q - p) * 1.0;
    } else {
      assert (p - q) * s <= (p - q) * 1.0;
    }
  }

  /** The point a fraction `s` of the way from `p` to `q`. */
  function Lerp(p: int, q: int, s: real): (r: real)
    requires 0.0 <= s <= 1.0
    ensures p <= q ==> p as real <= r <= q as real
    ensures q <= p ==> q as real <= r <= p as real
  {
    LerpBetween(p as real, q as real, s);
    p as real + (q - p) as real * s
  }

  function MinX(t: Tri): int
  {
    if t.v0.x <= t.v1.x && t.v0.x <= t.v2.x then t.v0.x
    else if t.v1.x <= t.v2.x then t.v1.x else t.v2.x
  }

  function MaxX(t: Tri): int
  {
    if t.v0.x >= t.v1.x && t.v0.x >= t.v2.x then t.v0.x
    else if t.v1.x >= t.v2.x then t.v1.x else t.v2.x
  }

  /** Lines 68-70: the `x` extent `(A.x, B.x)` of row `i`, after the swap
      that puts the left end first. Both ends lie within the horizontal
      extent of the triangle. */
  function Span(t: Tri, i: int): (s: (real, real))
    requires SortedByY(t) && 0 <= i < TotalHeight(t)
    ensures s.0 <= s.1
    ensures MinX(t) as real <= s.0 && s.1 <= MaxX(t) as real
  {
    var r := Fractions(t, i);
    var ax := Lerp(t.v0.x, t.v2.x, r.0);
    var bx := if SecondHalf(t, i) then Lerp(t.v1.x, t.v2.x, r.1) else Lerp(t.v0.x, t.v1.x, r.1);
    if ax > bx then (bx, ax) else (ax, bx)
  }

  /** Line 71: column `j` is written in row `i`. */
  predicate OnSpan(t: Tri, i: int, j: int)
    requires SortedByY(t) && 0 <= i < TotalHeight(t)
  {
    Trunc(Span(t, i).0) <= j && j as real <= Span(t, i).1
  }

  /** Line 73: the first byte of the pixel at column `j` of image row `y`,
      flipping rows with `image_size[0]` and striding by `image_size[1]`. */
  function PixelIndex(w: int, h: int, y: int, j: int): int
  {
    ((w - 1 - y) * h + j) * 3
  }

  /** The index line 73 computes for column `j` of row `i`. */
  function FlatIndex(w: int, h: int, t: Tri, i: int, j: int): int
  {
    PixelIndex(w, h, t.v0.y + i, j)
  }

  /** Byte `k` is one of the bytes that row `i`, column `j` writes (lines 75-77). */
  predicate Writes(w: int, h: int, t: Tri, i: int, j: int, k: int)
  {
    FlatIndex(w, h, t, i, j) <= k <= FlatIndex(w, h, t, i, j) + 2
  }

  /** Byte `k` is written by one of the first `n` rows. */
  ghost predicate LitRows(t: Tri, w: int, h: int, n: int, k: int)
    requires SortedByY(t)
  {
    exists i, j :: 0 <= i < n && i < TotalHeight(t) && OnSpan(t, i, j) && Writes(w, h, t, i, j, k)
  }

  /** Byte `k` is written by columns `Trunc(A.x) .. e - 1` of row `i`. */
  ghost predicate LitColumns(t: Tri, w: int, h: int, i: int, e: int, k: int)
    requires SortedByY(t) && 0 <= i < TotalHeight(t)
  {
    exists j :: OnSpan(t, i, j) && j < e && Writes(w, h, t, i, j, k)
  }

  /** Byte `k` is written by the fill. */
  ghost predicate FlatLit(t: Tri, w: int, h: int, k: int)
    requires SortedByY(t)
  {
    LitRows(t, w, h, TotalHeight(t), k)
  }

  /** What the source demands of its caller: every byte the fill writes lies in the buffer. */
  ghost predicate WritesInRange(t: Tri, w: int, h: int, len: int)
    requires SortedByY(t)
  {
    forall i, j :: 0 <= i < TotalHeight(t) && OnSpan(t, i, j) ==>
      0 <= FlatIndex(w, h, t, i, j) && FlatIndex(w, h, t, i, j) + 2 < len
  }

  /** Every pixel the fill writes lies in the triangle's bounding box,
      strictly below the row of its highest vertex, which is never drawn. */
  lemma SpanInBox(t: Tri, i: int, j: int)
    requires SortedByY(t) && 0 <= i < TotalHeight(t) && OnSpan(t, i, j)
    ensures MinX(t) <= j <= MaxX(t)
    ensures t.v0.y <= t.v0.y + i < t.v2.y
  {
    var lo := Span(t, i).0;
    if lo >= 0.0 {
      assert MinX(t) as real <= lo < Trunc(lo) as real + 1.0;
    }
  }

  /** A count divided by a non-zero count and multiplied back. */
  lemma DivMul(n: int, d: int)
    requires d != 0
    ensures d as real * (n as real / d as real) == n as real
  {
  }

  /** The horizontal section of the triangle at row `v0.y + i`: the long
      edge and the edge of the row's half both reach the height of the row at
      the fractions of line 66-67, and the span runs between the two
      crossings, left one first. */
  lemma SpanIsSection(t: Tri, i: int)
    requires SortedByY(t) && 0 <= i < TotalHeight(t)
    ensures var r := Fractions(t, i);
            var y := (t.v0.y + i) as real;
            var xLong := Lerp(t.v0.x, t.v2.x, r.0);
            var xHalf := if SecondHalf(t, i) then Lerp(t.v1.x, t.v2.x, r.1) else Lerp(t.v0.x, t.v1.x, r.1);
            && Lerp(t.v0.y, t.v2.y, r.0) == y
            && (if SecondHalf(t, i) then Lerp(t.v1.y, t.v2.y, r.1) else Lerp(t.v0.y, t.v1.y, r.1)) == y
            && Span(t, i).0 == (if xLong <= xHalf then xLong else xHalf)
            && Span(t, i).1 == (if xLong <= xHalf then xHalf else xLong)
  {
    var n := i - (if SecondHalf(t, i) then t.v1.y - t.v0.y else 0);
    DivMul(i, TotalHeight(t));
    DivMul(n, HalfHeight(t, i));
  }

  /** Within a row, every column between the two crossings is written, and
      every column written lies less than one pixel left of the left
      crossing and not right of the right one. */
  lemma ColumnsOfSection(t: Tri, i: int, j: int)
    requires SortedByY(t) && 0 <= i < TotalHeight(t)
    ensures Span(t, i).0 <= j as real <= Span(t, i).1 ==> OnSpan(t, i, j)
    ensures OnSpan(t, i, j) ==> Span(t, i).0 - 1.0 < j as real <= Span(t, i).1
  {
    var lo := Span(t, i).0;
    if lo <= j as real {
      if lo < 0.0 {
        assert Trunc(lo) as real - 1.0 < lo;
      } else {
        assert Trunc(lo) as real <= lo;
      }
    }
    if OnSpan(t, i, j) && lo >= 0.0 {
      assert lo < Trunc(lo) as real + 1.0;
    }
  }

  /** Every byte of a pixel of the section of a swept row is lit by the fill. */
  lemma SectionLit(t: Tri, w: int, h: int, i: int, j: int, k: int)
    requires SortedByY(t) && 0 <= i < TotalHeight(t)
    requires Span(t, i).0 <= j as real <= Span(t, i).1 && Writes(w, h, t, i, j, k)
    ensures FlatLit(t, w, h, k)
  {
    ColumnsOfSection(t, i, j);
  }

  /** A byte that belongs to no pixel of the bounding box is left alone. */
  lemma OutsideBoxUntouched(t: Tri, w: int, h: int, k: int)
    requires SortedByY(t)
    requires forall y, j :: t.v0.y <= y < t.v2.y && MinX(t) <= j <= MaxX(t) ==>
               !(PixelIndex(w, h, y, j) <= k <= PixelIndex(w, h, y, j) + 2)
    ensures !FlatLit(t, w, h, k)
  {
    forall i, j | 0 <= i < TotalHeight(t) && OnSpan(t, i, j)
      ensures !Writes(w, h, t, i, j, k)
    {
      SpanInBox(t, i, j);
    }
  }

  /** A triangle whose vertices share one row draws nothing. */
  lemma FlatDrawsNothing(t: Tri, w: int, h: int, k: int)
    requires SortedByY(t) && t.v0.y == t.v2.y
    ensures !FlatLit(t, w, h, k)
  {
  }

  lemma LitColumnsNext(t: Tri, w: int, h: int, i: int, e: int, k: int)
    requires SortedByY(t) && 0 <= i < TotalHeight(t) && OnSpan(t, i, e)
    ensures LitColumns(t, w, h, i, e + 1, k) <==> LitColumns(t, w, h, i, e, k) || Writes(w, h, t, i, e, k)
  {
    if LitColumns(t, w, h, i, e + 1, k) && !Writes(w, h, t, i, e, k) {
      var j :| OnSpan(t, i, j) && j < e + 1 && Writes(w, h, t, i, j, k);
      assert j < e;
    }
  }

  lemma LitRowsNext(t: Tri, w: int, h: int, i: int, e: int, k: int)
    requires SortedByY(t) && 0 <= i < TotalHeight(t) && !OnSpan(t, i, e) && Trunc(Span(t, i).0) <= e
    ensures LitRows(t, w, h, i + 1, k) <==> LitRows(t, w, h, i, k) || LitColumns(t, w, h, i, e, k)
  {
    if LitRows(t, w, h, i + 1, k) && !LitRows(t, w, h, i, k) {
      var i', j :| 0 <= i' < i + 1 && i' < TotalHeight(t) && OnSpan(t, i', j) && Writes(w, h, t, i', j, k);
      assert i' == i;
      assert j < e;
    }
    if LitColumns(t, w, h, i, e, k) {
      var j :| OnSpan(t, i, j) && j < e && Writes(w, h, t, i, j, k);
      assert 0 <= i < i + 1;
    }
  }

  /** fillTriangle: afterwards exactly the bytes of the pixels on the rows'
      spans are white and every other byte is as it was. */
  method FillTriangle(v0: Point, v1: Point, v2: Point, w: nat, h: nat, data: array<byte>)
    requires WritesInRange(SortByY(v0, v1, v2), w, h, data.Length)
    modifies data
    ensures forall k :: 0 <= k < data.Length ==>
              data[k] == if FlatLit(SortByY(v0, v1, v2), w, h, k) then 255 else old(data[k])
  {
    var p0, p1, p2 := v0, v1, v2;
    if p0.y > p1.y { p0, p1 := p1, p0; }
    if p0.y > p2.y { p0, p2 := p2, p0; }
    if p1.y > p2.y { p1, p2 := p2, p1; }
    var t := Tri(p0, p1, p2);
    assert t == SortByY(v0, v1, v2);
    var total_height := p2.y - p0.y;
    for i := 0 to total_height
      invariant forall k :: 0 <= k < data.Length ==>
                  data[k] == if LitRows(t, w, h, i, k) then 255 else old(data[k])
    {
      var (ax, bx) := Span(t, i);
      var j := Trunc(ax);
      while j as real <= bx
        invariant Trunc(ax) <= j
        invariant forall k :: 0 <= k < data.Length ==>
                    data[k] == if LitRows(t, w, h, i, k) || LitColumns(t, w, h, i, j, k) then 255 else old(data[k])
        decreases bx.Floor - j
      {
        var index := ((w - 1 - (p0.y + i)) * h + j) * 3;
        assert index == FlatIndex(w, h, t, i, j);
        data[index] := 255;
        data[index + 1] := 255;
        data[index + 2] := 255;
        forall k | 0 <= k < data.Length {
          LitColumnsNext(t, w, h, i, j, k);
        }
        j := j + 1;
      }
      forall k | 0 <= k < data.Length {
        LitRowsNext(t, w, h, i, j, k);
      }
    }
  }
}
