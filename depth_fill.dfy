/** fillTriangle2 (main.cpp:82-124): the depth-tested, shaded scanline fill.

    The vertices are sorted by `y`, but each of the three swaps exchanges
    the intensities `ity0` and `ity1`, whichever vertices it moves, so
    `ity2` never moves. Everything is scaled by 800, the rows above the
    lowest vertex are swept, and for every column `j` from the truncated
    left end of a row up to (not including) its right end a point `P` and an
    intensity are interpolated with the fraction `phi`. The source writes
    `A + phi * B - A`, which is `phi * B`, not a point between `A` and `B`.
    A point inside the image is tested against the depth buffer with a
    greater-wins comparison and, when it passes, its truncated depth is
    stored and the three bytes at the same index (not three times it) get
    the red intensity scaled by 255.

    The depth buffer and the image are arrays updated in place;
    DepthFill is the same computation on values, and FillTriangle2 is
    proved to leave exactly that result in the arrays. */
module DepthFill {
  import opened ScreenMath

  /** The scale factor of lines 87-92. */
  const SCALE: real := 800.0

  /** The vertices and the intensities in the slots they occupy after sorting. */
  datatype Tri3 = Tri3(v0: Vec3, v1: Vec3, v2: Vec3, i0: Vec3, i1: Vec3, i2: Vec3)

  predicate SortedByY(t: Tri3)
  {
    t.v0.y <= t.v1.y <= t.v2.y
  }

  /** Line 84: the first two vertices in order of `y`. */
  function Order01(t: Tri3): (s: Tri3)
    ensures s.v0.y <= s.v1.y && s.v2 == t.v2 && s.i2 == t.i2
    ensures multiset{s.v0, s.v1, s.v2} == multiset{t.v0, t.v1, t.v2}
    ensures multiset{s.i0, s.i1} == multiset{t.i0, t.i1}
  {
    if t.v0.y > t.v1.y then Tri3(t.v1, t.v0, t.v2, t.i1, t.i0, t.i2) else t
  }

  /** Line 85: the first and the third vertex in order of `y`, swapping the
      first two intensities. */
  function Order02(t: Tri3): (s: Tri3)
    ensures s.v0.y <= s.v2.y && s.v1 == t.v1 && s.i2 == t.i2
    ensures t.v0.y <= t.v1.y ==> s.v0.y <= s.v1.y
    ensures multiset{s.v0, s.v1, s.v2} == multiset{t.v0, t.v1, t.v2}
    ensures multiset{s.i0, s.i1} == multiset{t.i0, t.i1}
  {
    if t.v0.y > t.v2.y then Tri3(t.v2, t.v1, t.v0, t.i1, t.i0, t.i2) else t
  }

  /** Line 86: the last two vertices in order of `y`, swapping the first
      two intensities. */
  function Order12(t: Tri3): (s: Tri3)
    ensures s.v1.y <= s.v2.y && s.v0 == t.v0 && s.i2 == t.i2
    ensures t.v0.y <= t.v1.y && t.v0.y <= t.v2.y ==> SortedByY(s)
    ensures multiset{s.v0, s.v1, s.v2} == multiset{t.v0, t.v1, t.v2}
    ensures multiset{s.i0, s.i1} == multiset{t.i0, t.i1}
  {
    if t.v1.y > t.v2.y then Tri3(t.v0, t.v2, t.v1, t.i1, t.i0, t.i2) else t
  }

  /** Lines 84-86: the vertices come out in ascending order of `y` and are a
      permutation of the arguments; the intensity swaps always exchange the
      first two slots, so `ity2` stays in the third slot whatever the
      vertices do. */
  function SortByY(v0: Vec3, v1: Vec3, v2: Vec3, ity0: Vec3, ity1: Vec3, ity2: Vec3): (t: Tri3)
    ensures SortedByY(t)
    ensures multiset{t.v0, t.v1, t.v2} == multiset{v0, v1, v2}
    ensures t.i2 == ity2 && multiset{t.i0, t.i1} == multiset{ity0, ity1}
  {
    Order12(Order02(Order01(Tri3(v0, v1, v2, ity0, ity1, ity2))))
  }

  /** The intensities are not kept with their vertices: for vertices at
      heights 2, 3 and 1, the lowest vertex (the third argument) ends up
      first but carries the first intensity, not the third. */
  lemma IntensitiesDoNotFollowVertices()
    ensures var t := SortByY(Vec3(0.0, 2.0, 0.0), Vec3(0.0, 3.0, 0.0), Vec3(0.0, 1.0, 0.0),
                             Vec3(1.0, 0.0, 0.0), Vec3(2.0, 0.0, 0.0), Vec3(3.0, 0.0, 0.0));
            t.v0 == Vec3(0.0, 1.0, 0.0) && t.i0 == Vec3(1.0, 0.0, 0.0)
  {
  }

  /** Lines 87-92: all six vectors multiplied by 800; the order by `y` survives. */
  function Scaled(t: Tri3): (s: Tri3)
    ensures SortedByY(t) ==> SortedByY(s)
  {
    Tri3(Scale(t.v0, SCALE), Scale(t.v1, SCALE), Scale(t.v2, SCALE),
         Scale(t.i0, SCALE), Scale(t.i1, SCALE), Scale(t.i2, SCALE))
  }

  /** Line 93: the number of rows swept. */
  function TotalHeight(t: Tri3): int
  {
    Trunc(t.v2.y - t.v0.y)
  }

  /** Line 97. */
  predicate SecondHalf(t: Tri3, i: int)
  {
    i as real > t.v1.y - t.v0.y || t.v1.y == t.v0.y
  }

  /** Line 98: the truncated height of the half containing row `i`. */
  function HalfHeight(t: Tri3, i: int): int
  {
    if SecondHalf(t, i) then Trunc(t.v2.y - t.v1.y) else Trunc(t.v1.y - t.v0.y)
  }

  /** The height of line 98 is 0 in a swept row only in row 0 of a lower
      half less than one unit tall; there line 100 divides 0 by 0. */
  lemma ZeroHalfOnlyAtBase(t: Tri3, i: int)
    requires SortedByY(t) && 0 <= i < TotalHeight(t) && HalfHeight(t, i) == 0
    ensures !SecondHalf(t, i) && i == 0
  {
  }

  /** The two ends of a row and their intensities, left end first, or a row
      whose fractions are not numbers (0 / 0) and whose column loop therefore
      does not run. */
  datatype Row = Skipped | Ends(A: Vec3, B: Vec3, iA: Vec3, iB: Vec3)

  /** Lines 97-106 for row `i`. */
  function RowEnds(t: Tri3, i: int): (r: Row)
    requires SortedByY(t) && 0 <= i < TotalHeight(t)
    ensures r.Ends? ==> r.A.x <= r.B.x
    ensures r.Skipped? ==> i == 0 && !SecondHalf(t, i)
  {
    var hh := HalfHeight(t, i);
    if hh == 0 then
      ZeroHalfOnlyAtBase(t, i);
      Skipped
    else
      var second := SecondHalf(t, i);
      var a := i as real / TotalHeight(t) as real;
      var b := (i as real - (if second then t.v1.y - t.v0.y else 0.0)) / hh as real;
      var A := Add(t.v0, Scale(Sub(t.v2, t.v0), a));
      var B := if second then Add(t.v1, Scale(Sub(t.v2, t.v1), b)) else Add(t.v0, Scale(Sub(t.v1, t.v0), b));
      var iA := Add(t.i0, Scale(Sub(t.i2, t.i0), a));
      var iB := if second then Add(t.i1, Scale(Sub(t.i2, t.i1), b)) else Add(t.i0, Scale(Sub(t.i1, t.i0), b));
      if A.x > B.x then Ends(B, A, iB, iA) else Ends(A, B, iA, iB)
  }

  /** Line 108: the first column of a row. */
  function FirstColumn(r: Row): int
    requires r.Ends?
  {
    Trunc(r.A.x)
  }

  /** Line 108: the number of columns of a row. */
  function ColumnCount(r: Row): nat
  {
    if r.Skipped? || Ceil(r.B.x) < Trunc(r.A.x) then 0 else Ceil(r.B.x) - Trunc(r.A.x)
  }

  /** The columns counted are exactly those the loop of line 108 visits:
      from the truncated left end while below the right end. */
  lemma ColumnsVisited(r: Row, j: int)
    requires r.Ends?
    ensures FirstColumn(r) <= j < FirstColumn(r) + ColumnCount(r) <==> Trunc(r.A.x) <= j && (j as real) < r.B.x
  {
  }

  /** What one column produces: the point and its intensity. */
  datatype Fragment = Fragment(P: Vec3, ityP: Vec3)

  /** Line 109. */
  function Phi(r: Row, j: int): real
    requires r.Ends?
  {
    if r.B.x == r.A.x then 1.0 else (j as real - r.A.x) / (r.B.x - r.A.x)
  }

  /** Lines 109-111 for column `j`: the point is `phi` times the right end
      (the two `A` terms cancel), the intensity is interpolated between the
      ends. */
  function FragmentAt(r: Row, j: int): (f: Fragment)
    requires r.Ends?
    ensures f.P == Scale(r.B, Phi(r, j))
  {
    var phi := Phi(r, j);
    Fragment(Sub(Add(r.A, Scale(r.B, phi)), r.A), Add(r.iA, Scale(Sub(r.iB, r.iA), phi)))
  }

  /** Line 112: the index of `P`, computed in floating point and truncated. */
  function Index(w: nat, P: Vec3): int
  {
    Trunc(P.x + P.y * w as real)
  }

  /** Line 113 as written: the point lies in the image. */
  predicate InFrame(w: nat, h: nat, P: Vec3)
  {
    !(P.x >= w as real || P.y >= h as real || P.x < 0.0 || P.y < 0.0)
  }

  /** The triangle of the overrun below, once sorted and scaled: (-1/2, 0),
      (-15/2, 3) and (9/2, 5). */
  predicate OverrunShape(t: Tri3)
  {
    && t.v0.x == -1.0 / 2.0 && t.v0.y == 0.0
    && t.v1.x == -15.0 / 2.0 && t.v1.y == 3.0
    && t.v2.x == 9.0 / 2.0 && t.v2.y == 5.0
  }

  /** Sorting leaves the overrun triangle as it is and scaling makes it
      (-1/2, 0), (-15/2, 3), (9/2, 5). */
  lemma OverrunTriangle(v0: Vec3, v1: Vec3, v2: Vec3, z: Vec3)
    requires v0.x == -1.0 / 1600.0 && v0.y == 0.0 && v1.x == -15.0 / 1600.0 && v1.y == 3.0 / 800.0
    requires v2.x == 9.0 / 1600.0 && v2.y == 5.0 / 800.0
    ensures OverrunShape(Scaled(SortByY(v0, v1, v2, z, z, z)))
  {
    assert Order01(Tri3(v0, v1, v2, z, z, z)) == Tri3(v0, v1, v2, z, z, z);
    assert Order02(Tri3(v0, v1, v2, z, z, z)) == Tri3(v0, v1, v2, z, z, z);
    assert Order12(Tri3(v0, v1, v2, z, z, z)) == Tri3(v0, v1, v2, z, z, z);
  }

  /** Row 4 of that triangle lies in its upper half, of height 2. */
  lemma OverrunHeights(t: Tri3)
    requires OverrunShape(t)
    ensures TotalHeight(t) == 5 && SecondHalf(t, 4) && HalfHeight(t, 4) == 2
  {
    TruncOfInt(5);
    TruncOfInt(2);
  }

  /** A row of an upper half whose height is not 0 interpolates along the
      long edge and the upper edge. */
  lemma UpperRowEnds(t: Tri3, i: int, a: real, b: real)
    requires SortedByY(t) && 0 <= i < TotalHeight(t) && SecondHalf(t, i) && HalfHeight(t, i) != 0
    requires a == i as real / TotalHeight(t) as real
    requires b == (i as real - (t.v1.y - t.v0.y)) / HalfHeight(t, i) as real
    ensures var A := Add(t.v0, Scale(Sub(t.v2, t.v0), a));
            var B := Add(t.v1, Scale(Sub(t.v2, t.v1), b));
            var iA := Add(t.i0, Scale(Sub(t.i2, t.i0), a));
            var iB := Add(t.i1, Scale(Sub(t.i2, t.i1), b));
            RowEnds(t, i) == if A.x > B.x then Ends(B, A, iB, iA) else Ends(A, B, iA, iB)
  {
  }

  /** The fractions of row 4 of that triangle. */
  lemma OverrunFractions(t: Tri3)
    requires OverrunShape(t)
    ensures 4 as real / TotalHeight(t) as real == 4.0 / 5.0
    ensures (4 as real - (t.v1.y - t.v0.y)) / HalfHeight(t, 4) as real == 1.0 / 2.0
  {
    OverrunHeights(t);
  }

  /** The interpolated ends of row 4 of that triangle: (7/2, 4) on the long
      edge and (-3/2, 4) on the upper edge. */
  lemma OverrunInterpolation(t: Tri3, a: real, b: real)
    requires OverrunShape(t) && a == 4.0 / 5.0 && b == 1.0 / 2.0
    ensures Add(t.v0, Scale(Sub(t.v2, t.v0), a)).x == 7.0 / 2.0
    ensures Add(t.v0, Scale(Sub(t.v2, t.v0), a)).y == 4.0
    ensures Add(t.v1, Scale(Sub(t.v2, t.v1), b)).x == -3.0 / 2.0
  {
  }

  /** Row 4 of that triangle runs, after the swap, from (-3/2, 4) to (7/2, 4). */
  lemma OverrunRow(t: Tri3)
    requires OverrunShape(t)
    ensures SortedByY(t) && 4 < TotalHeight(t) && RowEnds(t, 4).Ends?
    ensures RowEnds(t, 4).A.x == -3.0 / 2.0 && RowEnds(t, 4).B.x == 7.0 / 2.0 && RowEnds(t, 4).B.y == 4.0
  {
    OverrunHeights(t);
    OverrunFractions(t);
    var a := 4 as real / TotalHeight(t) as real;
    var b := (4 as real - (t.v1.y - t.v0.y)) / HalfHeight(t, 4) as real;
    OverrunInterpolation(t, a, b);
    UpperRowEnds(t, 4, a, b);
  }

  /** That row visits columns -1 .. 3, and its column 3 is the point (63/20, 18/5). */
  lemma OverrunPoint(r: Row)
    requires r.Ends? && r.A.x == -3.0 / 2.0 && r.B.x == 7.0 / 2.0 && r.B.y == 4.0
    ensures FirstColumn(r) == -1 && ColumnCount(r) == 5
    ensures FragmentAt(r, 3).P.x == 63.0 / 20.0 && FragmentAt(r, 3).P.y == 18.0 / 5.0
  {
    assert Ceil(7.0 / 2.0) == 4;
    assert Trunc(-3.0 / 2.0) == -1;
    assert Phi(r, 3) == 9.0 / 10.0;
  }

  /** The guard of line 113 lets a point in the image whose `y` is not a
      whole number reach past the end of a `w * h` depth buffer: on a 4 x 4
      image the triangle (-1/1600, 0), (-15/1600, 3/800), (9/1600, 5/800)
      has, after scaling, row 4 running from (-3/2, 4) to (7/2, 4), and its
      column 3 is the point (63/20, 18/5), which is in the image and has
      index 17 (from 17.55), past the 16 entries of the buffer. */
  lemma InFrameAdmitsOverrun(v0: Vec3, v1: Vec3, v2: Vec3, z: Vec3)
    requires v0.x == -1.0 / 1600.0 && v0.y == 0.0 && v1.x == -15.0 / 1600.0 && v1.y == 3.0 / 800.0
    requires v2.x == 9.0 / 1600.0 && v2.y == 5.0 / 800.0
    ensures var t := Scaled(SortByY(v0, v1, v2, z, z, z));
            4 < TotalHeight(t) && RowEnds(t, 4).Ends? &&
            FirstColumn(RowEnds(t, 4)) <= 3 < FirstColumn(RowEnds(t, 4)) + ColumnCount(RowEnds(t, 4)) &&
            InFrame(4, 4, FragmentAt(RowEnds(t, 4), 3).P) && Index(4, FragmentAt(RowEnds(t, 4), 3).P) == 17 &&
            !Admits(4, 4, FragmentAt(RowEnds(t, 4), 3).P)
  {
    OverrunTriangle(v0, v1, v2, z);
    var t := Scaled(SortByY(v0, v1, v2, z, z, z));
    OverrunRow(t);
    var r := RowEnds(t, 4);
    OverrunPoint(r);
    OverrunIndex(FragmentAt(r, 3).P);
  }

  /** The index of the point (63/20, 18/5) on a 4 x 4 image is 17. */
  lemma OverrunIndex(P: Vec3)
    requires P.x == 63.0 / 20.0 && P.y == 18.0 / 5.0
    ensures InFrame(4, 4, P) && Index(4, P) == 17
  {
    assert P.x + P.y * 4.0 == 351.0 / 20.0;
    assert (351.0 / 20.0).Floor == 17;
  }

  /** Line 113 as written is enough whenever `P.y` is a whole number: the
      index then stays below `w * h`. */
  lemma InFrameWholeRowInBuffer(w: nat, h: nat, P: Vec3)
    requires InFrame(w, h, P) && P.y == P.y.Floor as real
    ensures 0 <= Index(w, P) < w * h
  {
    var n := P.y.Floor;
    MulBound(w, n, h - 1);
    assert P.y * w as real == (w * n) as real;
    assert w * (h - 1) + w == w * h;
  }

  /** The guard the model uses: line 113 and, in addition, an index inside
      the `w * h` depth buffer. */
  predicate Admits(w: nat, h: nat, P: Vec3)
  {
    InFrame(w, h, P) && Index(w, P) < w * h
  }

  /** An admitted point's index is a valid index of the depth buffer. */
  lemma AdmitsInBuffer(w: nat, h: nat, P: Vec3)
    requires Admits(w, h, P)
    ensures 0 <= Index(w, P) < w * h
  {
    assert 0.0 <= P.y * w as real;
  }

  /** The depth buffer and the image. */
  datatype Frame = Frame(depth: seq<int>, colour: seq<byte>)

  /** The buffers are large enough for a `w` x `h` image (lines 148 and 154). */
  predicate Fits(f: Frame, w: nat, h: nat)
  {
    w * h <= |f.depth| && 3 * (w * h) <= |f.colour|
  }

  /** Lines 115-118: depth `d` at entry `idx`, colour byte `c` in the three
      bytes from `idx` on, everything else as it was. */
  function Store(f: Frame, idx: int, d: int, c: byte): (g: Frame)
    requires 0 <= idx < |f.depth| && idx + 2 < |f.colour|
    ensures |g.depth| == |f.depth| && |g.colour| == |f.colour|
    ensures forall k :: 0 <= k < |f.depth| ==> g.depth[k] == if k == idx then d else f.depth[k]
    ensures forall k :: 0 <= k < |f.colour| ==> g.colour[k] == if idx <= k <= idx + 2 then c else f.colour[k]
  {
    Frame(f.depth[idx := d], f.colour[idx := c][idx + 1 := c][idx + 2 := c])
  }

  /** Lines 113-120 for one fragment. Nothing but the depth entry at the
      point's index and the three bytes from that index on can change, they
      change only when the point is admitted and nearer than the depth
      stored there, and a depth entry never decreases. */
  function Plot(f: Frame, w: nat, h: nat, frag: Fragment): (g: Frame)
    requires Fits(f, w, h)
    ensures |g.depth| == |f.depth| && |g.colour| == |f.colour|
    ensures forall k :: 0 <= k < |f.depth| ==> f.depth[k] <= g.depth[k]
    ensures forall k :: 0 <= k < |f.depth| && g.depth[k] != f.depth[k] ==> Touches(w, h, frag, 1, k)
    ensures forall k :: 0 <= k < |f.colour| && g.colour[k] != f.colour[k] ==> Touches(w, h, frag, 3, k)
    ensures !Admits(w, h, frag.P) ==> g == f
  {
    var P := frag.P;
    if !Admits(w, h, P) then f
    else
      var idx := Index(w, P);
      AdmitsInBuffer(w, h, P);
      if f.depth[idx] as real < P.z then
        TruncAbove(f.depth[idx], P.z);
        Store(f, idx, Trunc(P.z), ToByte(frag.ityP.x * 255.0))
      else f
  }

  /** After an admitted fragment, the depth at its index is at least its
      own truncated depth, whether it won the test or not. */
  lemma PlotCoversDepth(f: Frame, w: nat, h: nat, frag: Fragment)
    requires Fits(f, w, h) && Admits(w, h, frag.P)
    ensures 0 <= Index(w, frag.P) < |f.depth|
    ensures Trunc(frag.P.z) <= Plot(f, w, h, frag).depth[Index(w, frag.P)]
  {
    AdmitsInBuffer(w, h, frag.P);
    var d := f.depth[Index(w, frag.P)];
    if !(d as real < frag.P.z) && frag.P.z >= 0.0 {
      assert Trunc(frag.P.z) as real <= frag.P.z <= d as real;
    }
  }

  /** An admitted fragment nearer than the stored depth wins: its truncated
      depth is stored and its intensity fills all three bytes. */
  lemma PlotWinner(f: Frame, w: nat, h: nat, frag: Fragment)
    requires Fits(f, w, h) && Admits(w, h, frag.P)
    requires 0 <= Index(w, frag.P) < |f.depth| && f.depth[Index(w, frag.P)] as real < frag.P.z
    ensures var g := Plot(f, w, h, frag); var idx := Index(w, frag.P);
            g.depth[idx] == Trunc(frag.P.z) &&
            g.colour[idx] == g.colour[idx + 1] == g.colour[idx + 2] == ToByte(frag.ityP.x * 255.0)
  {
    AdmitsInBuffer(w, h, frag.P);
  }

  /** A fragment no nearer than the stored depth changes nothing. */
  lemma PlotLoser(f: Frame, w: nat, h: nat, frag: Fragment)
    requires Fits(f, w, h) && 0 <= Index(w, frag.P) < |f.depth| && frag.P.z <= f.depth[Index(w, frag.P)] as real
    ensures Plot(f, w, h, frag) == f
  {
  }

  /** Plotting the same fragment twice is plotting it once. */
  lemma PlotTwice(f: Frame, w: nat, h: nat, frag: Fragment)
    requires Fits(f, w, h)
    ensures Fits(Plot(f, w, h, frag), w, h)
    ensures Plot(Plot(f, w, h, frag), w, h, frag) == Plot(f, w, h, frag)
  {
    var g := Plot(f, w, h, frag);
    if Admits(w, h, frag.P) {
      AdmitsInBuffer(w, h, frag.P);
      var idx := Index(w, frag.P);
      if f.depth[idx] as real < frag.P.z {
        var g' := Plot(g, w, h, frag);
        if g.depth[idx] as real < frag.P.z {
          assert g'.depth == g.depth;
          assert g'.colour == g.colour;
        }
      }
    }
  }

  /** A second fragment at the same point writes nothing when the first's
      depth does not exceed its own truncation, that is, when it is a whole
      number or negative (truncation toward zero rounds a negative depth up):
      the stored depth is then at least the repeat's, and the test is strict. */
  lemma PlotRepeatAtEqualDepth(f: Frame, w: nat, h: nat, frag: Fragment, frag': Fragment)
    requires Fits(f, w, h) && frag'.P == frag.P && Trunc(frag.P.z) as real >= frag.P.z
    ensures Fits(Plot(f, w, h, frag), w, h)
    ensures Plot(Plot(f, w, h, frag), w, h, frag') == Plot(f, w, h, frag)
  {
    var g := Plot(f, w, h, frag);
    if Admits(w, h, frag.P) {
      AdmitsInBuffer(w, h, frag.P);
      PlotCoversDepth(f, w, h, frag);
      PlotLoser(g, w, h, frag');
    }
  }

  /** The rule for two admitted fragments at one index: the first leaves its
      truncated depth there if it won and the old entry otherwise, and the
      second writes exactly when its depth exceeds that stored value. */
  lemma SecondAtIndex(f: Frame, w: nat, h: nat, first: Fragment, second: Fragment)
    requires Fits(f, w, h) && Admits(w, h, first.P) && Admits(w, h, second.P)
    requires Index(w, first.P) == Index(w, second.P)
    ensures 0 <= Index(w, first.P) < |f.depth| && Fits(Plot(f, w, h, first), w, h)
    ensures var idx := Index(w, first.P); var d := f.depth[idx];
            var stored := if d as real < first.P.z then Trunc(first.P.z) else d;
            var g := Plot(f, w, h, first);
            g.depth[idx] == stored &&
            (stored as real < second.P.z ==>
               Plot(g, w, h, second) == Store(g, idx, Trunc(second.P.z), ToByte(second.ityP.x * 255.0))) &&
            (second.P.z <= stored as real ==> Plot(g, w, h, second) == g)
  {
    AdmitsInBuffer(w, h, first.P);
    AdmitsInBuffer(w, h, second.P);
  }

  /** Two admitted fragments at the same index whose truncated depths
      differ leave the same buffers in either order: those of the nearer
      one alone. */
  lemma NearerWinsEitherOrder(f: Frame, w: nat, h: nat, far: Fragment, near: Fragment)
    requires Fits(f, w, h) && Admits(w, h, far.P) && Admits(w, h, near.P)
    requires Index(w, far.P) == Index(w, near.P) && Trunc(far.P.z) < Trunc(near.P.z)
    ensures Fits(Plot(f, w, h, far), w, h) && Fits(Plot(f, w, h, near), w, h)
    ensures Plot(Plot(f, w, h, far), w, h, near) == Plot(f, w, h, near)
    ensures Plot(Plot(f, w, h, near), w, h, far) == Plot(f, w, h, near)
  {
    AdmitsInBuffer(w, h, far.P);
    var idx := Index(w, far.P);
    var d := f.depth[idx];
    assert Trunc(far.P.z) as real < near.P.z;
    assert far.P.z < Trunc(near.P.z) as real;
    var cFar, cNear := ToByte(far.ityP.x * 255.0), ToByte(near.ityP.x * 255.0);
    if d as real < far.P.z {
      var g := Store(f, idx, Trunc(far.P.z), cFar);
      assert Plot(f, w, h, far) == g;
      assert Plot(g, w, h, near) == Store(g, idx, Trunc(near.P.z), cNear);
      assert Store(g, idx, Trunc(near.P.z), cNear) == Store(f, idx, Trunc(near.P.z), cNear);
    }
    if d as real < near.P.z {
      var g := Store(f, idx, Trunc(near.P.z), cNear);
      assert Plot(f, w, h, near) == g;
      assert Plot(g, w, h, far) == g;
    }
  }

  /** Two fragments at the same point whose depths truncate alike need not
      be ordered by the test: at depths 10.3 and 10.7, both above the stored
      10, whichever comes second wins. First pixel of a 2 x 1 image, with red
      intensities 1/2 and 1/4. */
  lemma TieDependsOnOrder(f: Frame, p: Fragment, q: Fragment)
    requires |f.depth| == 2 && |f.colour| == 6 && f.depth[0] == INT_MIN
    requires p.P.x == 0.0 && p.P.y == 0.0 && p.P.z == 103.0 / 10.0 && p.ityP.x == 1.0 / 2.0
    requires q.P.x == 0.0 && q.P.y == 0.0 && q.P.z == 107.0 / 10.0 && q.ityP.x == 1.0 / 4.0
    ensures Fits(f, 2, 1)
    ensures Plot(Plot(f, 2, 1, p), 2, 1, q).colour[0] == 63
    ensures Plot(Plot(f, 2, 1, q), 2, 1, p).colour[0] == 127
  {
    TruncOfInt(0);
    assert Index(2, p.P) == 0 && Index(2, q.P) == 0;
    assert Trunc(103.0 / 10.0) == 10 && Trunc(107.0 / 10.0) == 10;
    assert ToByte(p.ityP.x * 255.0) == 127 by {
      assert (p.ityP.x * 255.0).Floor == 127;
    }
    assert ToByte(q.ityP.x * 255.0) == 63 by {
      assert (q.ityP.x * 255.0).Floor == 63;
    }
  }

  /** At negative depths the same tie goes the other way: -10.3 stores its
      truncation -10, which -10.7 does not exceed, so the first fragment's
      colour stays whichever of the two comes first. */
  lemma NegativeTieKeepsFirst(f: Frame, p: Fragment, q: Fragment)
    requires |f.depth| == 2 && |f.colour| == 6 && f.depth[0] == INT_MIN
    requires p.P.x == 0.0 && p.P.y == 0.0 && p.P.z == -103.0 / 10.0 && p.ityP.x == 1.0 / 2.0
    requires q.P.x == 0.0 && q.P.y == 0.0 && q.P.z == -107.0 / 10.0 && q.ityP.x == 1.0 / 4.0
    ensures Fits(f, 2, 1)
    ensures Plot(Plot(f, 2, 1, p), 2, 1, q).colour[0] == 127
    ensures Plot(Plot(f, 2, 1, q), 2, 1, p).colour[0] == 63
  {
    TruncOfInt(0);
    assert Index(2, p.P) == 0 && Index(2, q.P) == 0;
    assert Trunc(-103.0 / 10.0) == -10 && Trunc(-107.0 / 10.0) == -10;
    assert ToByte(p.ityP.x * 255.0) == 127 by {
      assert (p.ityP.x * 255.0).Floor == 127;
    }
    assert ToByte(q.ityP.x * 255.0) == 63 by {
      assert (q.ityP.x * 255.0).Floor == 63;
    }
  }

  /** A repeat at a fractional, non-negative depth passes the test again,
      because the depth stored for the first is its truncation, below its own
      depth: the repeat rewrites the bytes with its own intensity, as if the
      first had never been drawn. */
  lemma PlotRepeatFractionalRewrites(f: Frame, w: nat, h: nat, frag: Fragment, frag': Fragment)
    requires Fits(f, w, h) && Admits(w, h, frag.P) && frag'.P == frag.P
    requires 0.0 <= frag.P.z && frag.P.z.Floor as real < frag.P.z
    requires 0 <= Index(w, frag.P) < |f.depth| && f.depth[Index(w, frag.P)] as real < frag.P.z
    ensures Fits(Plot(f, w, h, frag), w, h)
    ensures Plot(Plot(f, w, h, frag), w, h, frag') == Plot(f, w, h, frag')
  {
    AdmitsInBuffer(w, h, frag.P);
    var idx, z := Index(w, frag.P), frag.P.z;
    var g := Store(f, idx, Trunc(z), ToByte(frag.ityP.x * 255.0));
    assert Plot(f, w, h, frag) == g;
    var c' := ToByte(frag'.ityP.x * 255.0);
    assert Plot(g, w, h, frag') == Store(g, idx, Trunc(z), c');
    assert Store(g, idx, Trunc(z), c') == Store(f, idx, Trunc(z), c');
  }

  /** Because the colour index is the pixel index, not three times it, the
      bytes of neighbouring pixels overlap and the order of two fragments at
      different points matters: on a 2 x 1 image, fragments at (0, 0) and
      (1, 0) both write byte 1. */
  lemma AdjacentPlotsOverlap(f: Frame, p: Fragment, q: Fragment)
    requires |f.depth| == 2 && |f.colour| == 6 && f.depth[0] == INT_MIN && f.depth[1] == INT_MIN
    requires p.P.x == 0.0 && p.P.y == 0.0 && p.P.z == 11.0 / 2.0 && p.ityP.x == 1.0 / 2.0
    requires q.P.x == 1.0 && q.P.y == 0.0 && q.P.z == 7.0 && q.ityP.x == 1.0 / 4.0
    ensures Fits(f, 2, 1)
    ensures Plot(Plot(f, 2, 1, p), 2, 1, q).colour[1] == 63
    ensures Plot(Plot(f, 2, 1, q), 2, 1, p).colour[1] == 127
  {
    OverlapFacts(p, q);
  }

  /** The indices, truncated depths and bytes of the two fragments above. */
  lemma OverlapFacts(p: Fragment, q: Fragment)
    requires p.P.x == 0.0 && p.P.y == 0.0 && p.P.z == 11.0 / 2.0 && p.ityP.x == 1.0 / 2.0
    requires q.P.x == 1.0 && q.P.y == 0.0 && q.P.z == 7.0 && q.ityP.x == 1.0 / 4.0
    ensures Admits(2, 1, p.P) && Index(2, p.P) == 0 && Trunc(p.P.z) == 5 && ToByte(p.ityP.x * 255.0) == 127
    ensures Admits(2, 1, q.P) && Index(2, q.P) == 1 && Trunc(q.P.z) == 7 && ToByte(q.ityP.x * 255.0) == 63
  {
    TruncOfInt(0);
    TruncOfInt(1);
    TruncOfInt(7);
    assert (p.ityP.x * 255.0).Floor == 127;
    assert (q.ityP.x * 255.0).Floor == 63;
  }

  /** Drawing the same two fragments a second time changes the image: the
      first fragment's fractional depth passes the test again and its bytes
      overwrite the shared byte, while the second, at a whole-number depth,
      is rejected. */
  lemma RepeatedPairOverwrites(f: Frame, p: Fragment, q: Fragment)
    requires |f.depth| == 2 && |f.colour| == 6 && f.depth[0] == INT_MIN && f.depth[1] == INT_MIN
    requires p.P.x == 0.0 && p.P.y == 0.0 && p.P.z == 11.0 / 2.0 && p.ityP.x == 1.0 / 2.0
    requires q.P.x == 1.0 && q.P.y == 0.0 && q.P.z == 7.0 && q.ityP.x == 1.0 / 4.0
    ensures Fits(f, 2, 1)
    ensures var once := Plot(Plot(f, 2, 1, p), 2, 1, q);
            Fits(once, 2, 1) && once.colour[1] == 63 &&
            Plot(Plot(once, 2, 1, p), 2, 1, q).colour[1] == 127
  {
    OverlapFacts(p, q);
    var once := Plot(Plot(f, 2, 1, p), 2, 1, q);
    assert once.depth[0] == 5 && once.depth[1] == 7;
  }

  /** The evidently intended store: three bytes from `3 * idx` on. */
  function StoreIntended(f: Frame, idx: int, d: int, c: byte): (g: Frame)
    requires 0 <= idx < |f.depth| && 3 * idx + 2 < |f.colour|
    ensures |g.depth| == |f.depth| && |g.colour| == |f.colour|
    ensures forall k :: 0 <= k < |f.depth| ==> g.depth[k] == if k == idx then d else f.depth[k]
    ensures forall k :: 0 <= k < |f.colour| ==> g.colour[k] == if 3 * idx <= k <= 3 * idx + 2 then c else f.colour[k]
  {
    Frame(f.depth[idx := d], f.colour[3 * idx := c][3 * idx + 1 := c][3 * idx + 2 := c])
  }

  /** Lines 112-120 with the colour index multiplied by 3: a fragment
      changes only its own depth entry and its own pixel's three bytes. */
  function PlotIntended(f: Frame, w: nat, h: nat, frag: Fragment): (g: Frame)
    requires Fits(f, w, h)
    ensures Fits(g, w, h) && |g.depth| == |f.depth| && |g.colour| == |f.colour|
    ensures forall k :: 0 <= k < |f.depth| ==> f.depth[k] <= g.depth[k]
    ensures forall k :: 0 <= k < |f.depth| && g.depth[k] != f.depth[k] ==> Touches(w, h, frag, 1, k)
    ensures forall k :: 0 <= k < |f.colour| && g.colour[k] != f.colour[k] ==>
              Admits(w, h, frag.P) && 3 * Index(w, frag.P) <= k < 3 * Index(w, frag.P) + 3
    ensures !Admits(w, h, frag.P) ==> g == f
  {
    var P := frag.P;
    if !Admits(w, h, P) then f
    else
      var idx := Index(w, P);
      AdmitsInBuffer(w, h, P);
      if f.depth[idx] as real < P.z then
        TruncAbove(f.depth[idx], P.z);
        StoreIntended(f, idx, Trunc(P.z), ToByte(frag.ityP.x * 255.0))
      else f
  }

  /** With the intended index, fragments at different points commute. */
  lemma PlotIntendedCommutes(f: Frame, w: nat, h: nat, p: Fragment, q: Fragment)
    requires Fits(f, w, h) && Index(w, p.P) != Index(w, q.P)
    ensures PlotIntended(PlotIntended(f, w, h, p), w, h, q) == PlotIntended(PlotIntended(f, w, h, q), w, h, p)
  {
    var pq := PlotIntended(PlotIntended(f, w, h, p), w, h, q);
    var qp := PlotIntended(PlotIntended(f, w, h, q), w, h, p);
    var fp, fq := PlotIntended(f, w, h, p), PlotIntended(f, w, h, q);
    if Admits(w, h, p.P) && Admits(w, h, q.P) {
      AdmitsInBuffer(w, h, p.P);
      AdmitsInBuffer(w, h, q.P);
      var ip, iq := Index(w, p.P), Index(w, q.P);
      assert fq.depth[ip] == f.depth[ip] && fp.depth[iq] == f.depth[iq];
      assert PlotIntended(fp, w, h, q) == if f.depth[iq] as real < q.P.z then StoreIntended(fp, iq, Trunc(q.P.z), ToByte(q.ityP.x * 255.0)) else fp;
      assert PlotIntended(fq, w, h, p) == if f.depth[ip] as real < p.P.z then StoreIntended(fq, ip, Trunc(p.P.z), ToByte(p.ityP.x * 255.0)) else fq;
      assert forall k :: 0 <= k < |f.depth| ==> pq.depth[k] == qp.depth[k];
      assert forall k :: 0 <= k < |f.colour| ==> pq.colour[k] == qp.colour[k];
      assert pq.depth == qp.depth;
      assert pq.colour == qp.colour;
    }
  }

  /** Lines 108-122: the first `n` columns of row `r`, left to right. */
  function Columns(f: Frame, w: nat, h: nat, r: Row, n: nat): (g: Frame)
    requires Fits(f, w, h) && r.Ends?
    ensures |g.depth| == |f.depth| && |g.colour| == |f.colour|
  {
    if n == 0 then f else Plot(Columns(f, w, h, r, n - 1), w, h, FragmentAt(r, FirstColumn(r) + n - 1))
  }

  /** Lines 95-123: the first `n` rows, bottom to top. */
  function Rows(f: Frame, w: nat, h: nat, t: Tri3, n: nat): (g: Frame)
    requires Fits(f, w, h) && SortedByY(t) && n <= TotalHeight(t)
    ensures |g.depth| == |f.depth| && |g.colour| == |f.colour|
  {
    if n == 0 then f
    else
      var g := Rows(f, w, h, t, n - 1);
      var r := RowEnds(t, n - 1);
      if r.Skipped? then g else Columns(g, w, h, r, ColumnCount(r))
  }

  /** fillTriangle2 on values: the buffers after filling one triangle. */
  function Fill(f: Frame, w: nat, h: nat, v0: Vec3, v1: Vec3, v2: Vec3, ity0: Vec3, ity1: Vec3, ity2: Vec3): Frame
    requires Fits(f, w, h)
  {
    var t := Scaled(SortByY(v0, v1, v2, ity0, ity1, ity2));
    Rows(f, w, h, t, TotalHeight(t))
  }

  /** Entry `k` of the depth buffer (`span` 1) or of the image (`span` 3)
      belongs to the point of the admitted fragment `frag`. */
  predicate Touches(w: nat, h: nat, frag: Fragment, span: int, k: int)
  {
    Admits(w, h, frag.P) && Index(w, frag.P) <= k < Index(w, frag.P) + span
  }

  /** Some admitted fragment of the columns before `e` of `r` touches `k`. */
  ghost predicate ColumnsTouch(w: nat, h: nat, r: Row, e: int, span: int, k: int)
    requires r.Ends?
  {
    exists j :: FirstColumn(r) <= j < e && Touches(w, h, FragmentAt(r, j), span, k)
  }

  /** Some admitted fragment of row `i` touches `k`. */
  ghost predicate RowTouches(w: nat, h: nat, t: Tri3, i: int, span: int, k: int)
    requires SortedByY(t) && 0 <= i < TotalHeight(t)
  {
    var r := RowEnds(t, i);
    r.Ends? && ColumnsTouch(w, h, r, FirstColumn(r) + ColumnCount(r), span, k)
  }

  /** Some admitted fragment of the first `n` rows touches `k`. */
  ghost predicate RowsTouch(w: nat, h: nat, t: Tri3, n: nat, span: int, k: int)
    requires SortedByY(t) && n <= TotalHeight(t)
  {
    exists i :: 0 <= i < n && RowTouches(w, h, t, i, span, k)
  }

  /** The columns of a row never lower a depth entry and change only
      entries that an admitted fragment of the row touches. */
  lemma {:induction false} ColumnsChange(f: Frame, w: nat, h: nat, r: Row, n: nat)
    requires Fits(f, w, h) && r.Ends?
    ensures var g := Columns(f, w, h, r, n);
            (forall k :: 0 <= k < |f.depth| ==> f.depth[k] <= g.depth[k]) &&
            (forall k :: 0 <= k < |f.depth| && g.depth[k] != f.depth[k] ==>
               ColumnsTouch(w, h, r, FirstColumn(r) + n, 1, k)) &&
            (forall k :: 0 <= k < |f.colour| && g.colour[k] != f.colour[k] ==>
               ColumnsTouch(w, h, r, FirstColumn(r) + n, 3, k))
  {
    if n > 0 {
      ColumnsChange(f, w, h, r, n - 1);
      var e := FirstColumn(r) + n - 1;
      var g := Columns(f, w, h, r, n - 1);
      var frag := FragmentAt(r, e);
      var g' := Plot(g, w, h, frag);
      assert g' == Columns(f, w, h, r, n);
      forall k | 0 <= k < |f.depth| && g'.depth[k] != f.depth[k]
        ensures ColumnsTouch(w, h, r, e + 1, 1, k)
      {
        if g.depth[k] != f.depth[k] {
          var j :| FirstColumn(r) <= j < e && Touches(w, h, FragmentAt(r, j), 1, k);
        } else {
          assert Touches(w, h, FragmentAt(r, e), 1, k);
        }
      }
      forall k | 0 <= k < |f.colour| && g'.colour[k] != f.colour[k]
        ensures ColumnsTouch(w, h, r, e + 1, 3, k)
      {
        if g.colour[k] != f.colour[k] {
          var j :| FirstColumn(r) <= j < e && Touches(w, h, FragmentAt(r, j), 3, k);
        } else {
          assert Touches(w, h, FragmentAt(r, e), 3, k);
        }
      }
    }
  }

  /** The rows never lower a depth entry and change only entries that an
      admitted fragment of one of them touches. */
  lemma {:induction false} RowsChange(f: Frame, w: nat, h: nat, t: Tri3, n: nat)
    requires Fits(f, w, h) && SortedByY(t) && n <= TotalHeight(t)
    ensures var g := Rows(f, w, h, t, n);
            (forall k :: 0 <= k < |f.depth| ==> f.depth[k] <= g.depth[k]) &&
            (forall k :: 0 <= k < |f.depth| && g.depth[k] != f.depth[k] ==> RowsTouch(w, h, t, n, 1, k)) &&
            (forall k :: 0 <= k < |f.colour| && g.colour[k] != f.colour[k] ==> RowsTouch(w, h, t, n, 3, k))
  {
    if n > 0 {
      RowsChange(f, w, h, t, n - 1);
      var g := Rows(f, w, h, t, n - 1);
      var r := RowEnds(t, n - 1);
      if r.Ends? {
        ColumnsChange(g, w, h, r, ColumnCount(r));
        var g' := Columns(g, w, h, r, ColumnCount(r));
        assert g' == Rows(f, w, h, t, n);
        forall k | 0 <= k < |f.depth| && g'.depth[k] != f.depth[k]
          ensures RowsTouch(w, h, t, n, 1, k)
        {
          if g.depth[k] != f.depth[k] {
            var i :| 0 <= i < n - 1 && RowTouches(w, h, t, i, 1, k);
          } else {
            assert RowTouches(w, h, t, n - 1, 1, k);
          }
        }
        forall k | 0 <= k < |f.colour| && g'.colour[k] != f.colour[k]
          ensures RowsTouch(w, h, t, n, 3, k)
        {
          if g.colour[k] != f.colour[k] {
            var i :| 0 <= i < n - 1 && RowTouches(w, h, t, i, 3, k);
          } else {
            assert RowTouches(w, h, t, n - 1, 3, k);
          }
        }
      }
    }
  }

  /** The fill never lowers a depth entry, and every depth entry or byte
      it changes lies on an admitted fragment of the triangle. */
  lemma FillChanges(f: Frame, w: nat, h: nat, v0: Vec3, v1: Vec3, v2: Vec3, ity0: Vec3, ity1: Vec3, ity2: Vec3)
    requires Fits(f, w, h)
    ensures var g := Fill(f, w, h, v0, v1, v2, ity0, ity1, ity2);
            var t := Scaled(SortByY(v0, v1, v2, ity0, ity1, ity2));
            (forall k :: 0 <= k < |f.depth| ==> f.depth[k] <= g.depth[k]) &&
            (forall k :: 0 <= k < |f.depth| && g.depth[k] != f.depth[k] ==> RowsTouch(w, h, t, TotalHeight(t), 1, k)) &&
            (forall k :: 0 <= k < |f.colour| && g.colour[k] != f.colour[k] ==> RowsTouch(w, h, t, TotalHeight(t), 3, k))
  {
    var t := Scaled(SortByY(v0, v1, v2, ity0, ity1, ity2));
    RowsChange(f, w, h, t, TotalHeight(t));
  }

  /** A triangle less than one unit tall after scaling draws nothing. */
  lemma ThinTriangleDrawsNothing(f: Frame, w: nat, h: nat, v0: Vec3, v1: Vec3, v2: Vec3, ity0: Vec3, ity1: Vec3, ity2: Vec3)
    requires Fits(f, w, h)
    requires var t := Scaled(SortByY(v0, v1, v2, ity0, ity1, ity2)); t.v2.y - t.v0.y < 1.0
    ensures Fill(f, w, h, v0, v1, v2, ity0, ity1, ity2) == f
  {
  }

  /** Lines 112-120 on the arrays. */
  method PlotFragment(w: nat, h: nat, frag: Fragment, data: array<byte>, zbuffer: array<int>)
    requires w * h <= zbuffer.Length && 3 * (w * h) <= data.Length
    modifies data, zbuffer
    ensures Frame(zbuffer[..], data[..]) == Plot(Frame(old(zbuffer[..]), old(data[..])), w, h, frag)
  {
    ghost var f := Frame(zbuffer[..], data[..]);
    var P, ityP := frag.P, frag.ityP;
    var index := Trunc(P.x + P.y * w as real);
    assert index == Index(w, P);
    if P.x >= w as real || P.y >= h as real || P.x < 0.0 || P.y < 0.0 {
      assert !Admits(w, h, P);
      return;
    }
    if index >= w * h {
      assert !Admits(w, h, P);
      return;
    }
    AdmitsInBuffer(w, h, P);
    if (zbuffer[index] as real) < P.z {
      var c := ToByte(ityP.x * 255.0);
      zbuffer[index] := Trunc(P.z);
      data[index] := c;
      data[index + 1] := c;
      data[index + 2] := c;
      assert zbuffer[..] == f.depth[index := Trunc(P.z)];
      assert data[..] == f.colour[index := c][index + 1 := c][index + 2 := c];
      assert Plot(f, w, h, frag) == Store(f, index, Trunc(P.z), c);
    }
  }

  /** Lines 108-122 on the arrays: the columns of one row. */
  method FillRow(w: nat, h: nat, r: Row, data: array<byte>, zbuffer: array<int>)
    requires w * h <= zbuffer.Length && 3 * (w * h) <= data.Length && r.Ends? && r.A.x <= r.B.x
    modifies data, zbuffer
    ensures Frame(zbuffer[..], data[..]) == Columns(Frame(old(zbuffer[..]), old(data[..])), w, h, r, ColumnCount(r))
  {
    ghost var f0 := Frame(zbuffer[..], data[..]);
    var A, B, iA, iB := r.A, r.B, r.iA, r.iB;
    TruncBelowCeil(A.x, B.x);
    var j := Trunc(A.x);
    while (j as real) < B.x
      invariant Trunc(A.x) <= j <= Ceil(B.x)
      invariant zbuffer.Length == |f0.depth| && data.Length == |f0.colour|
      invariant Frame(zbuffer[..], data[..]) == Columns(f0, w, h, r, j - Trunc(A.x))
      decreases Ceil(B.x) - j
    {
      var phi := if B.x == A.x then 1.0 else (j as real - A.x) / (B.x - A.x);
      var P := Sub(Add(A, Scale(B, phi)), A);
      var ityP := Add(iA, Scale(Sub(iB, iA), phi));
      assert Fragment(P, ityP) == FragmentAt(r, j);
      PlotFragment(w, h, Fragment(P, ityP), data, zbuffer);
      j := j + 1;
    }
  }

  /** Lines 84-92 on local copies: the swaps, then the scaling. */
  method SortAndScale(v0: Vec3, v1: Vec3, v2: Vec3, ity0: Vec3, ity1: Vec3, ity2: Vec3) returns (t: Tri3)
    ensures t == Scaled(SortByY(v0, v1, v2, ity0, ity1, ity2))
  {
    var p0, p1, p2, j0, j1, j2 := v0, v1, v2, ity0, ity1, ity2;
    if p0.y > p1.y { p0, p1 := p1, p0; j0, j1 := j1, j0; }
    assert Tri3(p0, p1, p2, j0, j1, j2) == Order01(Tri3(v0, v1, v2, ity0, ity1, ity2));
    if p0.y > p2.y { p0, p2 := p2, p0; j0, j1 := j1, j0; }
    assert Tri3(p0, p1, p2, j0, j1, j2) == Order02(Order01(Tri3(v0, v1, v2, ity0, ity1, ity2)));
    if p1.y > p2.y { p1, p2 := p2, p1; j0, j1 := j1, j0; }
    assert Tri3(p0, p1, p2, j0, j1, j2) == SortByY(v0, v1, v2, ity0, ity1, ity2);
    p0, p1, p2 := Scale(p0, SCALE), Scale(p1, SCALE), Scale(p2, SCALE);
    j0, j1, j2 := Scale(j0, SCALE), Scale(j1, SCALE), Scale(j2, SCALE);
    t := Tri3(p0, p1, p2, j0, j1, j2);
  }

  /** fillTriangle2: afterwards the depth buffer and the image hold what the
      fill computes on values; in particular no depth entry has decreased.
      `color` is unused by the source. */
  method FillTriangle2(v0: Vec3, v1: Vec3, v2: Vec3, ity0: Vec3, ity1: Vec3, ity2: Vec3,
                       w: nat, h: nat, data: array<byte>, zbuffer: array<int>, color: Vec3)
    requires w * h <= zbuffer.Length && 3 * (w * h) <= data.Length
    modifies data, zbuffer
    ensures Frame(zbuffer[..], data[..]) ==
            Fill(Frame(old(zbuffer[..]), old(data[..])), w, h, v0, v1, v2, ity0, ity1, ity2)
    ensures forall k :: 0 <= k < zbuffer.Length ==> old(zbuffer[k]) <= zbuffer[k]
  {
    ghost var f0 := Frame(zbuffer[..], data[..]);
    var t := SortAndScale(v0, v1, v2, ity0, ity1, ity2);
    var p0, p2 := t.v0, t.v2;
    var total_height := Trunc(p2.y - p0.y);
    for i := 0 to total_height
      invariant zbuffer.Length == |f0.depth| && data.Length == |f0.colour|
      invariant Frame(zbuffer[..], data[..]) == Rows(f0, w, h, t, i)
    {
      var r := RowEnds(t, i);
      if r.Ends? {
        FillRow(w, h, r, data, zbuffer);
      }
    }
    FillChanges(f0, w, h, v0, v1, v2, ity0, ity1, ity2);
  }
}
