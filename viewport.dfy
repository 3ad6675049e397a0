/** viewport (main.cpp:126-136): the 4 x 4 matrix meant to take normalised
    device coordinates to the screen rectangle `(x, y, w, h)` and depths
    to 0 .. 255.

    glm stores a matrix as four columns and `m[c][r]` is row `r` of column
    `c`, so the three offsets the source assigns to `m[0][3]`, `m[1][3]`
    and `m[2][3]` land in the bottom row, the one that produces the `w`
    coordinate, instead of in the translation column. Viewport builds the
    matrix as written; ViewportIntended puts the offsets in column 3. */
module ViewportMatrix {

  datatype Vec4 = Vec4(x: real, y: real, z: real, w: real)

  /** A `glm::mat4`: four columns. */
  datatype Mat4 = Mat4(c0: Vec4, c1: Vec4, c2: Vec4, c3: Vec4)

  /** Component `r` of a vector. */
  function Comp(v: Vec4, r: nat): real
    requires r < 4
  {
    if r == 0 then v.x else if r == 1 then v.y else if r == 2 then v.z else v.w
  }

  function WithComp(v: Vec4, r: nat, a: real): (u: Vec4)
    requires r < 4
    ensures forall q :: 0 <= q < 4 ==> Comp(u, q) == if q == r then a else Comp(v, q)
  {
    if r == 0 then v.(x := a) else if r == 1 then v.(y := a) else if r == 2 then v.(z := a) else v.(w := a)
  }

  /** `m[c]`. */
  function Column(m: Mat4, c: nat): Vec4
    requires c < 4
  {
    if c == 0 then m.c0 else if c == 1 then m.c1 else if c == 2 then m.c2 else m.c3
  }

  /** `m[c][r]`. */
  function Entry(m: Mat4, c: nat, r: nat): real
    requires c < 4 && r < 4
  {
    Comp(Column(m, c), r)
  }

  /** `m[c][r] = a`: that entry changes and no other. */
  function SetEntry(m: Mat4, c: nat, r: nat, a: real): (n: Mat4)
    requires c < 4 && r < 4
    ensures forall c', r' :: 0 <= c' < 4 && 0 <= r' < 4 ==>
              Entry(n, c', r') == if c' == c && r' == r then a else Entry(m, c', r')
  {
    var col := WithComp(Column(m, c), r, a);
    if c == 0 then m.(c0 := col) else if c == 1 then m.(c1 := col) else if c == 2 then m.(c2 := col) else m.(c3 := col)
  }

  /** `glm::mat4(1.0f)`. */
  function Identity(): Mat4
  {
    Mat4(Vec4(1.0, 0.0, 0.0, 0.0), Vec4(0.0, 1.0, 0.0, 0.0), Vec4(0.0, 0.0, 1.0, 0.0), Vec4(0.0, 0.0, 0.0, 1.0))
  }

  /** `m * v`: the columns weighted by the components of `v`. */
  function MulVec(m: Mat4, v: Vec4): Vec4
  {
    Vec4(m.c0.x * v.x + m.c1.x * v.y + m.c2.x * v.z + m.c3.x * v.w,
         m.c0.y * v.x + m.c1.y * v.y + m.c2.y * v.z + m.c3.y * v.w,
         m.c0.z * v.x + m.c1.z * v.y + m.c2.z * v.z + m.c3.z * v.w,
         m.c0.w * v.x + m.c1.w * v.y + m.c2.w * v.z + m.c3.w * v.w)
  }

  /** Lines 126-136 as written: the identity with the three offsets in the
      bottom row and the three half-extents on the diagonal. */
  function Viewport(x: int, y: int, w: int, h: int): (m: Mat4)
    ensures m == Mat4(Vec4(w as real / 2.0, 0.0, 0.0, x as real + w as real / 2.0),
                      Vec4(0.0, h as real / 2.0, 0.0, y as real + h as real / 2.0),
                      Vec4(0.0, 0.0, 255.0 / 2.0, 255.0 / 2.0),
                      Vec4(0.0, 0.0, 0.0, 1.0))
  {
    var m0 := Identity();
    var m1 := SetEntry(m0, 0, 3, x as real + w as real / 2.0);
    var m2 := SetEntry(m1, 1, 3, y as real + h as real / 2.0);
    var m3 := SetEntry(m2, 2, 3, 255.0 / 2.0);
    var m4 := SetEntry(m3, 0, 0, w as real / 2.0);
    var m5 := SetEntry(m4, 1, 1, h as real / 2.0);
    SetEntry(m5, 2, 2, 255.0 / 2.0)
  }

  /** What the matrix as written does to a point: it scales the three
      coordinates about the origin and folds the offsets into `w`, so the
      screen rectangle's offset never reaches `x` or `y`. */
  lemma ViewportImage(x: int, y: int, w: int, h: int, p: Vec4)
    requires p.w == 1.0
    ensures MulVec(Viewport(x, y, w, h), p) ==
            Vec4(w as real / 2.0 * p.x, h as real / 2.0 * p.y, 255.0 / 2.0 * p.z,
                 (x as real + w as real / 2.0) * p.x + (y as real + h as real / 2.0) * p.y + 255.0 / 2.0 * p.z + 1.0)
  {
  }

  /** The centre of normalised device space is sent to the origin with
      `w = 1`, not to the centre of the rectangle, for every rectangle of
      positive size at a non-negative offset (main passes
      `(100, 100, 600, 600)` for an 800 x 800 image, whose centre is
      (400, 400)). */
  lemma ViewportMissesCentre(x: int, y: int, w: int, h: int)
    requires 0 <= x && 0 <= y && 0 < w && 0 < h
    ensures var q := MulVec(Viewport(x, y, w, h), Vec4(0.0, 0.0, 0.0, 1.0));
            q.x == 0.0 && q.y == 0.0 && q.z == 0.0 && q.w == 1.0
    ensures var q := MulVec(Viewport(x, y, w, h), Vec4(0.0, 0.0, 0.0, 1.0));
            q.x != x as real + w as real / 2.0 && q.y != y as real + h as real / 2.0 && q.z != 255.0 / 2.0
  {
    ViewportImage(x, y, w, h, Vec4(0.0, 0.0, 0.0, 1.0));
  }

  /** The evidently intended matrix: the offsets in the translation column. */
  function ViewportIntended(x: int, y: int, w: int, h: int): (m: Mat4)
    ensures forall c, r :: 0 <= c < 3 && 0 <= r < 4 && c != r ==> Entry(m, c, r) == 0.0
    ensures Entry(m, 0, 0) == Entry(Viewport(x, y, w, h), 0, 0) && Entry(m, 1, 1) == Entry(Viewport(x, y, w, h), 1, 1)
    ensures Entry(m, 2, 2) == Entry(Viewport(x, y, w, h), 2, 2)
  {
    var m0 := Identity();
    var m1 := SetEntry(m0, 3, 0, x as real + w as real / 2.0);
    var m2 := SetEntry(m1, 3, 1, y as real + h as real / 2.0);
    var m3 := SetEntry(m2, 3, 2, 255.0 / 2.0);
    var m4 := SetEntry(m3, 0, 0, w as real / 2.0);
    var m5 := SetEntry(m4, 1, 1, h as real / 2.0);
    SetEntry(m5, 2, 2, 255.0 / 2.0)
  }

  /** The intended matrix takes `[-1, 1]` onto `[x, x + w]` and
      `[y, y + h]`, and depths `[-1, 1]` onto `[0, 255]`, keeping `w = 1`. */
  lemma ViewportIntendedImage(x: int, y: int, w: int, h: int, p: Vec4)
    requires p.w == 1.0
    ensures var q := MulVec(ViewportIntended(x, y, w, h), p);
            q.x == x as real + w as real * (p.x + 1.0) / 2.0 &&
            q.y == y as real + h as real * (p.y + 1.0) / 2.0 &&
            q.z == 255.0 * (p.z + 1.0) / 2.0 && q.w == 1.0
  {
    var m := ViewportIntended(x, y, w, h);
    assert m == Mat4(Vec4(w as real / 2.0, 0.0, 0.0, 0.0), Vec4(0.0, h as real / 2.0, 0.0, 0.0),
                     Vec4(0.0, 0.0, 255.0 / 2.0, 0.0),
                     Vec4(x as real + w as real / 2.0, y as real + h as real / 2.0, 255.0 / 2.0, 1.0));
  }

  /** The corners and the centre under the intended matrix. */
  lemma ViewportIntendedCorners(x: int, y: int, w: int, h: int)
    ensures MulVec(ViewportIntended(x, y, w, h), Vec4(-1.0, -1.0, -1.0, 1.0)) == Vec4(x as real, y as real, 0.0, 1.0)
    ensures MulVec(ViewportIntended(x, y, w, h), Vec4(1.0, 1.0, 1.0, 1.0)) == Vec4((x + w) as real, (y + h) as real, 255.0, 1.0)
    ensures MulVec(ViewportIntended(x, y, w, h), Vec4(0.0, 0.0, 0.0, 1.0)) ==
            Vec4(x as real + w as real / 2.0, y as real + h as real / 2.0, 255.0 / 2.0, 1.0)
  {
    ViewportIntendedImage(x, y, w, h, Vec4(-1.0, -1.0, -1.0, 1.0));
    ViewportIntendedImage(x, y, w, h, Vec4(1.0, 1.0, 1.0, 1.0));
    ViewportIntendedImage(x, y, w, h, Vec4(0.0, 0.0, 0.0, 1.0));
  }
}
