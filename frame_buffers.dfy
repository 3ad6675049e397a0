/** The buffer set-up of main (main.cpp:148-151 and 153-161): a depth buffer
    of `width * height` entries, each the least 32-bit `int`, and an image
    of three bytes per pixel, all 0. The image allocation uses `nothrow`
    and main returns 1 when it fails; allocation in this model always
    succeeds. */
module FrameBuffers {
  import opened ScreenMath
  import opened DepthFill

  /** The buffers right after set-up. */
  function Cleared(w: nat, h: nat): (f: Frame)
    ensures |f.depth| == w * h && |f.colour| == w * h * 3
  {
    Frame(seq(w * h, _ => INT_MIN), seq(w * h * 3, _ => 0))
  }

  /** Cleared buffers fit the image, and every depth entry is below every
      depth a 32-bit `int` can hold but the least. */
  lemma ClearedFits(w: nat, h: nat)
    ensures Fits(Cleared(w, h), w, h)
    ensures forall k :: 0 <= k < w * h ==> Cleared(w, h).depth[k] == INT_MIN
    ensures forall k :: 0 <= k < w * h * 3 ==> Cleared(w, h).colour[k] == 0
  {
  }

  /** On cleared buffers the first admitted fragment nearer than `INT_MIN`
      always passes the depth test: it stores its truncated depth and its
      intensity. */
  lemma ClearedAcceptsFirst(w: nat, h: nat, frag: Fragment)
    requires Admits(w, h, frag.P) && INT_MIN as real < frag.P.z
    ensures Fits(Cleared(w, h), w, h)
    ensures var g := Plot(Cleared(w, h), w, h, frag); var idx := Index(w, frag.P);
            0 <= idx < w * h && g.depth[idx] == Trunc(frag.P.z) && g.colour[idx] == ToByte(frag.ityP.x * 255.0)
  {
    AdmitsInBuffer(w, h, frag.P);
    PlotWinner(Cleared(w, h), w, h, frag);
  }

  /** Lines 148-151: a fresh depth buffer filled with `INT_MIN`. */
  method NewDepthBuffer(w: nat, h: nat) returns (zbuffer: array<int>)
    ensures fresh(zbuffer)
    ensures zbuffer[..] == Cleared(w, h).depth
  {
    zbuffer := new int[w * h];
    var i := 0;
    while i < w * h
      invariant 0 <= i <= w * h
      invariant forall k :: 0 <= k < i ==> zbuffer[k] == INT_MIN
    {
      zbuffer[i] := INT_MIN;
      i := i + 1;
    }
  }

  /** Lines 154 and 159-161: a fresh image of three bytes per pixel, all 0. */
  method NewImage(w: nat, h: nat) returns (data: array<byte>)
    ensures fresh(data)
    ensures data[..] == Cleared(w, h).colour
  {
    data := new byte[w * h * 3];
    var i := 0;
    while i < w * h * 3
      invariant 0 <= i <= w * h * 3
      invariant forall k :: 0 <= k < i ==> data[k] == 0
    {
      data[i] := 0;
      i := i + 1;
    }
  }
}
