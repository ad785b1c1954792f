/**
 * The preview window's frame-buffer write of src/application/mod.rs: each
 * rendered pixel that reaches the window's event loop is drawn as four
 * bytes (red, green, blue, alpha) into the `pixels` frame, an RGBA buffer
 * of `width` pixels per row.
 */
module Application {
  import Colors
  import Cameras

  /** `u8`. */
  type Byte = b: nat | b < 256

  /**
   * `x as u8` for an `f64`: Rust's float-to-integer cast saturates, so
   * everything at or below 0 gives 0, everything at or above 255 gives 255,
   * and the rest is truncated towards zero.
   */
  function ToByte(x: real): (b: Byte)
    ensures x <= 0.0 ==> b == 0
    ensures x >= 255.0 ==> b == 255
    ensures 0.0 <= x < 255.0 ==> b as real <= x < b as real + 1.0
  {
    if x <= 0.0 then 0
    else if x >= 255.0 then 255
    else x.Floor
  }

  /** The cast keeps order: a brighter channel never gives a smaller byte. */
  lemma ToByteMonotone(x: real, y: real)
    requires x <= y
    ensures ToByte(x) <= ToByte(y)
  {
    if 0.0 < x < 255.0 && 0.0 < y < 255.0 {
      assert x.Floor <= y.Floor;
    }
  }

  /** The four bytes `draw` writes for a colour: its channels times 255 cast to `u8`, then an opaque alpha. */
  function PixelBytes(c: Colors.Color): (q: seq<Byte>)
    ensures |q| == 4
    ensures q[0] == ToByte(c.r * 255.0) && q[1] == ToByte(c.g * 255.0) && q[2] == ToByte(c.b * 255.0)
    ensures q[3] == 0xFF
  {
    var scaled := Colors.Scale(c, 255.0);
    [ToByte(scaled.r), ToByte(scaled.g), ToByte(scaled.b), 0xFF]
  }

  /** A black pixel is written as `[0, 0, 0, 255]` and a white one as `[255, 255, 255, 255]`. */
  lemma PixelBytesEnds()
    ensures PixelBytes(Colors.Black()) == [0, 0, 0, 0xFF]
    ensures PixelBytes(Colors.Color(1.0, 1.0, 1.0)) == [0xFF, 0xFF, 0xFF, 0xFF]
  {
    assert ToByte(0.0 * 255.0) == 0 && ToByte(1.0 * 255.0) == 255;
  }

  /** The byte offset of pixel `(x, y)`: four bytes per pixel, `width` pixels per row. */
  function Offset(width: nat, x: nat, y: nat): nat {
    4 * (y * width + x)
  }

  /**
   * The frame after writing the four bytes `quad` from `pos` on, in order,
   * as far as the frame reaches: every byte in `pos .. pos + 4` that exists
   * is replaced and no other byte changes.
   */
  function Drawn(frame: seq<Byte>, pos: nat, quad: seq<Byte>): (r: seq<Byte>)
    requires |quad| == 4
    ensures |r| == |frame|
    ensures forall i :: 0 <= i < |frame| ==> r[i] == if pos <= i < pos + 4 then quad[i - pos] else frame[i]
  {
    seq(|frame|, i requires 0 <= i < |frame| => if pos <= i < pos + 4 then quad[i - pos] else frame[i])
  }

  /**
   * `Application::draw(width, pixels, render)`: the offset of the pixel, its
   * four bytes, and four indexed writes into the frame. `ok` is false when a
   * write falls outside the frame, where the source panics; the writes before
   * it have then been made.
   */
  method Draw(width: nat, frame: array<Byte>, render: Cameras.PixelRender) returns (ok: bool)
    modifies frame
    ensures ok <==> Offset(width, render.xLoc, render.yLoc) + 3 < frame.Length
    ensures frame[..] == Drawn(old(frame[..]), Offset(width, render.xLoc, render.yLoc), PixelBytes(render.color))
  {
    var x := render.xLoc;
    var y := render.yLoc;
    var pos := y * width + x;
    pos := pos * 4;
    var quad := PixelBytes(render.color);
    ghost var before := frame[..];
    ok := false;
    if pos < frame.Length {
      frame[pos] := quad[0];
      if pos + 1 < frame.Length {
        frame[pos + 1] := quad[1];
        if pos + 2 < frame.Length {
          frame[pos + 2] := quad[2];
          if pos + 3 < frame.Length {
            frame[pos + 3] := quad[3];
            ok := true;
          }
        }
      }
    }
    assert frame[..] == Drawn(before, pos, quad);
  }

  /** `Events`: the one user event of the window's event loop. */
  datatype Events = RenderPixel(render: Cameras.PixelRender)

  /** `handle_user_event`: a rendered pixel is drawn and nothing else touches the frame. */
  method HandleUserEvent(frame: array<Byte>, event: Events, width: nat) returns (ok: bool)
    modifies frame
    ensures ok <==> Offset(width, event.render.xLoc, event.render.yLoc) + 3 < frame.Length
    ensures frame[..] == Drawn(old(frame[..]), Offset(width, event.render.xLoc, event.render.yLoc), PixelBytes(event.render.color))
  {
    match event
    case RenderPixel(pixelRender) =>
      ok := Draw(width, frame, pixelRender);
  }

  /** Inside a `width` by `height` image whose frame holds four bytes per pixel, every write is in bounds. */
  lemma GridPixelInBounds(width: nat, height: nat, x: nat, y: nat)
    requires x < width && y < height
    ensures Offset(width, x, y) + 3 < 4 * (width * height)
  {
    assert y * width + x < (y + 1) * width;
    assert (y + 1) * width <= height * width by {
      MulLe(y + 1, height, width);
    }
  }

  lemma MulLe(a: nat, b: nat, c: nat)
    requires a <= b
    ensures a * c <= b * c
  {
  }

  /** Two different pixels of a row-major grid occupy disjoint four-byte slots. */
  lemma DistinctPixelsDisjoint(width: nat, x1: nat, y1: nat, x2: nat, y2: nat)
    requires x1 < width && x2 < width && (x1, y1) != (x2, y2)
    ensures Offset(width, x1, y1) + 4 <= Offset(width, x2, y2) || Offset(width, x2, y2) + 4 <= Offset(width, x1, y1)
  {
    if y1 < y2 {
      assert y1 * width + x1 < (y1 + 1) * width;
      assert (y1 + 1) * width <= y2 * width by {
        MulLe(y1 + 1, y2, width);
      }
    } else if y2 < y1 {
      assert y2 * width + x2 < (y2 + 1) * width;
      assert (y2 + 1) * width <= y1 * width by {
        MulLe(y2 + 1, y1, width);
      }
    }
  }

  /**
   * The offset does not check the column against the width: a pixel one
   * column past the end of a row lands on the first pixel of the next row.
   */
  lemma ColumnPastRowWraps(width: nat, y: nat)
    ensures Offset(width, width, y) == Offset(width, 0, y + 1)
  {
  }
}
