/**
 * The image grid of `Camera::threaded_render` (src/raytracing/camera.rs):
 * `height` rows of `width` colours, filled with black by two nested loops,
 * then overwritten one cell per rendered pixel received from the jobs.
 */
module Images {
  import Colors
  import Options
  import Cameras

  /** `height` rows of `width` black cells. */
  function BlankImage(height: nat, width: nat): (img: seq<seq<Colors.Color>>)
    ensures |img| == height
    ensures forall y :: 0 <= y < height ==> |img[y]| == width
    ensures forall y, x :: 0 <= y < height && 0 <= x < width ==> img[y][x] == Colors.Black()
  {
    seq(height, _ => BlankRow(width))
  }

  function BlankRow(width: nat): seq<Colors.Color> {
    seq(width, _ => Colors.Black())
  }

  /** `image_vec[pr.y_loc][pr.x_loc]` exists. */
  predicate InBounds(cells: seq<seq<Colors.Color>>, pr: Cameras.PixelRender) {
    pr.yLoc < |cells| && pr.xLoc < |cells[pr.yLoc]|
  }

  /**
   * The grid after `image_vec[pr.y_loc][pr.x_loc] = pr.color`: every row
   * keeps its length and only the addressed cell changes. Out of bounds the
   * source panics; the grid is then left as it was.
   */
  function Written(cells: seq<seq<Colors.Color>>, pr: Cameras.PixelRender): (r: seq<seq<Colors.Color>>)
    ensures |r| == |cells| && forall y :: 0 <= y < |cells| ==> |r[y]| == |cells[y]|
    ensures forall y, x :: 0 <= y < |cells| && 0 <= x < |cells[y]| ==>
      r[y][x] == if InBounds(cells, pr) && y == pr.yLoc && x == pr.xLoc then pr.color else cells[y][x]
  {
    if InBounds(cells, pr) then cells[pr.yLoc := cells[pr.yLoc][pr.xLoc := pr.color]] else cells
  }

  /** The grid after writing the pixels in the order received. */
  function WrittenAll(cells: seq<seq<Colors.Color>>, prs: seq<Cameras.PixelRender>): seq<seq<Colors.Color>>
    decreases |prs|
  {
    if |prs| == 0 then cells else Written(WrittenAll(cells, prs[..|prs| - 1]), prs[|prs| - 1])
  }

  /** The colour of the last pixel received for column `x` of row `y`, if any. */
  function LastAt(prs: seq<Cameras.PixelRender>, y: nat, x: nat): Options.Option<Colors.Color>
    decreases |prs|
  {
    if |prs| == 0 then Options.None
    else if prs[|prs| - 1].yLoc == y && prs[|prs| - 1].xLoc == x then Options.Some(prs[|prs| - 1].color)
    else LastAt(prs[..|prs| - 1], y, x)
  }

  /**
   * After writing a sequence of pixels the grid keeps its shape, and each
   * cell holds the colour of the last pixel received for it, or its old
   * colour if none was.
   */
  lemma {:induction false} WrittenAllCells(cells: seq<seq<Colors.Color>>, prs: seq<Cameras.PixelRender>, y: nat, x: nat)
    requires y < |cells| && x < |cells[y]|
    ensures |WrittenAll(cells, prs)| == |cells|
    ensures forall k :: 0 <= k < |cells| ==> |WrittenAll(cells, prs)[k]| == |cells[k]|
    ensures WrittenAll(cells, prs)[y][x] == match LastAt(prs, y, x)
      case None => cells[y][x]
      case Some(c) => c
    decreases |prs|
  {
    if |prs| > 0 {
      WrittenAllCells(cells, prs[..|prs| - 1], y, x);
    }
  }

  /** The image grid `image_vec`. */
  class ImageGrid {
    var cells: seq<seq<Colors.Color>>

    /** The fill loops: `height` times push a row, then push `width` black cells into it. */
    constructor (height: nat, width: nat)
      ensures cells == BlankImage(height, width)
    {
      var rows: seq<seq<Colors.Color>> := [];
      for h := 0 to height
        invariant rows == BlankImage(h, width)
      {
        rows := rows + [[]];
        for w := 0 to width
          invariant |rows| == h + 1 && rows[..h] == BlankImage(h, width)
          invariant rows[h] == BlankRow(w)
        {
          rows := rows[h := rows[h] + [Colors.Black()]];
        }
        assert rows == BlankImage(h + 1, width);
      }
      cells := rows;
    }

    /** `image_vec[pr.y_loc][pr.x_loc] = pr.color`; `ok` is false where the source would panic. */
    method Write(pr: Cameras.PixelRender) returns (ok: bool)
      modifies this
      ensures ok <==> InBounds(old(cells), pr)
      ensures cells == Written(old(cells), pr)
    {
      ok := pr.yLoc < |cells| && pr.xLoc < |cells[pr.yLoc]|;
      if ok {
        var row := cells[pr.yLoc];
        row := row[pr.xLoc := pr.color];
        cells := cells[pr.yLoc := row];
      }
    }

    /** The gathering loop: each received pixel is written in turn; stops at the first out-of-bounds one. */
    method Gather(prs: seq<Cameras.PixelRender>) returns (written: nat)
      modifies this
      ensures written <= |prs|
      ensures cells == WrittenAll(old(cells), prs[..written])
      ensures written < |prs| ==> !InBounds(cells, prs[written])
    {
      written := 0;
      while written < |prs|
        invariant written <= |prs|
        invariant cells == WrittenAll(old(cells), prs[..written])
      {
        var ok := Write(prs[written]);
        if !ok {
          return;
        }
        assert prs[..written + 1][..written] == prs[..written];
        written := written + 1;
      }
      assert prs[..written] == prs;
    }
  }
}
