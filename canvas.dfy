/** The pixel sink the rasterizer draws into: a width x height grid of
    four-channel colours whose `Set` silently ignores coordinates that fall
    outside the grid. */
module Canvas {

  /** One 8-bit colour channel. */
  newtype Byte = x: int | 0 <= x < 256

  /** A colour with red, green, blue and alpha channels. */
  datatype Color = Color(r: Byte, g: Byte, b: Byte, a: Byte)

  /** The colour every wireframe pixel is drawn in. */
  const White := Color(255, 255, 255, 255)

  /** The contents of a freshly created image: every channel zero. */
  const Blank := Color(0, 0, 0, 0)

  /** An integer screen coordinate: a pixel, or a vertex after projection. */
  datatype Point = Point(x: int, y: int)

  /** A pixel grid indexed by column `x` in [0, width) and row `y` in [0, height). */
  class Image {
    const width: nat
    const height: nat
    const cells: array2<Color>

    ghost predicate Valid()
      reads this
    {
      cells.Length0 == width && cells.Length1 == height
    }

    /** A `w` x `h` image whose every pixel is `fill`. */
    constructor (w: nat, h: nat, fill: Color)
      ensures Valid() && width == w && height == h && fresh(cells)
      ensures forall i, j :: 0 <= i < w && 0 <= j < h ==> cells[i, j] == fill
    {
      width, height := w, h;
      cells := new Color[w, h]((_, _) => fill);
    }

    /** Whether pixel (x, y) lies on the grid. */
    predicate InBounds(x: int, y: int)
      reads this
    {
      0 <= x < width && 0 <= y < height
    }

    /** Writes colour `c` at (x, y); a coordinate off the grid changes nothing. */
    method Set(x: int, y: int, c: Color)
      requires Valid()
      modifies cells
      ensures forall i, j :: 0 <= i < width && 0 <= j < height ==>
        cells[i, j] == (if i == x && j == y then c else old(cells[i, j]))
    {
      if InBounds(x, y) {
        cells[x, y] := c;
      }
    }
  }
}
