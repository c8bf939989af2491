/**
 * The resize policy of the render loop: the largest square that fits the
 * window, centred in it (gl_texture.c, min and the glViewport arguments).
 */
module Viewport {

  /** A window size as glfwGetWindowSize reports it. */
  datatype Size = Size(width: int, height: int)

  /** The four arguments of glViewport: lower-left corner, width and height. */
  datatype Rect = Rect(x: int, y: int, width: int, height: int)

  /** min: the smaller of two integers. */
  function Min(a: int, b: int): (m: int)
    ensures m <= a && m <= b
    ensures m == a || m == b
  {
    if a < b then a else b
  }

  /**
   * The viewport computed when the window size changes:
   * side = min(w, h), corner ((w - side) / 2, (h - side) / 2).
   * Both dividends are non-negative, so C's truncating division and
   * Dafny's Euclidean division give the same quotient.
   */
  function Centered(s: Size): (v: Rect)
    // square, as large as the shorter window side
    ensures v.width == v.height
    ensures v.width <= s.width && v.width <= s.height
    ensures v.width == s.width || v.width == s.height
    ensures s.width >= 0 && s.height >= 0 ==> v.width >= 0
    // centred: the two margins of each axis are equal or differ by one pixel
    ensures 0 <= v.x && 2 * v.x + v.width <= s.width <= 2 * v.x + v.width + 1
    ensures 0 <= v.y && 2 * v.y + v.height <= s.height <= 2 * v.y + v.height + 1
    // the square touches the window's edges along the shorter axis
    ensures v.x == 0 || v.y == 0
  {
    var side := Min(s.width, s.height);
    Rect((s.width - side) / 2, (s.height - side) / 2, side, side)
  }

  /** The three window shapes worked through: landscape, portrait and square. */
  lemma CenteredExamples()
    ensures Centered(Size(640, 480)) == Rect(80, 0, 480, 480)
    ensures Centered(Size(480, 640)) == Rect(0, 80, 480, 480)
    ensures Centered(Size(300, 300)) == Rect(0, 0, 300, 300)
  {
  }
}
