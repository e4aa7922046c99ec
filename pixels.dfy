/** Grayscale pixel values, numpy's `uint8`. */
module Pixels {
  type uint8 = x: int | 0 <= x < 256
}
