/** Tensors of integers with four dimensions, and the zero-padded strided convolution of two of them. */
module Convolution {
  import opened Sums

  /** Dimensions in the order N, C, H, W; a filter's are output channels, input channels, height, width. */
  datatype Tensor = Tensor(n: nat, c: nat, h: nat, w: nat, entries: (int, int, int, int) -> int)
  {
    predicate InBounds(i: int, j: int, y: int, x: int)
    {
      0 <= i < n && 0 <= j < c && 0 <= y < h && 0 <= x < w
    }

    function At(i: int, j: int, y: int, x: int): int
      requires InBounds(i, j, y, x)
    {
      entries(i, j, y, x)
    }

    /** The entry, or the zero that surrounds the tensor. */
    function AtOrZero(i: int, j: int, y: int, x: int): int
    {
      if InBounds(i, j, y, x) then At(i, j, y, x) else 0
    }
  }

  /** How a filter moves over an activation. */
  datatype Window = Window(strideH: nat, strideW: nat, padH: nat, padW: nat)

  /** How many places a filter takes along one axis, rounding towards minus infinity. */
  function OutLength(size: nat, kernel: nat, stride: nat, pad: nat): int
    requires stride > 0
  {
    (size - kernel + 2 * pad) / stride + 1
  }

  /** Where the filter starts at its `i`-th place along one axis. */
  function Offset(i: nat, stride: nat, pad: nat): int
  {
    i * stride - pad
  }

  /** The products that one entry of a convolution adds up, by input channel, filter row and filter column. */
  function Terms(x: Tensor, f: Tensor, win: Window, n: nat, k: nat, oh: nat, ow: nat): int -> int -> int -> int
  {
    c => r => s =>
      x.AtOrZero(n, c, Offset(oh, win.strideH, win.padH) + r, Offset(ow, win.strideW, win.padW) + s)
      * f.AtOrZero(k, c, r, s)
  }

  /** Entry (n, k, oh, ow) of the convolution of activation `x` with filter `f`. */
  function Convolve(x: Tensor, f: Tensor, win: Window, n: nat, k: nat, oh: nat, ow: nat): int
  {
    Sum3(f.c, f.h, f.w, Terms(x, f, win, n, k, oh, ow))
  }
}
