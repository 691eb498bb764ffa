/**
 The window resize actions: grow or shrink the main window by 100 pixels along
 one axis. Widths and heights are Java `int`s, so the sums wrap around at 32
 bits; the toolkit's own size limits are left out.
 */
module PreferencesManager {

  const XAxis: int := 1
  const YAxis: int := 2

  /** The amount one action adds or removes. */
  const Step: int := 100

  const MinInt: int := -0x8000_0000
  const MaxInt: int := 0x7fff_ffff

  predicate IsInt(x: int) { MinInt <= x <= MaxInt }

  /** Java `int` arithmetic: the value modulo 2^32, read as signed. */
  function Wrap(x: int): (r: int)
    ensures IsInt(r)
    ensures IsInt(x) ==> r == x
    ensures MaxInt < x <= MaxInt + 0x1_0000_0000 ==> r == x - 0x1_0000_0000
    ensures MinInt - 0x1_0000_0000 <= x < MinInt ==> r == x + 0x1_0000_0000
  {
    (x - MinInt) % 0x1_0000_0000 + MinInt
  }

  /** A `Dimension`: the window's width and height. */
  datatype Size = Size(width: int, height: int)

  predicate ValidSize(d: Size) { IsInt(d.width) && IsInt(d.height) }

  /** The size with `delta` added on the axis given by the byte `axis`; any
      other axis byte matches no case of the switch. */
  function Resized(d: Size, axis: int, delta: int): (r: Size)
    requires ValidSize(d)
    ensures ValidSize(r)
    ensures axis == XAxis ==> r == Size(Wrap(d.width + delta), d.height)
    ensures axis == YAxis ==> r == Size(d.width, Wrap(d.height + delta))
    ensures axis != XAxis && axis != YAxis ==> r == d
  {
    if axis == XAxis then d.(width := Wrap(d.width + delta))
    else if axis == YAxis then d.(height := Wrap(d.height + delta))
    else d
  }

  /** `growWindow(axis)`. */
  function Grow(d: Size, axis: int): (r: Size)
    requires ValidSize(d)
    ensures ValidSize(r)
    ensures axis == XAxis ==> r.height == d.height && (d.width <= MaxInt - Step ==> r.width == d.width + Step)
    ensures axis == YAxis ==> r.width == d.width && (d.height <= MaxInt - Step ==> r.height == d.height + Step)
    ensures axis != XAxis && axis != YAxis ==> r == d
  {
    Resized(d, axis, Step)
  }

  /** `reduceWindow(axis)`: no lower bound is enforced. */
  function Reduce(d: Size, axis: int): (r: Size)
    requires ValidSize(d)
    ensures ValidSize(r)
    ensures axis == XAxis ==> r.height == d.height && (d.width >= MinInt + Step ==> r.width == d.width - Step)
    ensures axis == YAxis ==> r.width == d.width && (d.height >= MinInt + Step ==> r.height == d.height - Step)
    ensures axis != XAxis && axis != YAxis ==> r == d
  {
    Resized(d, axis, -Step)
  }

  // ---------------------------------------------------------------------------
  // Properties

  /** Adding and then removing the same small amount undoes itself, also
      across the wrap-around. */
  lemma WrapShift(x: int, delta: int)
    requires IsInt(x) && -Step <= delta <= Step
    ensures Wrap(Wrap(x + delta) - delta) == x
  {
  }

  /** Growing and then shrinking along the same axis restores the size. */
  lemma GrowThenReduce(d: Size, axis: int)
    requires ValidSize(d)
    ensures Reduce(Grow(d, axis), axis) == d
  {
    WrapShift(d.width, Step);
    WrapShift(d.height, Step);
  }

  /** Shrinking and then growing along the same axis restores the size. */
  lemma ReduceThenGrow(d: Size, axis: int)
    requires ValidSize(d)
    ensures Grow(Reduce(d, axis), axis) == d
  {
    WrapShift(d.width, -Step);
    WrapShift(d.height, -Step);
  }

  /** Shrinking goes below zero: a window 50 pixels wide becomes -50 wide. */
  lemma ReduceGoesNegative()
    ensures Reduce(Size(50, 400), XAxis) == Size(-50, 400)
  {
  }

  /** At the top of the range the width wraps to a large negative number. */
  lemma GrowWrapsAround()
    ensures Grow(Size(MaxInt, 400), XAxis) == Size(MinInt + Step - 1, 400)
  {
  }
}
