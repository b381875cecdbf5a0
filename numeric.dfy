/** Numeric helpers shared by the colour model, the picker and the animation:
    the clamp of cursor_ring.cpp and the C conversions that the code relies on
    (float to int truncation, int to BYTE narrowing). Floating point is modelled
    by exact reals. */
module Numeric {

  /** An unsigned 8-bit value (BYTE). */
  type Byte = x: int | 0 <= x < 256

  /** Clamp01: pins a value to the unit interval. */
  function Clamp01(v: real): (r: real)
    ensures 0.0 <= r <= 1.0
    ensures 0.0 <= v <= 1.0 ==> r == v
    ensures v <= 0.0 ==> r == 0.0
    ensures v >= 1.0 ==> r == 1.0
  {
    if v < 0.0 then 0.0 else if v > 1.0 then 1.0 else v
  }

  lemma Clamp01Monotone(a: real, b: real)
    requires a <= b
    ensures Clamp01(a) <= Clamp01(b)
  {
  }

  /** The C conversion `(int)x` of a floating value: truncation toward zero. */
  function Trunc(x: real): (n: int)
    ensures x >= 0.0 ==> n as real <= x < n as real + 1.0
    ensures x < 0.0 ==> n as real - 1.0 < x <= n as real
  {
    if x >= 0.0 then x.Floor else -((-x).Floor)
  }

  /** The C conversion `(BYTE)n`: the value modulo 256. */
  function ToByte(n: int): (b: Byte)
    ensures 0 <= n < 256 ==> b == n
    ensures (n - b) % 256 == 0
  {
    n % 256
  }

  /** `(int)(x*255+.5f)`: the channel value of an intensity in [0,1], rounded
      half up. */
  function Channel(x: real): int
  {
    Trunc(x * 255.0 + 0.5)
  }

  lemma ChannelInRange(x: real)
    requires 0.0 <= x <= 1.0
    ensures 0 <= Channel(x) <= 255
  {
  }

  /** Rounding half up is monotone on the unit interval. */
  lemma ChannelMonotone(x: real, y: real)
    requires 0.0 <= x <= y <= 1.0
    ensures Channel(x) <= Channel(y)
  {
  }

  /** A channel value k/255 converts back to exactly k. */
  lemma ChannelOfByte(k: Byte)
    ensures Channel(k as real / 255.0) == k
  {
  }

  function Max3(a: real, b: real, c: real): (m: real)
    ensures m == a || m == b || m == c
    ensures a <= m && b <= m && c <= m
  {
    if a >= b && a >= c then a else if b >= c then b else c
  }

  function Min3(a: real, b: real, c: real): (m: real)
    ensures m == a || m == b || m == c
    ensures m <= a && m <= b && m <= c
  {
    if a <= b && a <= c then a else if b <= c then b else c
  }
}
