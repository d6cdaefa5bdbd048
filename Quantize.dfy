/**
 * The integer part of `quantize_f32_to_i8`: the `long` produced by
 * `lroundf(x / scale) + zp` is pinned to [-128, 127] and cast to `int8_t`.
 * The float part (`raw / 255.0f`, the division by the scale and the
 * rounding) is abstracted as an integer-valued function of the pixel byte.
 */
module Quantize {
  import opened Types

  predicate InInt8(q: int) {
    -128 <= q <= 127
  }

  /** The saturating clamp: a value below the range becomes -128, above it 127. */
  function Clamp(q: int): (r: int)
    ensures InInt8(r)
    ensures InInt8(q) ==> r == q
    ensures q < -128 ==> r == -128
    ensures q > 127 ==> r == 127
  {
    var lo := if q < -128 then -128 else q;
    if lo > 127 then 127 else lo
  }

  /** The conversion `(int8_t)q` of a two's-complement target: reduction modulo 256. */
  function ToInt8(q: int): (r: i8)
    ensures (q - r) % 256 == 0
    ensures InInt8(q) ==> r == q
  {
    (q + 128) % 256 - 128
  }

  /**
   * `quantize_f32_to_i8` with `lroundf(x / scale)` given as `rounded`:
   * the final cast never wraps, because the clamp has already saturated.
   */
  function QuantizeF32ToI8(rounded: int, zp: int): (r: i8)
    ensures InInt8(rounded + zp) ==> r == rounded + zp
    ensures rounded + zp < -128 ==> r == -128
    ensures rounded + zp > 127 ==> r == 127
  {
    ToInt8(Clamp(rounded + zp))
  }

  /**
   * The quantization parameters fixed at start-up. `rounded(b)` stands for
   * `lroundf(((float)b / 255.0f) / in_scale)`, which depends on the byte only,
   * since `in_scale` never changes after initialisation; `zp` is `in_zp`.
   */
  datatype Params = Params(rounded: byte -> int, zp: int)

  /** The input-tensor value computed for one raw pixel byte. */
  function QuantizePixel(p: Params, b: byte): i8 {
    QuantizeF32ToI8(p.rounded(b), p.zp)
  }

  /** The input tensor computed for a whole raw buffer, cell by cell. */
  function QuantizeFrame(p: Params, raw: seq<byte>): seq<i8> {
    seq(|raw|, i requires 0 <= i < |raw| => QuantizePixel(p, raw[i]))
  }

  /** The clamp picks the int8 value nearest to its argument. */
  lemma ClampIsNearest(q: int, v: int)
    requires InInt8(v)
    ensures Abs(q - Clamp(q)) <= Abs(q - v)
    ensures Abs(q - Clamp(q)) == Abs(q - v) ==> v == Clamp(q)
  {
  }

  /** The clamp preserves order, so it never wraps a large value to a small one. */
  lemma ClampMonotone(a: int, b: int)
    requires a <= b
    ensures Clamp(a) <= Clamp(b)
  {
  }

  /** Clamping twice is clamping once. */
  lemma ClampIdempotent(q: int)
    ensures Clamp(Clamp(q)) == Clamp(q)
  {
  }

  /** The bare cast would wrap 128 to -128; quantization saturates it to 127 instead. */
  lemma SaturatesWhereCastWraps()
    ensures ToInt8(128) == -128 && QuantizeF32ToI8(128, 0) == 127
    ensures ToInt8(-129) == 127 && QuantizeF32ToI8(-129, 0) == -128
  {
  }

  /** An all-zero frame quantizes to the clamped zero point in every cell when zero maps to zero. */
  lemma BlackFrame(p: Params, raw: seq<byte>)
    requires p.rounded(0) == 0
    requires forall i :: 0 <= i < |raw| ==> raw[i] == 0
    ensures QuantizeFrame(p, raw) == seq(|raw|, _ => Clamp(p.zp))
  {
  }

  function Abs(x: int): nat {
    if x < 0 then -x else x
  }
}
