/**
 * `pgcopy::cast`: checked narrowing of an integer to `i16` or `i32`, with
 * an error that names the value being converted. The `io::Error` of the
 * source (kind `Other`) is modelled by its message.
 */
module Cast {
  import opened Results

  const I16Min: int := -0x8000
  const I16Max: int := 0x7FFF
  const I32Min: int := -0x8000_0000
  const I32Max: int := 0x7FFF_FFFF

  /** `i16(cx, v)`: `TryFrom` succeeds exactly on the `i16` range. */
  function I16(cx: string, v: int): (r: Result<int, string>)
    ensures r.Ok? <==> I16Min <= v <= I16Max
    ensures r.Ok? ==> r.value == v
    ensures r.Err? ==> r.error == cx + " does not fit into an i16"
  {
    if I16Min <= v <= I16Max then Ok(v) else Err(cx + " does not fit into an i16")
  }

  /** `i32(cx, v)`: `TryFrom` succeeds exactly on the `i32` range. */
  function I32(cx: string, v: int): (r: Result<int, string>)
    ensures r.Ok? <==> I32Min <= v <= I32Max
    ensures r.Ok? ==> r.value == v
    ensures r.Err? ==> r.error == cx + " does not fit into an i32"
  {
    if I32Min <= v <= I32Max then Ok(v) else Err(cx + " does not fit into an i32")
  }

  /** The value a two's-complement pattern `u` of a width whose signed
      range is `[-half, half)` stands for. */
  function FromTwos(u: int, half: int): (r: int)
    requires half >= 1 && 0 <= u < 2 * half
    ensures -half <= r < half
  {
    if u < half then u else u - 2 * half
  }

  /** A value narrows exactly when truncating it to the width and reading
      the pattern back as signed loses nothing. */
  lemma TruncationIsLossless(v: int, half: int)
    requires half >= 1
    ensures FromTwos(v % (2 * half), half) == v <==> -half <= v < half
  {
    var m := 2 * half;
    if -half <= v < half {
      if v < 0 {
        ModOfShifted(v, m);
      } else {
        ModOfSmall(v, m);
      }
    }
  }

  lemma ModOfSmall(v: int, m: int)
    requires 0 <= v < m
    ensures v % m == v
  {
  }

  lemma ModOfShifted(v: int, m: int)
    requires -m <= v < 0
    ensures v % m == v + m
  {
    ModOfSmall(v + m, m);
    assert v + m == (v + m) % m;
    assert (v + m) % m == v % m;
  }

  /** `i16` succeeds on `v` exactly when `v` survives truncation to 16 bits. */
  lemma I16IsLossless(cx: string, v: int)
    ensures I16(cx, v).Ok? <==> FromTwos(v % 0x1_0000, 0x8000) == v
  {
    TruncationIsLossless(v, 0x8000);
  }

  /** `i32` succeeds on `v` exactly when `v` survives truncation to 32 bits. */
  lemma I32IsLossless(cx: string, v: int)
    ensures I32(cx, v).Ok? <==> FromTwos(v % 0x1_0000_0000, 0x8000_0000) == v
  {
    TruncationIsLossless(v, 0x8000_0000);
  }

  /** Whatever fits into an `i16` fits into an `i32`, with the same value. */
  lemma I16ThenI32(cx: string, cy: string, v: int)
    requires I16(cx, v).Ok?
    ensures I32(cy, v) == Ok(I16(cx, v).value)
  {
  }
}
