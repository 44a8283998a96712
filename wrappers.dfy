// Option and Result wrappers shared by every module, and the fixed-width
// integer conversions of the C# code (unchecked casts and arithmetic).

module Wrappers {
  datatype Option<T> = None | Some(value: T)

  /** The exceptions a modelled operation raises, by kind. */
  datatype Error =
    | InvalidOperation      // System.InvalidOperationException
    | KeyNotFound           // System.Collections.Generic.KeyNotFoundException
    | KeyError              // Python KeyError
    | ValueError            // Python ValueError/TypeError from int() or float()
    | ZeroDivision          // Python ZeroDivisionError
    | Overflow              // System.OverflowException from checked arithmetic
    | IndexOutOfRange       // System.IndexOutOfRangeException

  datatype Result<T> = Ok(value: T) | Err(error: Error)
  {
    predicate IsOk() { Ok? }
  }
}

module FixedWidth {
  const BYTE_RANGE: int := 0x100
  const USHORT_RANGE: int := 0x1_0000
  const UINT_RANGE: int := 0x1_0000_0000
  const USHORT_MAX: int := 0xFFFF
  const ULONG_RANGE: int := 0x1_0000_0000_0000_0000

  /** An unchecked cast to `byte`: the value modulo 256. */
  function ToByte(v: int): (r: int)
    ensures 0 <= r < BYTE_RANGE
    ensures 0 <= v < BYTE_RANGE ==> r == v
    ensures (v - r) % BYTE_RANGE == 0
  {
    v % BYTE_RANGE
  }

  /** An unchecked cast to `ushort`. */
  function ToUShort(v: int): (r: int)
    ensures 0 <= r < USHORT_RANGE
    ensures 0 <= v < USHORT_RANGE ==> r == v
    ensures (v - r) % USHORT_RANGE == 0
  {
    v % USHORT_RANGE
  }

  /** An unchecked cast to `uint`. */
  function ToUInt(v: int): (r: int)
    ensures 0 <= r < UINT_RANGE
    ensures 0 <= v < UINT_RANGE ==> r == v
    ensures (v - r) % UINT_RANGE == 0
  {
    v % UINT_RANGE
  }

  /** An unchecked cast to `ulong`, and unchecked `ulong` arithmetic. */
  function ToULong(v: int): (r: int)
    ensures 0 <= r < ULONG_RANGE
    ensures 0 <= v < ULONG_RANGE ==> r == v
  {
    v % ULONG_RANGE
  }

  predicate IsInt(v: int) { -0x8000_0000 <= v < 0x8000_0000 }

  /** Unchecked 32-bit signed arithmetic: the two's-complement wrap of `v`. */
  function ToInt(v: int): (r: int)
    ensures -0x8000_0000 <= r < 0x8000_0000
    ensures -0x8000_0000 <= v < 0x8000_0000 ==> r == v
    ensures (v - r) % UINT_RANGE == 0
  {
    (v + 0x8000_0000) % UINT_RANGE - 0x8000_0000
  }

  lemma ModShift(x: int, q: int)
    ensures (x + q * UINT_RANGE) % UINT_RANGE == x % UINT_RANGE
    decreases if q < 0 then -q else q
  {
    if q > 0 {
      ModShift(x, q - 1);
      assert x + q * UINT_RANGE == (x + (q - 1) * UINT_RANGE) + UINT_RANGE;
    } else if q < 0 {
      ModShift(x, q + 1);
      assert x + q * UINT_RANGE == (x + (q + 1) * UINT_RANGE) - UINT_RANGE;
    }
  }

  /** Unsigned 32-bit wrap-around commutes with addition and multiplication. */
  lemma ToUIntAddMul(a: int, b: int, c: int)
    ensures ToUInt(a + ToUInt(ToUInt(b) * ToUInt(c))) == ToUInt(a + b * c)
  {
    var b0, c0 := ToUInt(b), ToUInt(c);
    var qb, qc := (b - b0) / UINT_RANGE, (c - c0) / UINT_RANGE;
    assert b == b0 + qb * UINT_RANGE && c == c0 + qc * UINT_RANGE;
    var bc := b0 * c0;
    var q := b0 * qc + qb * c0 + qb * qc * UINT_RANGE;
    assert b * c == bc + q * UINT_RANGE by {
      assert b * c == (b0 + qb * UINT_RANGE) * (c0 + qc * UINT_RANGE);
    }
    var w := ToUInt(bc);
    var qw := (bc - w) / UINT_RANGE;
    assert bc == w + qw * UINT_RANGE;
    ModShift(a + w, qw + q);
    assert a + b * c == (a + w) + (qw + q) * UINT_RANGE;
  }

  lemma ToUIntAdd(a: int, b: int)
    ensures ToUInt(ToUInt(a) + b) == ToUInt(a + b)
  {
    var q := (a - ToUInt(a)) / UINT_RANGE;
    assert a - ToUInt(a) == q * UINT_RANGE;
    ModShift(ToUInt(a) + b, q);
    assert a + b == (ToUInt(a) + b) + q * UINT_RANGE;
  }

  /** Wrapping after every addition is wrapping once at the end. */
  lemma ToIntAdd(a: int, b: int)
    ensures ToInt(ToInt(a) + b) == ToInt(a + b)
  {
    var q := (a - ToInt(a)) / UINT_RANGE;
    assert a - ToInt(a) == q * UINT_RANGE;
    ModShift(ToInt(a) + b + 0x8000_0000, q);
    assert a + b + 0x8000_0000 == (ToInt(a) + b + 0x8000_0000) + q * UINT_RANGE;
  }
}

module Sets {
  lemma SubsetCard<T>(a: set<T>, b: set<T>)
    requires a <= b
    ensures |a| <= |b|
  {
    assert b == a + (b - a);
  }

  /** The integers lo..hi-1. */
  function Range(lo: int, hi: int): (r: set<int>)
    ensures forall v :: v in r <==> lo <= v < hi
    ensures lo <= hi ==> |r| == hi - lo
    decreases hi - lo
  {
    if lo >= hi then {} else Range(lo, hi - 1) + {hi - 1}
  }
}
