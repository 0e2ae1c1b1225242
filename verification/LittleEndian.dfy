/** Little-endian fixed-width fields, and records made of such fields. */
module LittleEndian {

  type u8 = x: int | 0 <= x < 0x100
  type u16 = x: int | 0 <= x < 0x1_0000
  type u32 = x: int | 0 <= x < 0x1_0000_0000
  type u64 = x: int | 0 <= x < 0x1_0000_0000_0000_0000

  function Pow256(n: nat): (p: nat)
    ensures p > 0
  {
    if n == 0 then 1 else 256 * Pow256(n - 1)
  }

  lemma Pow256Values()
    ensures Pow256(1) == 0x100 && Pow256(2) == 0x1_0000
    ensures Pow256(4) == 0x1_0000_0000 && Pow256(8) == 0x1_0000_0000_0000_0000
  {
    assert Pow256(0) == 1 && Pow256(3) == 256 * Pow256(2) && Pow256(5) == 256 * Pow256(4);
    assert Pow256(6) == 256 * Pow256(5) && Pow256(7) == 256 * Pow256(6);
  }

  /** The value in `width` bytes, least significant first. */
  function ToBytes(width: nat, value: nat): (b: seq<u8>)
    ensures |b| == width
  {
    if width == 0 then [] else [value % 256] + ToBytes(width - 1, value / 256)
  }

  function FromBytes(b: seq<u8>): (value: nat)
    ensures value < Pow256(|b|)
  {
    if b == [] then 0 else b[0] + 256 * FromBytes(b[1..])
  }

  lemma {:induction false} ValueRoundTrip(width: nat, value: nat)
    requires value < Pow256(width)
    ensures FromBytes(ToBytes(width, value)) == value
  {
    if width > 0 {
      assert ToBytes(width, value)[1..] == ToBytes(width - 1, value / 256);
      ValueRoundTrip(width - 1, value / 256);
    }
  }

  lemma LowByte(low: u8, high: nat)
    ensures (low + 256 * high) % 256 == low && (low + 256 * high) / 256 == high
  {
  }

  lemma {:induction false} BytesRoundTrip(b: seq<u8>)
    ensures ToBytes(|b|, FromBytes(b)) == b
  {
    if b != [] {
      BytesRoundTrip(b[1..]);
      LowByte(b[0], FromBytes(b[1..]));
      assert b == [b[0]] + b[1..];
    }
  }

  /** The number in the `width` bytes from `at` on. */
  function UintAt(b: seq<u8>, at: nat, width: nat): (value: nat)
    requires at + width <= |b|
    ensures value < Pow256(width)
    decreases |b| - at, width
  {
    if width == 0 then 0 else b[at] + 256 * UintAt(b, at + 1, width - 1)
  }

  lemma {:induction false} UintAtIsFromBytes(b: seq<u8>, at: nat, width: nat)
    requires at + width <= |b|
    ensures UintAt(b, at, width) == FromBytes(b[at..at + width])
    decreases width
  {
    if width > 0 {
      assert b[at..at + width][1..] == b[at + 1..at + width];
      UintAtIsFromBytes(b, at + 1, width - 1);
    }
  }

  // ---------------------------------------------------------------- records

  /** Where field `k` of a record starts, given the widths of the fields in order. */
  function Start(widths: seq<nat>, k: nat): nat
    requires k <= |widths|
  {
    if k == 0 then 0 else Start(widths, k - 1) + widths[k - 1]
  }

  lemma {:induction false} StartsAreOrdered(widths: seq<nat>, k: nat, n: nat)
    requires k < n <= |widths|
    ensures Start(widths, k) + widths[k] <= Start(widths, n)
    decreases n
  {
    if k < n - 1 {
      StartsAreOrdered(widths, k, n - 1);
    }
  }

  /** Every value is below the bound of its width. */
  predicate Fits(widths: seq<nat>, values: seq<nat>) {
    && |widths| == |values|
    && forall k | 0 <= k < |values| :: values[k] < Pow256(widths[k])
  }

  /** The first `n` fields, written one after the other. */
  function Encode(widths: seq<nat>, values: seq<nat>, n: nat): (b: seq<u8>)
    requires n <= |widths| && |widths| == |values|
    ensures |b| == Start(widths, n)
  {
    if n == 0 then [] else Encode(widths, values, n - 1) + ToBytes(widths[n - 1], values[n - 1])
  }

  lemma WrittenFieldAt(before: seq<u8>, width: nat, value: nat, trailing: seq<u8>)
    requires value < Pow256(width)
    ensures UintAt(before + ToBytes(width, value) + trailing, |before|, width) == value
  {
    var b := before + ToBytes(width, value) + trailing;
    UintAtIsFromBytes(b, |before|, width);
    assert b[|before|..|before| + width] == ToBytes(width, value);
    ValueRoundTrip(width, value);
  }

  lemma {:induction false} EncodedFieldAt(widths: seq<nat>, values: seq<nat>, n: nat, trailing: seq<u8>, k: nat)
    requires k < n <= |widths| && Fits(widths, values)
    ensures Start(widths, k) + widths[k] <= Start(widths, n)
    ensures UintAt(Encode(widths, values, n) + trailing, Start(widths, k), widths[k]) == values[k]
    decreases n
  {
    StartsAreOrdered(widths, k, n);
    var before, last := Encode(widths, values, n - 1), ToBytes(widths[n - 1], values[n - 1]);
    if k < n - 1 {
      assert before + last + trailing == before + (last + trailing);
      EncodedFieldAt(widths, values, n - 1, last + trailing, k);
    } else {
      WrittenFieldAt(before, widths[k], values[k], trailing);
    }
  }

  /** Field `k` of a record at the start of `b` has the given value. */
  predicate HoldsField(widths: seq<nat>, values: seq<nat>, b: seq<u8>, k: nat)
    requires k < |widths| == |values|
  {
    Start(widths, k) + widths[k] <= |b| && values[k] == UintAt(b, Start(widths, k), widths[k])
  }

  lemma BytesOfUintAt(b: seq<u8>, at: nat, width: nat)
    requires at + width <= |b|
    ensures ToBytes(width, UintAt(b, at, width)) == b[at..at + width]
  {
    UintAtIsFromBytes(b, at, width);
    BytesRoundTrip(b[at..at + width]);
  }

  lemma {:induction false} EncodingOfFields(widths: seq<nat>, values: seq<nat>, n: nat, b: seq<u8>)
    requires n <= |widths| && |widths| == |values| && Start(widths, n) <= |b|
    requires forall k | 0 <= k < n :: HoldsField(widths, values, b, k)
    ensures Encode(widths, values, n) == b[..Start(widths, n)]
  {
    if n > 0 {
      var from, width := Start(widths, n - 1), widths[n - 1];
      EncodingOfFields(widths, values, n - 1, b);
      assert HoldsField(widths, values, b, n - 1);
      BytesOfUintAt(b, from, width);
      assert b[..from + width] == b[..from] + b[from..from + width];
    }
  }
}
