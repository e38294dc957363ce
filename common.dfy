/** Fixed-width integer ranges and the optional-value wrapper shared by every module. */
module Common {

  /** An unsigned 8-bit value (`uint8_t` / `UInt8`). */
  type byte = x: int | 0 <= x < 0x100

  /** An unsigned 16-bit value (`uint16_t` / `UInt16`). */
  type u16 = x: int | 0 <= x < 0x1_0000

  /** An unsigned 32-bit value (`uint32_t` / `UInt32`). */
  type u32 = x: int | 0 <= x < 0x1_0000_0000

  /** A signed 16-bit value (`int16_t` / `Int16`). */
  type i16 = x: int | -0x8000 <= x < 0x8000

  /** Swift's `Optional`: `None` stands for `nil`. */
  datatype Option<+T> = None | Some(value: T)

  /** Sequences that agree at every index are equal. */
  lemma SameElements<T>(s: seq<T>, t: seq<T>)
    requires |s| == |t| && forall i | 0 <= i < |s| :: s[i] == t[i]
    ensures s == t
  {
  }

  /** Concatenation is associative. */
  lemma AppendAssoc<T>(a: seq<T>, b: seq<T>, c: seq<T>)
    ensures (a + b) + c == a + (b + c)
  {
  }

  /** Element `j` of a concatenation comes from the left part or, past its end, from the right. */
  lemma AppendIndex<T>(a: seq<T>, b: seq<T>, j: nat)
    requires j < |a| + |b|
    ensures (a + b)[j] == if j < |a| then a[j] else b[j - |a|]
  {
  }

  /** Element `j` of a slice starting at `start` is element `i == start + j` of the whole. */
  lemma SliceIndex<T>(s: seq<T>, start: nat, t: seq<T>, j: nat, i: nat)
    requires start + |t| <= |s| && s[start..start + |t|] == t && j < |t| && i == start + j
    ensures s[i] == t[j]
  {
    assert s[start..start + |t|][j] == s[i];
  }

  /**
   * A buffer that agreed with `prev` on its first `|prev|` elements, kept them, and then
   * had `row` written right after them, agrees with `prev + row` up to `end`.
   */
  lemma ExtendAppend<T>(before: seq<T>, after: seq<T>, prev: seq<T>, row: seq<T>, len: nat, end: nat)
    requires |row| == len && end == |prev| + len && |before| == |after| && end <= |after|
    requires forall i | 0 <= i < |prev| :: before[i] == prev[i]
    requires forall i | 0 <= i < |prev| :: after[i] == before[i]
    requires forall k | 0 <= k < len :: after[|prev| + k] == row[k]
    ensures forall i | 0 <= i < end :: after[i] == (prev + row)[i]
  {
    forall i | 0 <= i < end
      ensures after[i] == (prev + row)[i]
    {
      if i >= |prev| {
        assert after[|prev| + (i - |prev|)] == row[i - |prev|];
      }
    }
  }

  /**
   * A buffer that agreed with `want` on its first `4 * x` bytes after `base`, and then had
   * only the four bytes at `base + 4 * x` rewritten to the next chunk of `want`, agrees
   * with `want` on its first `4 * (x + 1)` bytes.
   */
  lemma ExtendChunk<T>(before: seq<T>, after: seq<T>, base: nat, x: nat, want: seq<T>)
    requires |before| == |after| && base + 4 * x + 4 <= |after| && 4 * x + 4 <= |want|
    requires forall k | 0 <= k < 4 * x :: before[base + k] == want[k]
    requires forall i | 0 <= i < |after| && (i < base + 4 * x || base + 4 * x + 4 <= i) :: after[i] == before[i]
    requires after[base + 4 * x] == want[4 * x] && after[base + 4 * x + 1] == want[4 * x + 1]
    requires after[base + 4 * x + 2] == want[4 * x + 2] && after[base + 4 * x + 3] == want[4 * x + 3]
    ensures forall k | 0 <= k < 4 * (x + 1) :: after[base + k] == want[k]
  {
    forall k | 0 <= k < 4 * (x + 1)
      ensures after[base + k] == want[k]
    {
      if k < 4 * x {
        assert after[base + k] == before[base + k];
      } else {
        assert k == 4 * x || k == 4 * x + 1 || k == 4 * x + 2 || k == 4 * x + 3;
      }
    }
  }

  /**
   * The product `a * b` of two naturals as repeated addition. Frame geometry multiplies
   * two variables (row index by pitch, row index by width); written this way, proofs
   * about offsets unfold the product one row at a time.
   */
  function Mul(a: nat, b: nat): nat
    decreases a
  {
    if a == 0 then 0 else Mul(a - 1, b) + b
  }

  lemma {:induction false} MulIsProduct(a: nat, b: nat)
    ensures Mul(a, b) == a * b
    decreases a
  {
    if a > 0 {
      MulIsProduct(a - 1, b);
    }
  }

  lemma MulComm(a: nat, b: nat)
    ensures Mul(a, b) == Mul(b, a)
  {
    MulIsProduct(a, b);
    MulIsProduct(b, a);
  }

  /** More rows start further in: `a * c <= b * c` whenever `a <= b`. */
  lemma {:induction false} MulMono(a: nat, b: nat, c: nat)
    requires a <= b
    ensures Mul(a, c) <= Mul(b, c)
    decreases b
  {
    if a < b {
      MulMono(a, b - 1, c);
    }
  }

  /** Row `y` of a packed `w` pixels wide, 4-bytes-per-pixel, `h` rows high buffer lies inside it. */
  lemma PackedRow(w: nat, h: nat, y: nat)
    requires y < h
    ensures Mul(y + 1, w) * 4 == Mul(y, w) * 4 + 4 * w <= Mul(w, h) * 4
  {
    MulMono(y + 1, h, w);
    MulComm(w, h);
  }

  /** Byte `k` of pixel (x, y) of a packed `w` pixels wide, 4-bytes-per-pixel buffer lies inside its row, and inside an `h` rows high buffer. */
  lemma PackedIndex(w: nat, h: nat, y: nat, x: nat, k: nat)
    requires y < h && x < w && k < 4
    ensures Mul(y, w) * 4 + 4 * x + k < Mul(y + 1, w) * 4 <= Mul(h, w) * 4
  {
    MulMono(y + 1, h, w);
  }
}
