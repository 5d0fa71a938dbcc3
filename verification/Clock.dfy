/** Millisecond timestamps as the statistics code uses them: unsigned 64-bit values, bucket alignment,
    and the one arithmetic fact the circular array rests on. */
module Clock {

  const U32: int := 0x1_0000_0000
  const U64: int := 0x1_0000_0000_0000_0000

  /** A reading of the millisecond clock. The index computation converts it to a signed 64-bit
      integer, so readings stay below 2^63. */
  type Millis = t: nat | t < 0x8000_0000_0000_0000

  /** Subtraction of unsigned 64-bit values, which wraps around. */
  function Sub64(a: nat, b: nat): nat {
    (a - b) % U64
  }

  /** A difference that would be negative comes out 2^64 larger. */
  lemma {:induction false} SubtractionWraps(a: nat, b: nat)
    requires a < 18446744073709551616 && b < 18446744073709551616
    ensures Sub64(a, b) == if a >= b then a - b else a + 18446744073709551616 - b
  {
  }

  /** Start of the bucket of length `len` that holds time `t`. */
  function Align(t: nat, len: nat): nat
    requires len > 0
  {
    t - t % len
  }

  /** Slot of time `t` in a circular array of `n` buckets of length `len`. */
  function SlotOf(t: nat, len: nat, n: nat): nat
    requires len > 0 && n > 0
  {
    (t / len) % n
  }

  lemma {:induction false} MulMonotone(a: nat, b: nat, c: nat)
    requires a <= b
    ensures a * c <= b * c
    ensures a < b ==> a * c + c <= b * c
  {
    var d := b - a;
    assert (a + d) * c == a * c + d * c;
    if d > 0 {
      var d' := d - 1;
      assert (d' + 1) * c == d' * c + c;
    }
  }

  /** `q * len + r` has quotient `q` and remainder `r`. */
  lemma {:induction false} DivUnique(q: nat, len: nat, r: nat)
    requires r < len
    ensures (q * len + r) / len == q && (q * len + r) % len == r
  {
    var t := q * len + r;
    var q', r' := t / len, t % len;
    assert t == q' * len + r';
    if q < q' {
      MulMonotone(q, q', len);
      assert false;
    } else if q' < q {
      MulMonotone(q', q, len);
      assert false;
    }
  }

  lemma {:induction false} AlignFacts(t: nat, len: nat)
    requires len > 0
    ensures Align(t, len) <= t < Align(t, len) + len
    ensures Align(t, len) % len == 0
    ensures Align(t, len) / len == t / len
    ensures Align(t, len) == (t / len) * len
    ensures Align(Align(t, len), len) == Align(t, len)
  {
    var q := t / len;
    assert t == q * len + t % len;
    DivUnique(q, len, 0);
    assert Align(t, len) == q * len + 0;
  }

  /** Quotients are ordered as the numbers they come from. */
  lemma {:induction false} DivMonotone(s: nat, t: nat, len: nat)
    requires len > 0 && s <= t
    ensures s / len <= t / len
  {
    AlignFacts(s, len);
    AlignFacts(t, len);
    if t / len < s / len {
      MulMonotone(t / len, s / len, len);
      assert false;
    }
  }

  lemma {:induction false} AlignMonotone(s: nat, t: nat, len: nat)
    requires len > 0 && s <= t
    ensures Align(s, len) == Align(t, len) || Align(s, len) + len <= Align(t, len)
  {
    AlignFacts(s, len);
    AlignFacts(t, len);
    DivMonotone(s, t, len);
    MulMonotone(s / len, t / len, len);
  }

  /** Two different bucket starts that share a slot lie at least one whole interval apart. */
  lemma {:induction false} SameSlotGap(s: nat, t: nat, len: nat, n: nat, interval: nat)
    requires len > 0 && n > 0 && interval == n * len
    requires s % len == 0 && t % len == 0 && s < t
    requires SlotOf(s, len, n) == SlotOf(t, len, n)
    ensures t >= s + interval
  {
    AlignFacts(s, len);
    AlignFacts(t, len);
    var p, q := s / len, t / len;
    DivMonotone(s, t, len);
    SameRemainderGap(p, q, n);
    MulMonotone(p + n, q, len);
    assert (p + n) * len == p * len + n * len;
  }

  lemma {:induction false} SameRemainderGap(p: nat, q: nat, n: nat)
    requires n > 0 && p % n == q % n && p < q
    ensures q >= p + n
  {
    AlignFacts(p, n);
    AlignFacts(q, n);
    DivMonotone(p, q, n);
    MulMonotone(p / n, q / n, n);
  }

  /** Bucket starts one interval apart lie on the same grid and share a slot. */
  lemma {:induction false} IntervalGrid(s: nat, t: nat, len: nat, n: nat, interval: nat)
    requires len > 0 && n > 0 && s % len == 0 && t % len == 0 && interval == n * len
    ensures s + interval > t ==> s + interval >= t + len
    ensures s + interval == t ==> SlotOf(s, len, n) == SlotOf(t, len, n)
  {
    AlignFacts(s, len);
    AlignFacts(t, len);
    var p, q := s / len, t / len;
    assert s + n * len == (p + n) * len + 0;
    DivUnique(p + n, len, 0);
    if s + n * len > t {
      AlignMonotone(t, s + n * len, len);
    } else if s + n * len == t {
      AlignFacts(p, n);
      assert p + n == (p / n + 1) * n + p % n;
      DivUnique(p / n + 1, n, p % n);
    }
  }

  lemma {:induction false} ExactQuotient(t: nat, n: nat)
    requires n > 0 && t > 0 && t % n == 0
    ensures t / n > 0 && t == n * (t / n)
  {
    AlignFacts(t, n);
  }
}
