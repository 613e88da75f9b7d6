/** CRC-32 as the archive check computes it when zlib offers none (bin/recovery.js).

    The code mixes each byte into the LOW byte of the register, runs eight feedback shifts
    on that byte alone and folds the result into the register shifted down by eight. The
    reference is the serial circuit: one message bit at a time, the least significant bit
    of each byte first, over the full 32-bit register (section 8 of RFC 1952).

    A 32-bit value is its sequence of bits, least significant first, so JavaScript's `^`,
    `>>>` and `& 0xFF` are pointwise exclusive or, dropping low bits and clearing high ones.
 */
module Crc32 {
  type Word = w: seq<bool> | |w| == 32 witness Zeros(32)
  type Byte = b: seq<bool> | |b| == 8 witness Zeros(8)

  // 0xEDB88320, nibble by nibble from the low end.
  const POLY: Word := [false, false, false, false] + [false, true, false, false]
                    + [true, true, false, false] + [false, false, false, true]
                    + [false, false, false, true] + [true, true, false, true]
                    + [true, false, true, true] + [false, true, true, true]
  const ONES: Word := [true, true, true, true, true, true, true, true, true, true, true, true, true, true, true, true,
                       true, true, true, true, true, true, true, true, true, true, true, true, true, true, true, true]

  /** The generator of RFC 1952, section 8, without its leading term: bit i stands for the power 31 - i. */
  lemma PolyTerms(i: nat)
    requires i < 32
    ensures POLY[i] <==> 31 - i in {26, 23, 22, 16, 12, 11, 10, 8, 7, 5, 4, 2, 1, 0}
    ensures ONES[i]
  {
  }

  function Zeros(n: nat): (r: seq<bool>)
    ensures |r| == n && forall i :: 0 <= i < n ==> !r[i]
  {
    if n == 0 then [] else [false] + Zeros(n - 1)
  }

  function Xor(a: Word, b: Word): (r: Word)
    ensures forall i :: 0 <= i < 32 ==> r[i] == (a[i] != b[i])
  {
    XorBits(a, b)
  }

  function XorBits(a: seq<bool>, b: seq<bool>): (r: seq<bool>)
    requires |a| == |b|
    ensures |r| == |a| && forall i :: 0 <= i < |a| ==> r[i] == (a[i] != b[i])
  {
    if a == [] then [] else [a[0] != b[0]] + XorBits(a[1..], b[1..])
  }

  /** Logical shift right. */
  function Down(a: Word, n: nat): Word
    requires n <= 32
  {
    a[n..] + Zeros(n)
  }

  /** Keep the low n bits. */
  function Low(a: Word, n: nat): Word
    requires n <= 32
  {
    a[..n] + Zeros(32 - n)
  }

  /** At most 32 bits read as a word. */
  function Widen(bits: seq<bool>): Word
    requires |bits| <= 32
  {
    bits + Zeros(32 - |bits|)
  }

  /** One feedback shift of the register. */
  function Shift(c: Word): Word {
    if c[0] then Xor(POLY, Down(c, 1)) else Down(c, 1)
  }

  function Shifts(c: Word, n: nat): Word {
    if n == 0 then c else Shift(Shifts(c, n - 1))
  }

  /** One message bit enters the register. */
  function BitStep(c: Word, bit: bool): Word {
    if c[0] != bit then Xor(POLY, Down(c, 1)) else Down(c, 1)
  }

  function BitSteps(c: Word, bits: seq<bool>): Word
    decreases |bits|
  {
    if bits == [] then c else BitSteps(BitStep(c, bits[0]), bits[1..])
  }

  function MessageBits(buf: seq<Byte>): seq<bool> {
    if buf == [] then [] else MessageBits(buf[..|buf| - 1]) + buf[|buf| - 1]
  }

  /** The reference: preset to ones, feed every bit, complement. */
  function Crc(buf: seq<Byte>): Word {
    Xor(BitSteps(ONES, MessageBits(buf)), ONES)
  }

  // ---- The shift register ----

  lemma ShiftLinear(a: Word, b: Word)
    ensures Shift(Xor(a, b)) == Xor(Shift(a), Shift(b))
  {
    assert Down(Xor(a, b), 1) == Xor(Down(a, 1), Down(b, 1));
  }

  lemma {:induction false} ShiftsLinear(a: Word, b: Word, n: nat)
    ensures Shifts(Xor(a, b), n) == Xor(Shifts(a, n), Shifts(b, n))
  {
    if n == 0 {
    } else {
      ShiftsLinear(a, b, n - 1);
      ShiftLinear(Shifts(a, n - 1), Shifts(b, n - 1));
    }
  }

  /** With n zero bits at the bottom, n shifts meet no feedback. */
  lemma {:induction false} ShiftsOfHigh(a: Word, n: nat, k: nat)
    requires k <= n <= 32
    requires forall i :: 0 <= i < n ==> !a[i]
    ensures Shifts(a, k) == Down(a, k)
  {
    if k > 0 {
      ShiftsOfHigh(a, n, k - 1);
      assert Down(Down(a, k - 1), 1) == Down(a, k);
    } else {
      assert Down(a, 0) == a;
    }
  }

  /** Shifting the low part alone and folding it into the shifted-down rest is shifting the whole. */
  lemma ShiftsSplit(a: Word, n: nat)
    requires n <= 32
    ensures Shifts(a, n) == Xor(Down(a, n), Shifts(Low(a, n), n))
  {
    var high: Word := Zeros(n) + a[n..];
    assert a == Xor(high, Low(a, n));
    ShiftsLinear(high, Low(a, n), n);
    ShiftsOfHigh(high, n, n);
    assert Down(high, n) == Down(a, n);
  }

  lemma ShiftsNext(c: Word, n: nat, d: Word)
    requires d == Shifts(c, n)
    ensures Shifts(c, n + 1) == Shift(d)
  {
  }

  lemma {:induction false} ShiftsFirst(c: Word, d: Word, n: nat)
    requires d == Shift(c)
    ensures Shifts(d, n) == Shifts(c, n + 1)
  {
    if n == 0 {
      ShiftsNext(c, 0, c);
    } else {
      var e := Shifts(d, n - 1);
      ShiftsFirst(c, d, n - 1);
      ShiftsNext(d, n - 1, e);
      ShiftsNext(c, n, e);
    }
  }

  /** Up to a register's worth of message bits may be mixed in at once and shifted through. */
  lemma {:induction false} BitStepsAreShifts(c: Word, bits: seq<bool>)
    requires |bits| <= 32
    ensures BitSteps(c, bits) == Shifts(Xor(c, Widen(bits)), |bits|)
    decreases |bits|
  {
    var mixed := Xor(c, Widen(bits));
    if bits == [] {
      assert mixed == c;
    } else {
      var rest := bits[1..];
      BitStepsAreShifts(BitStep(c, bits[0]), rest);
      assert Shift(mixed) == Xor(BitStep(c, bits[0]), Widen(rest)) by {
        assert Down(mixed, 1) == Xor(Down(c, 1), Widen(rest));
      }
      ShiftsFirst(mixed, Shift(mixed), |rest|);
    }
  }

  lemma {:induction false} BitStepsAppend(c: Word, a: seq<bool>, b: seq<bool>)
    ensures BitSteps(c, a + b) == BitSteps(BitSteps(c, a), b)
    decreases |a|
  {
    if a == [] {
      assert a + b == b;
    } else {
      assert (a + b)[0] == a[0] && (a + b)[1..] == a[1..] + b;
      var d := BitStep(c, a[0]);
      BitStepsAppend(d, a[1..], b);
    }
  }

  // ---- The code ----

  /** Every byte string gets the reference CRC, though only the low byte is ever shifted. */
  method Crc32Fallback(buf: seq<Byte>) returns (r: Word)
    ensures r == Crc(buf)
  {
    var crc := ONES;
    for i := 0 to |buf|
      invariant crc == BitSteps(ONES, MessageBits(buf[..i]))
    {
      var c := Low(Xor(crc, Widen(buf[i])), 8);
      ghost var start, before := c, crc;
      for k := 0 to 8
        invariant c == Shifts(start, k)
      {
        c := if c[0] then Xor(POLY, Down(c, 1)) else Down(c, 1);
      }
      crc := Xor(Down(crc, 8), c);
      ByteFolds(before, buf[i]);
      assert buf[..i + 1][..i] == buf[..i];
      BitStepsAppend(ONES, MessageBits(buf[..i]), buf[i]);
    }
    assert buf[..|buf|] == buf;
    r := Xor(crc, ONES);
  }

  /** The code's step for one byte: eight shifts of the low byte alone, folded into the rest. */
  function ByteStep(crc: Word, b: Byte): Word {
    Xor(Down(crc, 8), Shifts(Low(Xor(crc, Widen(b)), 8), 8))
  }

  lemma ByteFolds(crc: Word, b: Byte)
    ensures ByteStep(crc, b) == BitSteps(crc, b)
  {
    var mixed := Xor(crc, Widen(b));
    BitStepsAreShifts(crc, b);
    ShiftsSplit(mixed, 8);
    HighUntouched(crc, b);
  }

  lemma HighUntouched(crc: Word, b: Byte)
    ensures Down(Xor(crc, Widen(b)), 8) == Down(crc, 8)
  {
  }

  // ---- What the check detects ----

  /** The top coefficient of the polynomial makes every shift invertible. */
  lemma ShiftInjective(a: Word, b: Word)
    requires Shift(a) == Shift(b)
    ensures a == b
  {
    assert Shift(a)[31] == a[0] && Shift(b)[31] == b[0];
    var x, y := Down(a, 1), Down(b, 1);
    if a[0] { XorInjective(x, y, POLY); }
    forall i | 0 < i < 32 ensures a[i] == b[i] {
      assert x[i - 1] == a[i] && y[i - 1] == b[i];
    }
  }

  lemma {:induction false} ShiftsInjective(a: Word, b: Word, n: nat)
    requires Shifts(a, n) == Shifts(b, n)
    ensures a == b
  {
    if n == 0 {
    } else {
      ShiftInjective(Shifts(a, n - 1), Shifts(b, n - 1));
      ShiftsInjective(a, b, n - 1);
    }
  }

  /** Feeding fixed bits is injective on the register, so a difference once present never cancels. */
  lemma {:induction false} BitStepsInjective(a: Word, b: Word, bits: seq<bool>)
    requires BitSteps(a, bits) == BitSteps(b, bits)
    ensures a == b
    decreases |bits|
  {
    if bits == [] {
    } else {
      BitStepsInjective(BitStep(a, bits[0]), BitStep(b, bits[0]), bits[1..]);
      BitStepsAreShifts(a, bits[..1]);
      BitStepsAreShifts(b, bits[..1]);
      assert Shifts(Xor(a, Widen(bits[..1])), 1) == Shifts(Xor(b, Widen(bits[..1])), 1);
      ShiftsInjective(Xor(a, Widen(bits[..1])), Xor(b, Widen(bits[..1])), 1);
      XorInjective(a, b, Widen(bits[..1]));
    }
  }

  /** The register before a shift: the top bit says whether the polynomial was mixed in. */
  function Unshift(d: Word): Word {
    var c: Word := [d[31]] + (if d[31] then Xor(POLY, d) else d)[..31];
    c
  }

  lemma ShiftOnto(d: Word)
    ensures Shift(Unshift(d)) == d
  {
    var x := if d[31] then Xor(POLY, d) else d;
    var down := Down(Unshift(d), 1);
    assert !x[31];
    assert down == x;
  }

  /** One bit step is a shift of the register with the bit mixed in. */
  lemma BitStepMixes(c: Word, bit: bool)
    ensures BitStep(c, bit) == Shift(Xor(c, Widen([bit])))
  {
    assert Down(Xor(c, Widen([bit])), 1) == Down(c, 1);
  }

  lemma XorCancels(a: Word, w: Word)
    ensures Xor(Xor(a, w), w) == a
  {
  }

  /** Every register is what feeding the bits makes of some register. */
  lemma {:induction false} BitStepsOnto(d: Word, bits: seq<bool>) returns (c: Word)
    ensures BitSteps(c, bits) == d
    decreases |bits|
  {
    if bits == [] {
      c := d;
    } else {
      var next := BitStepsOnto(d, bits[1..]);
      c := Xor(Unshift(next), Widen([bits[0]]));
      XorCancels(Unshift(next), Widen([bits[0]]));
      BitStepMixes(c, bits[0]);
      ShiftOnto(next);
    }
  }

  /** The code's byte step is a bijection on the register: each register has exactly one predecessor. */
  lemma ByteStepBijective(d: Word, b: Byte) returns (c: Word)
    ensures ByteStep(c, b) == d
    ensures forall other: Word :: ByteStep(other, b) == d ==> other == c
  {
    c := BitStepsOnto(d, b);
    ByteFolds(c, b);
    forall other: Word | ByteStep(other, b) == d ensures other == c {
      ByteFolds(other, b);
      BitStepsInjective(other, c, b);
    }
  }

  lemma XorInjective(a: Word, b: Word, w: Word)
    requires Xor(a, w) == Xor(b, w) || Xor(w, a) == Xor(w, b)
    ensures a == b
  {
    forall i | 0 <= i < 32 ensures a[i] == b[i] {
      assert (Xor(a, w)[i] == (a[i] != w[i])) && (Xor(b, w)[i] == (b[i] != w[i]));
      assert (Xor(w, a)[i] == (w[i] != a[i])) && (Xor(w, b)[i] == (w[i] != b[i]));
    }
  }

  lemma WindowDetermined(c: Word, before: seq<bool>, x: seq<bool>, y: seq<bool>, after: seq<bool>)
    requires |x| == |y| <= 32
    requires BitSteps(c, before + x + after) == BitSteps(c, before + y + after)
    ensures x == y
  {
    var r := BitSteps(c, before);
    BitStepsAppend(c, before + x, after);
    BitStepsAppend(c, before, x);
    BitStepsAppend(c, before + y, after);
    BitStepsAppend(c, before, y);
    BitStepsInjective(BitSteps(r, x), BitSteps(r, y), after);
    BitStepsAreShifts(r, x);
    BitStepsAreShifts(r, y);
    ShiftsInjective(Xor(r, Widen(x)), Xor(r, Widen(y)), |x|);
    XorInjective(Widen(x), Widen(y), r);
    assert Widen(x)[..|x|] == x && Widen(y)[..|x|] == y;
  }

  /** Two bit streams that differ only inside a window of at most 32 bits leave different registers. */
  lemma BurstChangesRegister(c: Word, before: seq<bool>, x: seq<bool>, y: seq<bool>, after: seq<bool>)
    requires |x| == |y| <= 32 && x != y
    ensures BitSteps(c, before + x + after) != BitSteps(c, before + y + after)
  {
    if BitSteps(c, before + x + after) == BitSteps(c, before + y + after) {
      WindowDetermined(c, before, x, y, after);
    }
  }

  lemma {:induction false} MessageBitsAppend(a: seq<Byte>, b: seq<Byte>)
    ensures MessageBits(a + b) == MessageBits(a) + MessageBits(b)
    decreases |b|
  {
    if b == [] {
      assert a + b == a;
    } else {
      MessageBitsAppend(a, b[..|b| - 1]);
      assert (a + b)[..|a + b| - 1] == a + b[..|b| - 1];
    }
  }

  lemma {:induction false} MessageBitsInjective(a: seq<Byte>, b: seq<Byte>)
    requires |a| == |b|
    ensures |MessageBits(a)| == |MessageBits(b)| == 8 * |a|
    ensures MessageBits(a) == MessageBits(b) ==> a == b
  {
    if a == [] {
    } else {
      var n := |a| - 1;
      MessageBitsInjective(a[..n], b[..n]);
      if MessageBits(a) == MessageBits(b) {
        assert MessageBits(a)[..8 * n] == MessageBits(a[..n]) && MessageBits(b)[..8 * n] == MessageBits(b[..n]);
        assert MessageBits(a)[8 * n..] == a[n] && MessageBits(b)[8 * n..] == b[n];
        assert a == a[..n] + [a[n]] && b == b[..n] + [b[n]];
      }
    }
  }

  /** A corruption confined to four consecutive bytes is always caught. */
  lemma FourByteBurstDetected(before: seq<Byte>, x: seq<Byte>, y: seq<Byte>, after: seq<Byte>)
    requires |x| == |y| <= 4 && x != y
    ensures Crc(before + x + after) != Crc(before + y + after)
  {
    MessageBitsAppend(before + x, after);
    MessageBitsAppend(before, x);
    MessageBitsAppend(before + y, after);
    MessageBitsAppend(before, y);
    MessageBitsInjective(x, y);
    BurstChangesRegister(ONES, MessageBits(before), MessageBits(x), MessageBits(y), MessageBits(after));
    if Crc(before + x + after) == Crc(before + y + after) {
      XorInjective(BitSteps(ONES, MessageBits(before + x + after)), BitSteps(ONES, MessageBits(before + y + after)), ONES);
    }
  }
}
