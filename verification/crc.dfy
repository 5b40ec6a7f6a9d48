/** The 16-bit checksum of a VectorNav binary frame.
    `calculateImuCrc` is the compact bytewise form of CRC-16-CCITT with
    generator x^16 + x^12 + x^5 + 1 (ITU-T Recommendation V.41) and initial
    value 0, the parameterisation known as CRC-16/XMODEM. The register is
    16 bits wide: `bv16` arithmetic truncates every intermediate value the
    way the assignment back to an `unsigned short` does. */
module ImuCrc {

  // The five statements of one loop iteration, one function each.

  /** Exchange the register's two bytes. */
  function SwapBytes(crc: bv16): bv16 { (crc >> 8) | (crc << 8) }

  /** Xor the data byte into the low byte. */
  function XorByte(crc: bv16, b: bv8): bv16 { crc ^ (b as bv16) }

  /** Xor the high nibble of the low byte into its low nibble. */
  function FoldNibble(crc: bv16): bv16 { crc ^ ((crc & 0xFF) >> 4) }

  /** Xor the low nibble into the top nibble (the x^12 tap). */
  function FoldX12(crc: bv16): bv16 { crc ^ (crc << 12) }

  /** Xor the low byte, shifted by five, back in (the x^5 tap). */
  function FoldX5(crc: bv16): bv16 { crc ^ ((crc & 0xFF) << 5) }

  /** One byte of the compact update. */
  function Step(crc: bv16, b: bv8): bv16
  {
    FoldX5(FoldX12(FoldNibble(XorByte(SwapBytes(crc), b))))
  }

  /** The register after feeding `s` into a register that held `init`:
      a left fold of `Step` over `s`. */
  function Fold(init: bv16, s: seq<bv8>): bv16
  {
    if s == [] then init else Step(Fold(init, s[..|s| - 1]), s[|s| - 1])
  }

  /** The checksum of `s`: the fold from 0. */
  function Crc(s: seq<bv8>): bv16
  {
    Fold(0, s)
  }

  /** `calculateImuCrc(data, length)`: the loop over `data[0..length)`.
      Only that prefix determines the result; the bytes from `length` on
      are never looked at. */
  method CalculateImuCrc(data: array<bv8>, length: nat) returns (crc: bv16)
    requires length <= data.Length
    ensures crc == Crc(data[..length])
  {
    crc := 0;
    var i := 0;
    while i < length
      invariant 0 <= i <= length
      invariant crc == Crc(data[..i])
    {
      assert data[..i + 1][..i] == data[..i];
      crc := SwapBytes(crc);
      crc := XorByte(crc, data[i]);
      crc := FoldNibble(crc);
      crc := FoldX12(crc);
      crc := FoldX5(crc);
      i := i + 1;
    }
  }

  // ---------------------------------------------------------------------
  // The step is reversible

  /** Inverse of `FoldX5`: the low five bits are unchanged, which gives
      back bits 5..7, which give back bits 8..12. */
  function UnfoldX5(crc: bv16): bv16
  {
    crc ^ (((crc ^ ((crc & 0x07) << 5)) & 0xFF) << 5)
  }

  /** Undo one `Step` with the byte that was fed. */
  function Unstep(crc: bv16, b: bv8): bv16
  {
    SwapBytes(XorByte(FoldNibble(FoldX12(UnfoldX5(crc))), b))
  }

  lemma SwapBytesInvolution(x: bv16) ensures SwapBytes(SwapBytes(x)) == x {}
  lemma FoldNibbleInvolution(x: bv16) ensures FoldNibble(FoldNibble(x)) == x {}
  lemma FoldX12Involution(x: bv16) ensures FoldX12(FoldX12(x)) == x {}
  lemma UnfoldX5FoldX5(x: bv16) ensures UnfoldX5(FoldX5(x)) == x {}
  lemma XorByteInvolution(x: bv16, b: bv8) ensures XorByte(XorByte(x, b), b) == x {}

  /** `Unstep` recovers the register value before the step. */
  lemma UnstepStep(crc: bv16, b: bv8)
    ensures Unstep(Step(crc, b), b) == crc
  {
    var mixed := XorByte(SwapBytes(crc), b);
    UnfoldX5FoldX5(FoldX12(FoldNibble(mixed)));
    FoldX12Involution(FoldNibble(mixed));
    FoldNibbleInvolution(mixed);
    XorByteInvolution(SwapBytes(crc), b);
    SwapBytesInvolution(crc);
  }

  /** For a fixed byte, distinct registers step to distinct registers. */
  lemma StepInjectiveInRegister(c1: bv16, c2: bv16, b: bv8)
    requires c1 != c2
    ensures Step(c1, b) != Step(c2, b)
  {
    UnstepStep(c1, b);
    UnstepStep(c2, b);
  }

  /** For a fixed register, distinct bytes step to distinct registers. */
  lemma StepInjectiveInByte(crc: bv16, b1: bv8, b2: bv8)
    requires b1 != b2
    ensures Step(crc, b1) != Step(crc, b2)
  {
    var m1, m2 := XorByte(SwapBytes(crc), b1), XorByte(SwapBytes(crc), b2);
    UnfoldX5FoldX5(FoldX12(FoldNibble(m1)));
    FoldX12Involution(FoldNibble(m1));
    FoldNibbleInvolution(m1);
    UnfoldX5FoldX5(FoldX12(FoldNibble(m2)));
    FoldX12Involution(FoldNibble(m2));
    FoldNibbleInvolution(m2);
    XorByteInvolution(SwapBytes(crc), b1);
    assert m1 != m2;
  }

  // ---------------------------------------------------------------------
  // Error detection

  /** Feeding `p + q` is feeding `p`, then `q`. */
  lemma {:induction false} FoldAppend(init: bv16, p: seq<bv8>, q: seq<bv8>)
    ensures Fold(init, p + q) == Fold(Fold(init, p), q)
  {
    if q == [] {
      assert p + q == p;
    } else {
      var pq := p + q;
      assert pq[..|pq| - 1] == p + q[..|q| - 1];
      assert pq[|pq| - 1] == q[|q| - 1];
      FoldAppend(init, p, q[..|q| - 1]);
    }
  }

  /** Two different registers stay different whatever bytes follow. */
  lemma {:induction false} FoldInjective(c1: bv16, c2: bv16, q: seq<bv8>)
    requires c1 != c2
    ensures Fold(c1, q) != Fold(c2, q)
  {
    if q != [] {
      FoldInjective(c1, c2, q[..|q| - 1]);
      StepInjectiveInRegister(Fold(c1, q[..|q| - 1]), Fold(c2, q[..|q| - 1]), q[|q| - 1]);
    }
  }

  /** Every error confined to one byte changes the checksum; in particular
      every single-bit error is detected. */
  lemma DetectsSingleByteError(s: seq<bv8>, i: nat, v: bv8)
    requires i < |s| && v != s[i]
    ensures Crc(s[i := v]) != Crc(s)
  {
    var p, q := s[..i], s[i + 1..];
    assert s == (p + [s[i]]) + q;
    assert s[i := v] == (p + [v]) + q;
    FoldAppend(0, p + [s[i]], q);
    FoldAppend(0, p + [v], q);
    assert (p + [s[i]])[..i] == p && (p + [v])[..i] == p;
    StepInjectiveInByte(Fold(0, p), s[i], v);
    FoldInjective(Fold(0, p + [s[i]]), Fold(0, p + [v]), q);
  }

  /** Zero bytes fed into a zero register leave it zero: the all-zero
      message has checksum 0, like every CRC with initial value 0. */
  lemma {:induction false} CrcOfZeros(n: nat)
    ensures Crc(seq(n, _ => 0)) == 0
  {
    if n > 0 {
      var z := seq(n, _ => 0 as bv8);
      assert z[..n - 1] == seq(n - 1, _ => 0 as bv8);
      CrcOfZeros(n - 1);
    }
  }

  /** The register after each byte of the ASCII string "123456789". */
  lemma CheckSteps()
    ensures Step(0, 0x31) == 0x2672 && Step(0x2672, 0x32) == 0x20B5 && Step(0x20B5, 0x33) == 0x9752
    ensures Step(0x9752, 0x34) == 0xD789 && Step(0xD789, 0x35) == 0x546C && Step(0x546C, 0x36) == 0x20E4
    ensures Step(0x20E4, 0x37) == 0x86D6 && Step(0x86D6, 0x38) == 0x9015 && Step(0x9015, 0x39) == 0x31C3
  {}

  /** The catalogued check value of CRC-16/XMODEM: the checksum of the
      ASCII string "123456789" is 0x31C3. */
  lemma CheckValue()
    ensures Crc([0x31, 0x32, 0x33, 0x34, 0x35, 0x36, 0x37, 0x38, 0x39]) == 0x31C3
  {
    var s: seq<bv8> := [0x31, 0x32, 0x33, 0x34, 0x35, 0x36, 0x37, 0x38, 0x39];
    CheckSteps();
    assert Fold(0, s[..1]) == 0x2672;
    assert s[..2][..1] == s[..1];
    assert Fold(0, s[..2]) == 0x20B5;
    assert s[..3][..2] == s[..2];
    assert Fold(0, s[..3]) == 0x9752;
    assert s[..4][..3] == s[..3];
    assert Fold(0, s[..4]) == 0xD789;
    assert s[..5][..4] == s[..4];
    assert Fold(0, s[..5]) == 0x546C;
    assert s[..6][..5] == s[..5];
    assert Fold(0, s[..6]) == 0x20E4;
    assert s[..7][..6] == s[..6];
    assert Fold(0, s[..7]) == 0x86D6;
    assert s[..8][..7] == s[..7];
    assert Fold(0, s[..8]) == 0x9015;
    assert s[..8] == s[..|s| - 1];
  }
}
