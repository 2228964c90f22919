/** interfaces_interface_ipv4_address_netmask2prefix
    (src/interfaces/src/plugin/data/interfaces/interface/ipv4/address.c). */
module Netmasks {
  import opened Wrappers

  type Byte = n: nat | n < 256

  /** The text of a netmask leaf as inet_pton sees it; `b0` is the first number. */
  datatype Netmask = DottedQuad(b0: Byte, b1: Byte, b2: Byte, b3: Byte) | NotDottedQuad

  /** How the machine reads the four bytes of `in_addr` as one 32-bit number. */
  datatype ByteOrder = LittleEndian | BigEndian

  function Number(b0: nat, b1: nat, b2: nat, b3: nat): nat {
    b0 + 256 * (b1 + 256 * (b2 + 256 * b3))
  }

  function HostNumber(mask: Netmask, order: ByteOrder): nat
    requires mask.DottedQuad?
  {
    if order.LittleEndian? then Number(mask.b0, mask.b1, mask.b2, mask.b3)
    else Number(mask.b3, mask.b2, mask.b1, mask.b0)
  }

  /** Number of one bits. */
  function BitCount(n: nat): nat {
    if n == 0 then 0 else n % 2 + BitCount(n / 2)
  }

  function Power2(e: nat): (p: nat)
    ensures p > 0
  {
    if e == 0 then 1 else 2 * Power2(e - 1)
  }

  /** The one bits of the four bytes, whatever order the machine stores them in. */
  function MaskBits(mask: Netmask): nat
    requires mask.DottedQuad?
  {
    BitCount(mask.b0) + BitCount(mask.b1) + BitCount(mask.b2) + BitCount(mask.b3)
  }

  function PrefixOfMask(mask: Netmask): Option<nat> {
    if mask.DottedQuad? then Some(MaskBits(mask)) else None
  }

  lemma HalveSum(low: nat, n: nat)
    ensures (low + 2 * n) % 2 == low % 2 && (low + 2 * n) / 2 == low / 2 + n
  {
  }

  function Shifted(n: nat, e: nat): nat {
    if e == 0 then n else 2 * Shifted(n, e - 1)
  }

  lemma {:induction false} ShiftedIsProduct(n: nat, e: nat)
    ensures Shifted(n, e) == Power2(e) * n
  {
    if e > 0 {
      ShiftedIsProduct(n, e - 1);
      Associate(2, Power2(e - 1), n);
    }
  }

  lemma Associate(a: nat, b: nat, c: nat)
    ensures a * (b * c) == (a * b) * c
  {
  }

  lemma {:induction false} ShiftedCount(low: nat, high: nat, e: nat)
    requires low < Power2(e)
    ensures BitCount(low + Shifted(high, e)) == BitCount(low) + BitCount(high)
    decreases e
  {
    if e > 0 {
      HalveSum(low, Shifted(high, e - 1));
      ShiftedCount(low / 2, high, e - 1);
    }
  }

  lemma BitCountSplit(low: nat, high: nat, e: nat)
    requires low < Power2(e)
    ensures BitCount(low + Power2(e) * high) == BitCount(low) + BitCount(high)
  {
    ShiftedIsProduct(high, e);
    ShiftedCount(low, high, e);
  }

  lemma ByteSplit(low: Byte, high: nat)
    ensures BitCount(low + 256 * high) == BitCount(low) + BitCount(high)
  {
    assert Power2(8) == 256 by { PowersOfTwo(); }
    hide BitCount, Power2;
    BitCountSplit(low, high, 8);
  }

  lemma NumberBits(b0: Byte, b1: Byte, b2: Byte, b3: Byte)
    ensures BitCount(Number(b0, b1, b2, b3)) == BitCount(b0) + BitCount(b1) + BitCount(b2) + BitCount(b3)
  {
    hide BitCount;
    ByteSplit(b0, b1 + 256 * (b2 + 256 * b3));
    ByteSplit(b1, b2 + 256 * b3);
    ByteSplit(b2, b3);
  }

  lemma PowersOfTwo()
    ensures Power2(8) == 256 && Power2(32) == 0x1_0000_0000
  {
    assert Power2(4) == 16;
    assert Power2(8) == 256;
    assert Power2(12) == 4096;
    assert Power2(16) == 65536;
    assert Power2(20) == 1048576;
    assert Power2(24) == 16777216;
    assert Power2(28) == 268435456;
  }

  /** The count is the same on machines of either byte order. */
  lemma ByteOrderIrrelevant(mask: Netmask, order: ByteOrder)
    requires mask.DottedQuad?
    ensures BitCount(HostNumber(mask, order)) == MaskBits(mask)
  {
    if order.LittleEndian? {
      NumberBits(mask.b0, mask.b1, mask.b2, mask.b3);
    } else {
      NumberBits(mask.b3, mask.b2, mask.b1, mask.b0);
    }
  }

  /** The shift-and-count loop; it runs at most 32 times. Returns 0, or -1 when the text
      is not an address. */
  method NetmaskToPrefix(mask: Netmask, order: ByteOrder) returns (error: int, prefixLength: nat)
    ensures error == if PrefixOfMask(mask).Some? then 0 else -1
    ensures error == 0 ==> prefixLength == PrefixOfMask(mask).value && prefixLength <= 32
  {
    error, prefixLength := 0, 0;
    if mask.NotDottedQuad? {
      return -1, 0;
    }
    var sAddr: nat := HostNumber(mask, order);
    var prefix := 0;
    ghost var rounds := 0;
    ByteOrderIrrelevant(mask, order);
    NumberBound(mask.b0, mask.b1, mask.b2, mask.b3);
    NumberBound(mask.b3, mask.b2, mask.b1, mask.b0);
    hide Number, HostNumber, MaskBits;
    while sAddr != 0
      invariant prefix + BitCount(sAddr) == MaskBits(mask)
      invariant rounds <= 32 && sAddr < Power2(32 - rounds) && prefix <= rounds
      decreases 32 - rounds
    {
      assert rounds < 32 by { assert Power2(0) == 1; }
      assert Power2(32 - rounds) == 2 * Power2(31 - rounds);
      if sAddr % 2 == 1 {
        prefix := prefix + 1;
      }
      sAddr := sAddr / 2;
      rounds := rounds + 1;
    }
    prefixLength := prefix;
  }

  // ---- contiguous masks (section 4 of RFC 6991: the prefix length of a mask) ----

  /** The mask as a number, first byte most significant. */
  function Value(mask: Netmask): nat
    requires mask.DottedQuad?
  {
    HostNumber(mask, BigEndian)
  }

  /** Among the low `width` bits no one bit stands below a zero bit. */
  predicate Contiguous(value: nat, width: nat) {
    width == 0 || (if value % 2 == 1 then value == Power2(width) - 1 else Contiguous(value / 2, width - 1))
  }

  predicate ContiguousMask(mask: Netmask) {
    mask.DottedQuad? && Contiguous(Value(mask), 32)
  }

  /** The mask whose first `length` bits are one. */
  function MaskOf(length: nat): (mask: Netmask)
    requires length <= 32
    ensures mask.DottedQuad?
  {
    DottedQuad(LeadingOnes(length, 0), LeadingOnes(length, 8), LeadingOnes(length, 16), LeadingOnes(length, 24))
  }

  /** The byte of that mask that covers bits `start` to `start + 7`. */
  function LeadingOnes(length: nat, start: nat): Byte {
    if length <= start then 0
    else if length >= start + 8 then 255
    else
      PowersOfTwo();
      PowerMonotone(start + 8 - length, 8);
      256 - Power2(start + 8 - length)
  }

  lemma {:induction false} PowerMonotone(a: nat, b: nat)
    requires a <= b
    ensures Power2(a) <= Power2(b)
  {
    if a < b {
      PowerMonotone(a, b - 1);
    }
  }

  lemma {:induction false} PowerSplit(a: nat, b: nat)
    ensures Power2(a + b) == Power2(a) * Power2(b)
  {
    if a > 0 {
      PowerSplit(a - 1, b);
    }
  }

  lemma {:induction false} OnesCount(e: nat)
    ensures BitCount(Power2(e) - 1) == e
  {
    if e > 0 {
      OnesCount(e - 1);
      assert (Power2(e) - 1) % 2 == 1 && (Power2(e) - 1) / 2 == Power2(e - 1) - 1;
    }
  }

  lemma {:induction false} ZeroTail(e: nat, n: nat)
    ensures BitCount(Power2(e) * n) == BitCount(n)
  {
    BitCountSplit(0, n, e);
  }

  lemma ShiftedOnesCount(zeros: nat, ones: nat, n: nat)
    requires n == Power2(zeros) * (Power2(ones) - 1)
    ensures BitCount(n) == ones
  {
    hide Power2, BitCount;
    ZeroTail(zeros, Power2(ones) - 1);
    OnesCount(ones);
  }

  lemma LeadingOnesCount(length: nat, start: nat)
    ensures BitCount(LeadingOnes(length, start)) ==
            if length <= start then 0 else if length >= start + 8 then 8 else length - start
  {
    assert Power2(8) == 256 by { PowersOfTwo(); }
    assert BitCount(0) == 0;
    hide Power2, BitCount;
    OnesCount(8);
    if start < length < start + 8 {
      var zeros, ones := start + 8 - length, length - start;
      PowerSplit(zeros, ones);
      assert 256 - Power2(zeros) == Power2(zeros) * (Power2(ones) - 1);
      ShiftedOnesCount(zeros, ones, 256 - Power2(zeros));
    }
  }

  /** The conversion inverts the mask with `length` leading ones, for every length. */
  lemma MaskRoundTrip(length: nat)
    requires length <= 32
    ensures PrefixOfMask(MaskOf(length)) == Some(length)
  {
    LeadingOnesCount(length, 0);
    LeadingOnesCount(length, 8);
    LeadingOnesCount(length, 16);
    LeadingOnesCount(length, 24);
  }

  /** A contiguous number is determined by its bit count. */
  lemma {:induction false} ContiguousValue(value: nat, width: nat)
    requires value < Power2(width) && Contiguous(value, width)
    ensures BitCount(value) <= width
    ensures value == Power2(width) - Power2(width - BitCount(value))
  {
    if width == 0 {
    } else if value % 2 == 1 {
      OnesCount(width);
    } else {
      ContiguousValue(value / 2, width - 1);
      if value != 0 {
        assert BitCount(value) == BitCount(value / 2);
      }
    }
  }

  lemma {:induction false} ContiguousFromValue(length: nat, width: nat)
    requires length <= width
    ensures Power2(width - length) <= Power2(width)
    ensures Contiguous(Power2(width) - Power2(width - length), width)
  {
    PowerMonotone(width - length, width);
    if width > 0 {
      if length < width {
        var half := Power2(width - 1) - Power2(width - 1 - length);
        assert Power2(width) == 2 * Power2(width - 1) && Power2(width - length) == 2 * Power2(width - 1 - length);
        hide Power2;
        ContiguousFromValue(length, width - 1);
        HalveSum(0, half);
      } else {
        assert (Power2(width) - 1) % 2 == 1;
      }
    }
  }

  lemma NumberBound(b0: Byte, b1: Byte, b2: Byte, b3: Byte)
    ensures Number(b0, b1, b2, b3) < Power2(32)
  {
    PowersOfTwo();
  }

  lemma NumberInjective(a0: Byte, a1: Byte, a2: Byte, a3: Byte, b0: Byte, b1: Byte, b2: Byte, b3: Byte)
    requires Number(a0, a1, a2, a3) == Number(b0, b1, b2, b3)
    ensures a0 == b0 && a1 == b1 && a2 == b2 && a3 == b3
  {
    DivideOut(a0, a1 + 256 * (a2 + 256 * a3), b0, b1 + 256 * (b2 + 256 * b3));
    DivideOut(a1, a2 + 256 * a3, b1, b2 + 256 * b3);
    DivideOut(a2, a3, b2, b3);
  }

  lemma DivideOut(a: Byte, m: nat, b: Byte, n: nat)
    requires a + 256 * m == b + 256 * n
    ensures a == b && m == n
  {
  }

  /** On contiguous masks the conversion is injective. */
  lemma ContiguousInjective(a: Netmask, b: Netmask)
    requires ContiguousMask(a) && ContiguousMask(b) && PrefixOfMask(a) == PrefixOfMask(b)
    ensures a == b
  {
    hide Number, BitCount, Power2, Contiguous;
    ByteOrderIrrelevant(a, BigEndian);
    ByteOrderIrrelevant(b, BigEndian);
    NumberBound(a.b3, a.b2, a.b1, a.b0);
    NumberBound(b.b3, b.b2, b.b1, b.b0);
    ContiguousValue(Value(a), 32);
    ContiguousValue(Value(b), 32);
    NumberInjective(a.b3, a.b2, a.b1, a.b0, b.b3, b.b2, b.b1, b.b0);
  }

  lemma SomePowers()
    ensures Power2(0) == 1 && Power2(8) == 256 && Power2(16) == 65536 && Power2(24) == 16777216
    ensures Power2(32) == 0x1_0000_0000
  {
    PowersOfTwo();
    PowerSplit(8, 8);
    PowerSplit(16, 8);
  }

  lemma MaskOfValue(length: nat)
    requires length <= 32
    ensures Power2(32 - length) <= Power2(32)
    ensures Value(MaskOf(length)) == Power2(32) - Power2(32 - length)
  {
    hide Power2;
    SomePowers();
    PowerMonotone(32 - length, 32);
    if length < 8 {
      PowerSplit(24, 8 - length);
    } else if length < 16 {
      PowerSplit(16, 16 - length);
    } else if length < 24 {
      PowerSplit(8, 24 - length);
    }
  }

  /** Converting to a length and back gives the mask again exactly for contiguous masks. */
  lemma RoundTripIffContiguous(mask: Netmask)
    requires mask.DottedQuad?
    ensures MaskBits(mask) <= 32
    ensures MaskOf(MaskBits(mask)) == mask <==> ContiguousMask(mask)
  {
    hide Number, BitCount, Power2, LeadingOnes, MaskBits, Contiguous;
    ByteOrderIrrelevant(mask, BigEndian);
    NumberBound(mask.b3, mask.b2, mask.b1, mask.b0);
    BitCountBound(Value(mask), 32);
    var back := MaskOf(MaskBits(mask));
    MaskOfValue(MaskBits(mask));
    ContiguousFromValue(MaskBits(mask), 32);
    MaskRoundTrip(MaskBits(mask));
    if ContiguousMask(mask) {
      ContiguousInjective(back, mask);
    }
  }

  lemma {:induction false} BitCountBound(n: nat, width: nat)
    requires n < Power2(width)
    ensures BitCount(n) <= width
  {
    if n != 0 {
      assert width > 0;
      BitCountBound(n / 2, width - 1);
    }
  }

  // ---- the count as the size of a set ----

  /** Bit `i` of a number, bit 0 being the least significant. */
  predicate IsOne(n: nat, i: nat) {
    if i == 0 then n % 2 == 1 else IsOne(n / 2, i - 1)
  }

  function OneBits(n: nat, width: nat): set<nat> {
    set i | 0 <= i < width && IsOne(n, i)
  }

  /** The same bits, one place higher. */
  function Higher(s: set<nat>): (r: set<nat>)
    ensures forall j: nat :: j in r <==> j > 0 && j - 1 in s
  {
    var r := set i | i in s :: i + 1;
    assert forall i | i in s :: i + 1 in r;
    r
  }

  lemma {:induction false} HigherSize(s: set<nat>)
    ensures |Higher(s)| == |s|
  {
    if s == {} {
      assert Higher(s) == {};
    } else {
      var x :| x in s;
      HigherSize(s - {x});
      assert Higher(s) == Higher(s - {x}) + {x + 1};
    }
  }

  lemma {:induction false} BitCountIsSize(n: nat, width: nat)
    requires n < Power2(width)
    ensures BitCount(n) == |OneBits(n, width)|
  {
    if width == 0 {
      assert OneBits(n, width) == {};
    } else {
      BitCountIsSize(n / 2, width - 1);
      hide Power2, Higher;
      OneBitsNext(n, width);
      HigherSize(OneBits(n / 2, width - 1));
    }
  }

  lemma OneBitsNext(n: nat, width: nat)
    requires width > 0
    ensures OneBits(n, width) == Higher(OneBits(n / 2, width - 1)) + if n % 2 == 1 then {0} else {}
  {
  }

  /** The prefix length of any mask, contiguous or not, is how many of its 32 bits are one. */
  lemma LengthIsOneBits(mask: Netmask)
    requires mask.DottedQuad?
    ensures PrefixOfMask(mask) ==
            Some(|OneBits(mask.b3 + 256 * mask.b2 + 65536 * mask.b1 + 16777216 * mask.b0, 32)|)
  {
    hide BitCount, MaskBits, OneBits;
    ByteOrderIrrelevant(mask, BigEndian);
    NumberBound(mask.b3, mask.b2, mask.b1, mask.b0);
    BitCountIsSize(Value(mask), 32);
  }
}
