/** The bits of the Device Control register that hold the two transfer sizes. */
module DeviceControl {
  import opened Results
  import opened Bytes

  /** A register as its two bytes, the low one first in memory. */
  function Join(lo: byte, hi: byte): bv16 {
    lo as bv16 | (hi as bv16 << 8)
  }

  function Low(v: bv16): byte {
    (v & 0xff) as byte
  }

  function High(v: bv16): byte {
    (v >> 8) as byte
  }

  lemma JoinedBytes(lo: byte, hi: byte)
    ensures Low(Join(lo, hi)) == lo && High(Join(lo, hi)) == hi
  {
  }

  lemma SplitValue(v: bv16)
    ensures Join(Low(v), High(v)) == v
  {
  }

  /** 128 bytes shifted left by a three-bit code. */
  function Size(code: bv16): nat {
    if code == 0 then 128
    else if code == 1 then 256
    else if code == 2 then 512
    else if code == 3 then 1024
    else if code == 4 then 2048
    else if code == 5 then 4096
    else if code == 6 then 8192
    else 16384
  }

  function PayloadSize(control: bv16): nat {
    Size((control >> 5) & 7)
  }

  function ReadRequestSize(control: bv16): nat {
    Size((control >> 12) & 7)
  }

  function Power2(n: nat): nat {
    if n == 0 then 1 else 2 * Power2(n - 1)
  }

  function Value(b: byte): (r: nat)
    ensures r < 256
  {
    b as int
  }

  /** The register as a number, the byte that comes first in memory being the low one. */
  function Little(lo: byte, hi: byte): nat {
    Value(lo) + 256 * Value(hi)
  }

  /** The fields: bits 7 to 5 and bits 14 to 12 of the number are the powers by which 128 is multiplied. */
  lemma SizesMean(lo: byte, hi: byte)
    ensures PayloadSize(Join(lo, hi)) == 128 * Power2(Little(lo, hi) / 32 % 8)
    ensures ReadRequestSize(Join(lo, hi)) == 128 * Power2(Little(lo, hi) / 4096 % 8)
  {
    hide PayloadSize, ReadRequestSize, Power2, Join, Value;
    PayloadMeans(lo, hi);
    ReadRequestMeans(lo, hi);
    FieldsOf(Join(lo, hi), Value(lo), Value(hi));
  }

  lemma FieldsOf(control: bv16, lo: nat, hi: nat)
    requires lo < 256 && hi < 256
    requires PayloadSize(control) == 128 * Power2(lo / 32)
    requires ReadRequestSize(control) == 128 * Power2(hi / 16 % 8)
    ensures PayloadSize(control) == 128 * Power2((lo + 256 * hi) / 32 % 8)
    ensures ReadRequestSize(control) == 128 * Power2((lo + 256 * hi) / 4096 % 8)
  {
    hide PayloadSize, ReadRequestSize, Power2;
    FieldsApart(lo, hi);
  }

  lemma PayloadMeans(lo: byte, hi: byte)
    ensures PayloadSize(Join(lo, hi)) == 128 * Power2(Value(lo) / 32)
  {
    hide Size, Power2, Join;
    PayloadField(lo, hi);
    PayloadCode(lo);
    SizePower((lo >> 5) as bv16, lo as int / 32);
  }

  lemma ReadRequestMeans(lo: byte, hi: byte)
    ensures ReadRequestSize(Join(lo, hi)) == 128 * Power2(Value(hi) / 16 % 8)
  {
    hide Size, Power2, Join;
    ReadRequestField(lo, hi);
    ReadRequestCode(hi);
    SizePower(((hi >> 4) & 7) as bv16, hi as int / 16 % 8);
  }

  lemma PayloadField(lo: byte, hi: byte)
    ensures (Join(lo, hi) >> 5) & 7 == (lo >> 5) as bv16
  {
  }

  lemma ReadRequestField(lo: byte, hi: byte)
    ensures (Join(lo, hi) >> 12) & 7 == ((hi >> 4) & 7) as bv16
  {
  }

  lemma PayloadCode(lo: byte)
    ensures (lo >> 5) as bv16 as int == lo as int / 32
  {
    assert (lo >> 5) as int == lo as int / 32;
  }

  lemma ReadRequestCode(hi: byte)
    ensures ((hi >> 4) & 7) as bv16 as int == hi as int / 16 % 8
  {
    assert ((hi >> 4) & 7) as int == hi as int / 16 % 8;
  }

  lemma SizePower(code: bv16, n: nat)
    requires code as int == n <= 7
    ensures Size(code) == 128 * Power2(n)
  {
    assert Power2(1) == 2 && Power2(2) == 4 && Power2(3) == 8 && Power2(4) == 16;
    assert Power2(5) == 32 && Power2(6) == 64 && Power2(7) == 128;
  }

  lemma FieldsApart(lo: nat, hi: nat)
    requires lo < 256 && hi < 256
    ensures (lo + 256 * hi) / 32 % 8 == lo / 32
    ensures (lo + 256 * hi) / 4096 % 8 == hi / 16 % 8
  {
    RemainderUnique(lo + 256 * hi, lo / 32 + 8 * hi, lo % 32, 32);
    RemainderUnique(lo / 32 + 8 * hi, hi, lo / 32, 8);
    RemainderUnique(lo + 256 * hi, hi / 16, lo + 256 * (hi % 16), 4096);
  }

  function Encoding(requested: nat): Option<bv16> {
    if requested == 128 then Some(0)
    else if requested == 256 then Some(1)
    else if requested == 512 then Some(2)
    else if requested == 1024 then Some(3)
    else if requested == 2048 then Some(4)
    else if requested == 4096 then Some(5)
    else None
  }

  function WithMrrs(control: bv16, encoded: bv16): bv16 {
    (control & !0x7000) | (encoded << 12)
  }

  /** Only the read request size changes, and it becomes the requested one. */
  lemma MrrsChanges(control: bv16, requested: nat)
    requires Encoding(requested).Some?
    ensures var updated := WithMrrs(control, Encoding(requested).value);
      && ReadRequestSize(updated) == requested
      && PayloadSize(updated) == PayloadSize(control)
      && updated & !0x7000 == control & !0x7000
      && (updated == control <==> ReadRequestSize(control) == requested)
  {
    var encoded := Encoding(requested).value;
    SizeInverts(requested);
    ReadRequestBits(control, encoded);
    OtherBits(control, encoded);
    SizeIsInjective((control >> 12) & 7, encoded);
  }

  lemma SizeInverts(requested: nat)
    requires Encoding(requested).Some?
    ensures Encoding(requested).value <= 5 && Size(Encoding(requested).value) == requested
  {
  }

  lemma SizeIsInjective(a: bv16, b: bv16)
    requires a <= 7 && b <= 7
    ensures Size(a) == Size(b) <==> a == b
  {
  }

  lemma ReadRequestBits(control: bv16, encoded: bv16)
    requires encoded <= 5
    ensures (WithMrrs(control, encoded) >> 12) & 7 == encoded
    ensures WithMrrs(control, encoded) == control <==> (control >> 12) & 7 == encoded
  {
  }

  lemma OtherBits(control: bv16, encoded: bv16)
    requires encoded <= 5
    ensures (WithMrrs(control, encoded) >> 5) & 7 == (control >> 5) & 7
    ensures WithMrrs(control, encoded) & !0x7000 == control & !0x7000
    ensures Low(WithMrrs(control, encoded)) == Low(control)
  {
  }

  /** As a link, the high byte keeps its target only when the size does not change. */
  lemma LinkBits(control: bv16, encoded: bv16)
    requires encoded <= 5
    ensures WithMrrs(control, encoded) & 0xfc00 == control & 0xfc00 ==> WithMrrs(control, encoded) == control
  {
  }
}
