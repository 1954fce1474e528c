/** The DNS message encoder: the 16-bit flags word and the 12-byte header of
    section 4.1.1 of RFC 1035 (with the Z bits split into Z, AD and CD as in
    RFC 4035), an unfinished question section, and a whole message. Every
    `to_bytes` builds a `bytearray` by successive appends. */
module Dns {

  /** A value `bytearray.append` accepts. */
  type Byte = x: int | 0 <= x < 256

  /** A power of two: the place value of one bit. */
  predicate IsPow2(p: nat)
    decreases p
  {
    p == 1 || (p > 1 && p % 2 == 0 && IsPow2(p / 2))
  }

  /** Python's `x >> k & 0x1`, with `p` = 2^k: the bit of `x` worth `p`.
      Python's `>>` rounds down, as Dafny's `/` does for a positive divisor,
      and `& 0x1` of a negative number is its two's complement low bit, which
      Dafny's `% 2` also gives. */
  function Bit(x: int, p: nat): (b: nat)
    requires IsPow2(p)
    ensures b <= 1
  {
    (x / p) % 2
  }

  /** Python's `a | b` on non-negative integers, bit by bit from the lowest.
      (`x << k` on a non-negative integer is `x * 2^k`, written out below.) */
  function BitOr(a: nat, b: nat): nat
    decreases a + b
  {
    if a == 0 then b
    else if b == 0 then a
    else BitOr(a / 2, b / 2) * 2 + (if a % 2 == 1 || b % 2 == 1 then 1 else 0)
  }

  /** Or-ing a single bit into a number whose bits all lie above it adds it. */
  lemma {:induction false} BitOrBelow(acc: nat, m: nat, b: nat, p: nat)
    requires b <= 1 && IsPow2(p) && acc == m * (2 * p)
    ensures BitOr(acc, b * p) == acc + b * p
    decreases p
  {
    if m == 0 || b == 0 {
    } else if p == 1 {
      assert acc == 2 * m;
      assert BitOr(acc, 1) == BitOr(m, 0) * 2 + 1;
    } else {
      var h := p / 2;
      var acc', lo' := m * (2 * h), b * h;
      assert p == 2 * h;
      assert acc == 2 * acc' by { assert m * (2 * p) == 2 * (m * (2 * h)); }
      assert b * p == 2 * lo';
      BitOrBelow(acc', m, b, h);
      assert BitOr(acc, b * p) == BitOr(acc', lo') * 2;
    }
  }

  lemma {:induction false} MulAtLeast(d: nat, k: nat)
    requires k >= 1
    ensures d * k >= d
  {
    if k > 1 {
      MulAtLeast(d, k - 1);
      assert d * k == d * (k - 1) + d;
    }
  }

  /** A non-zero multiple of `d` is at least `d` away from zero. */
  lemma MulSign(d: int, k: int)
    requires d >= 0
    ensures k >= 1 ==> d * k >= d
    ensures k <= -1 ==> d * k <= -d
  {
    if k >= 1 {
      MulAtLeast(d, k);
    } else if k <= -1 {
      MulAtLeast(d, -k);
      assert d * k == -(d * -k);
    }
  }

  /** Euclidean division is unique: a quotient and remainder in range are
      the ones `/` and `%` give. */
  lemma DivModUnique(x: int, d: int, q: int, r: int)
    requires 0 < d && x == d * q + r && 0 <= r < d
    ensures x / d == q && x % d == r
  {
    var t, u := x / d, x % d;
    assert x == d * t + u;
    MulSign(d, q - t);
    assert d * (q - t) == u - r;
  }

  /** A nibble is the sum of its four bits. */
  lemma SmallNibbleBits(r: int)
    requires 0 <= r < 16
    ensures r == 8 * (r / 8) + 4 * ((r / 4) % 2) + 2 * ((r / 2) % 2) + r % 2
  {
  }

  /** Bits 3..1 of an integer are the bits of its low nibble. */
  lemma Bit3OfNibble(x: int)
    ensures (x / 8) % 2 == (x % 16) / 8
  {
    assert x / 8 == 2 * (x / 16) + (x % 16) / 8;
  }

  lemma Bit2OfNibble(x: int)
    ensures (x / 4) % 2 == ((x % 16) / 4) % 2
  {
    var s := (x % 16) / 4;
    assert x / 4 == 4 * (x / 16) + s;
    assert x / 4 == 2 * (2 * (x / 16) + s / 2) + s % 2;
  }

  lemma Bit1OfNibble(x: int)
    ensures (x / 2) % 2 == ((x % 16) / 2) % 2
  {
    var s := (x % 16) / 2;
    assert x / 2 == 8 * (x / 16) + s;
    assert x / 2 == 2 * (4 * (x / 16) + s / 2) + s % 2;
  }

  lemma Bit0OfNibble(x: int)
    ensures x % 2 == (x % 16) % 2
  {
    var s := x % 16;
    assert x == 2 * (8 * (x / 16) + s / 2) + s % 2;
  }

  /** The low nibble of any integer is the sum of its four low bits. */
  lemma NibbleBits(x: int)
    ensures x % 16 == 8 * ((x / 8) % 2) + 4 * ((x / 4) % 2) + 2 * ((x / 2) % 2) + x % 2
  {
    Bit3OfNibble(x);
    Bit2OfNibble(x);
    Bit1OfNibble(x);
    Bit0OfNibble(x);
    SmallNibbleBits(x % 16);
  }

  /** 0 or 1. */
  predicate IsBit(x: int) {
    0 <= x <= 1
  }

  /** The flags word of the header, field by field; `opcode` and `rcode` are
      four bits wide, the others one. */
  datatype DnsFlags = DnsFlags(qr: int, opcode: int, aa: int, tc: int, rd: int,
                               ra: int, z: int, ad: int, cd: int, rcode: int)
  {
    /** The single-bit fields hold 0 or 1, as the source documents them. */
    predicate SingleBits() {
      IsBit(qr) && IsBit(aa) && IsBit(tc) && IsBit(rd) &&
      IsBit(ra) && IsBit(z) && IsBit(ad) && IsBit(cd)
    }

    /** Every field within its width, so that decoding can give it back. */
    predicate InRange() {
      SingleBits() && 0 <= opcode < 16 && 0 <= rcode < 16
    }

    /** `DNSFlags.to_bytes`: two bytes, QR/Opcode/AA/TC/RD then
        RA/Z/AD/CD/RCODE, each 4-bit field copied one bit at a time. */
    method ToBytes() returns (r: seq<Byte>)
      requires SingleBits()
      ensures r == FlagsWord(this)
      ensures |r| == 2
    {
      var result: seq<Byte> := [];
      var high := OrBits(qr, Bit(opcode, 8), Bit(opcode, 4), Bit(opcode, 2), Bit(opcode, 1), aa, tc, rd);
      OrBitsSum(qr, Bit(opcode, 8), Bit(opcode, 4), Bit(opcode, 2), Bit(opcode, 1), aa, tc, rd);
      NibbleBits(opcode);
      assert high == qr * 128 + (opcode % 16) * 8 + aa * 4 + tc * 2 + rd;
      result := result + [high];
      var low := OrBits(ra, z, ad, cd, Bit(rcode, 8), Bit(rcode, 4), Bit(rcode, 2), Bit(rcode, 1));
      OrBitsSum(ra, z, ad, cd, Bit(rcode, 8), Bit(rcode, 4), Bit(rcode, 2), Bit(rcode, 1));
      NibbleBits(rcode);
      assert low == ra * 128 + z * 64 + ad * 32 + cd * 16 + rcode % 16;
      result := result + [low];
      FlagsWordOf(this, high, low);
      r := result;
    }
  }

  /** One flag byte as the source builds it: `b7 << 7 | b6 << 6 | ... | b0 << 0`,
      or-ed from the left. */
  function OrBits(b7: nat, b6: nat, b5: nat, b4: nat, b3: nat, b2: nat, b1: nat, b0: nat): nat {
    BitOr(BitOr(BitOr(BitOr(BitOr(BitOr(BitOr(b7 * 128, b6 * 64), b5 * 32), b4 * 16), b3 * 8), b2 * 4), b1 * 2), b0 * 1)
  }

  /** When every operand is a single bit, the or-chain is the weighted sum. */
  lemma OrBitsSum(b7: nat, b6: nat, b5: nat, b4: nat, b3: nat, b2: nat, b1: nat, b0: nat)
    requires IsBit(b7) && IsBit(b6) && IsBit(b5) && IsBit(b4)
    requires IsBit(b3) && IsBit(b2) && IsBit(b1) && IsBit(b0)
    ensures OrBits(b7, b6, b5, b4, b3, b2, b1, b0) ==
            b7 * 128 + b6 * 64 + b5 * 32 + b4 * 16 + b3 * 8 + b2 * 4 + b1 * 2 + b0
  {
    var x := b7 * 128;
    BitOrBelow(x, b7, b6, 64);
    x := BitOr(x, b6 * 64);
    BitOrBelow(x, b7 * 2 + b6, b5, 32);
    x := BitOr(x, b5 * 32);
    BitOrBelow(x, b7 * 4 + b6 * 2 + b5, b4, 16);
    x := BitOr(x, b4 * 16);
    BitOrBelow(x, b7 * 8 + b6 * 4 + b5 * 2 + b4, b3, 8);
    x := BitOr(x, b3 * 8);
    BitOrBelow(x, b7 * 16 + b6 * 8 + b5 * 4 + b4 * 2 + b3, b2, 4);
    x := BitOr(x, b2 * 4);
    BitOrBelow(x, b7 * 32 + b6 * 16 + b5 * 8 + b4 * 4 + b3 * 2 + b2, b1, 2);
    x := BitOr(x, b1 * 2);
    BitOrBelow(x, b7 * 64 + b6 * 32 + b5 * 16 + b4 * 8 + b3 * 4 + b2 * 2 + b1, b0, 1);
  }

  /** Nothing masks a one-bit field: `rd = 2` lands on the TC bit of the
      first byte, and `z = 2` on the RA bit of the second, without error. */
  lemma OversizedBitsOverlap()
    ensures OrBits(0, 0, 0, 0, 0, 0, 0, 2) == OrBits(0, 0, 0, 0, 0, 0, 1, 0) == 2
    ensures OrBits(0, 2, 0, 0, 0, 0, 0, 0) == OrBits(1, 0, 0, 0, 0, 0, 0, 0) == 128
  {
  }

  /** The two flag bytes as the header layout places the fields: only the
      low four bits of `opcode` and `rcode` reach the wire. */
  function FlagsWord(f: DnsFlags): seq<Byte>
    requires f.SingleBits()
  {
    [f.qr * 128 + (f.opcode % 16) * 8 + f.aa * 4 + f.tc * 2 + f.rd,
     f.ra * 128 + f.z * 64 + f.ad * 32 + f.cd * 16 + f.rcode % 16]
  }

  lemma FlagsWordOf(f: DnsFlags, high: int, low: int)
    requires f.SingleBits()
    requires high == f.qr * 128 + (f.opcode % 16) * 8 + f.aa * 4 + f.tc * 2 + f.rd
    requires low == f.ra * 128 + f.z * 64 + f.ad * 32 + f.cd * 16 + f.rcode % 16
    ensures FlagsWord(f) == [high, low]
  {
  }

  /** Reading the flags back from two bytes, bit by bit. */
  function DecodeFlags(high: Byte, low: Byte): (f: DnsFlags)
    ensures f.InRange()
  {
    DnsFlags(high / 128, (high / 8) % 16, (high / 4) % 2, (high / 2) % 2, high % 2,
             low / 128, (low / 64) % 2, (low / 32) % 2, (low / 16) % 2, low % 16)
  }

  /** A byte laid out as the first flag byte (one bit, a nibble, three
      bits) gives each part back. */
  lemma SplitHighByte(b7: int, n: int, b2: int, b1: int, b0: int)
    requires IsBit(b7) && 0 <= n < 16 && IsBit(b2) && IsBit(b1) && IsBit(b0)
    ensures var x := b7 * 128 + n * 8 + b2 * 4 + b1 * 2 + b0;
      x / 128 == b7 && (x / 8) % 16 == n && (x / 4) % 2 == b2 && (x / 2) % 2 == b1 && x % 2 == b0
  {
    var x := b7 * 128 + n * 8 + b2 * 4 + b1 * 2 + b0;
    DivModUnique(x, 128, b7, n * 8 + b2 * 4 + b1 * 2 + b0);
    DivModUnique(x, 8, b7 * 16 + n, b2 * 4 + b1 * 2 + b0);
    DivModUnique(b7 * 16 + n, 16, b7, n);
    DivModUnique(x, 4, b7 * 32 + n * 2 + b2, b1 * 2 + b0);
    DivModUnique(b7 * 32 + n * 2 + b2, 2, b7 * 16 + n, b2);
    DivModUnique(x, 2, b7 * 64 + n * 4 + b2 * 2 + b1, b0);
    DivModUnique(b7 * 64 + n * 4 + b2 * 2 + b1, 2, b7 * 32 + n * 2 + b2, b1);
  }

  /** A byte laid out as the second flag byte (four bits, a nibble) gives
      each part back. */
  lemma SplitLowByte(b7: int, b6: int, b5: int, b4: int, n: int)
    requires IsBit(b7) && IsBit(b6) && IsBit(b5) && IsBit(b4) && 0 <= n < 16
    ensures var x := b7 * 128 + b6 * 64 + b5 * 32 + b4 * 16 + n;
      x / 128 == b7 && (x / 64) % 2 == b6 && (x / 32) % 2 == b5 && (x / 16) % 2 == b4 && x % 16 == n
  {
    var x := b7 * 128 + b6 * 64 + b5 * 32 + b4 * 16 + n;
    DivModUnique(x, 128, b7, b6 * 64 + b5 * 32 + b4 * 16 + n);
    DivModUnique(x, 64, b7 * 2 + b6, b5 * 32 + b4 * 16 + n);
    DivModUnique(b7 * 2 + b6, 2, b7, b6);
    DivModUnique(x, 32, b7 * 4 + b6 * 2 + b5, b4 * 16 + n);
    DivModUnique(b7 * 4 + b6 * 2 + b5, 2, b7 * 2 + b6, b5);
    DivModUnique(x, 16, b7 * 8 + b6 * 4 + b5 * 2 + b4, n);
    DivModUnique(b7 * 8 + b6 * 4 + b5 * 2 + b4, 2, b7 * 4 + b6 * 2 + b5, b4);
  }

  /** Every byte is the sum of its parts in the first flag byte's layout. */
  lemma JoinHighByte(x: int)
    requires 0 <= x < 256
    ensures x == (x / 128) * 128 + ((x / 8) % 16) * 8 + ((x / 4) % 2) * 4 + ((x / 2) % 2) * 2 + x % 2
  {
    var q, r := x / 8, x % 8;
    DivModUnique(x, 128, q / 16, (q % 16) * 8 + r);
    DivModUnique(x, 4, 2 * q + r / 4, r % 4);
    DivModUnique(2 * q + r / 4, 2, q, r / 4);
    DivModUnique(x, 2, 4 * q + r / 2, r % 2);
    DivModUnique(4 * q + r / 2, 2, 2 * q + (r / 2) / 2, (r / 2) % 2);
    NibbleBits(r);
    DivModUnique(r, 16, 0, r);
    DivModUnique(r, 8, 0, r);
    DivModUnique(r / 2, 2, r / 4, (r / 2) % 2);
  }

  /** Every byte is the sum of its parts in the second flag byte's layout. */
  lemma JoinLowByte(x: int)
    requires 0 <= x < 256
    ensures x == (x / 128) * 128 + ((x / 64) % 2) * 64 + ((x / 32) % 2) * 32 + ((x / 16) % 2) * 16 + x % 16
  {
    var q, r := x / 16, x % 16;
    DivModUnique(x, 128, q / 8, (q % 8) * 16 + r);
    DivModUnique(x, 64, q / 4, (q % 4) * 16 + r);
    DivModUnique(x, 32, q / 2, (q % 2) * 16 + r);
    NibbleBits(q);
    DivModUnique(q, 16, 0, q);
    DivModUnique(q / 8, 2, 0, q / 8);
  }

  /** The first flag byte gives back QR, Opcode, AA, TC and RD. */
  lemma HighByteFields(f: DnsFlags)
    requires f.InRange()
    ensures var x := FlagsWord(f)[0];
      x / 128 == f.qr && (x / 8) % 16 == f.opcode && (x / 4) % 2 == f.aa && (x / 2) % 2 == f.tc && x % 2 == f.rd
  {
    DivModUnique(f.opcode, 16, 0, f.opcode);
    SplitHighByte(f.qr, f.opcode, f.aa, f.tc, f.rd);
    assert FlagsWord(f)[0] == f.qr * 128 + f.opcode * 8 + f.aa * 4 + f.tc * 2 + f.rd;
  }

  /** The second flag byte gives back RA, Z, AD, CD and RCODE. */
  lemma LowByteFields(f: DnsFlags)
    requires f.InRange()
    ensures var x := FlagsWord(f)[1];
      x / 128 == f.ra && (x / 64) % 2 == f.z && (x / 32) % 2 == f.ad && (x / 16) % 2 == f.cd && x % 16 == f.rcode
  {
    DivModUnique(f.rcode, 16, 0, f.rcode);
    SplitLowByte(f.ra, f.z, f.ad, f.cd, f.rcode);
    assert FlagsWord(f)[1] == f.ra * 128 + f.z * 64 + f.ad * 32 + f.cd * 16 + f.rcode;
  }

  /** Decoding the encoded flags gives every field back. */
  lemma FlagsRoundTrip(f: DnsFlags)
    requires f.InRange()
    ensures |FlagsWord(f)| == 2
    ensures DecodeFlags(FlagsWord(f)[0], FlagsWord(f)[1]) == f
  {
    HighByteFields(f);
    LowByteFields(f);
  }

  /** Every pair of bytes is the encoding of the flags it decodes to. */
  lemma FlagsFromBytes(high: Byte, low: Byte)
    ensures FlagsWord(DecodeFlags(high, low)) == [high, low]
  {
    var f := DecodeFlags(high, low);
    JoinHighByte(high);
    JoinLowByte(low);
    FlagsWordOf(f, high, low);
  }

  /** Values equal modulo 16 in `opcode` or `rcode` encode alike. */
  lemma FlagsKeepLowNibbles(f: DnsFlags, k: int, j: int)
    requires f.SingleBits()
    ensures FlagsWord(f.(opcode := f.opcode + 16 * k, rcode := f.rcode + 16 * j)) == FlagsWord(f)
  {
  }

  /** A 16-bit field written big-endian: `v` modulo 65536, high byte first. */
  function Word(v: int): seq<Byte> {
    var w := v % 65536;
    [w / 256, w % 256]
  }

  /** Python's `(v >> 8 & 0xff, v & 0xff)` is the big-endian word of `v`. */
  lemma WordBytes(v: int)
    ensures Word(v) == [(v / 256) % 256, v % 256]
  {
    var q, w := v / 65536, v % 65536;
    DivModUnique(v, 256, 256 * q + w / 256, w % 256);
    DivModUnique(256 * q + w / 256, 256, q, w / 256);
  }

  /** The big-endian reading of two bytes. */
  function WordValue(high: Byte, low: Byte): (v: int)
    ensures 0 <= v < 65536
  {
    high * 256 + low
  }

  /** Reading back the bytes of `v` gives `v` modulo 65536. */
  lemma WordRoundTrip(v: int)
    ensures WordValue(Word(v)[0], Word(v)[1]) == v % 65536
  {
    var w := v % 65536;
    DivModUnique(w, 256, w / 256, w % 256);
  }

  /** Every two bytes are the word of their big-endian reading. */
  lemma WordFromBytes(high: Byte, low: Byte)
    ensures Word(WordValue(high, low)) == [high, low]
  {
    var v := WordValue(high, low);
    DivModUnique(v, 65536, 0, v);
    DivModUnique(v, 256, high, low);
  }

  /** The header; `id` is the value `random.randint(0, 10000)` drew. */
  datatype DnsHeader = DnsHeader(id: int, flags: DnsFlags, qdcount: int, ancount: int,
                                 nscount: int, arcount: int)
  {
    predicate InRange() {
      0 <= id < 65536 && flags.InRange() &&
      0 <= qdcount < 65536 && 0 <= ancount < 65536 && 0 <= nscount < 65536 && 0 <= arcount < 65536
    }

    /** `DNSHeader.to_bytes`: the id, the two flag bytes, then the four
        section counts, each 16-bit value high byte first. */
    method ToBytes() returns (r: seq<Byte>)
      requires flags.SingleBits()
      ensures r == HeaderBytes(this)
      ensures |r| == 12
    {
      var result: seq<Byte> := [];
      WordBytes(id);
      result := result + [(id / 256) % 256];
      result := result + [id % 256];
      assert result == Word(id);
      var flagBytes := flags.ToBytes();
      for i := 0 to |flagBytes|
        invariant result == Word(id) + flagBytes[..i]
      {
        result := result + [flagBytes[i]];
      }
      assert flagBytes[..|flagBytes|] == flagBytes;
      ghost var prefix := Word(id) + flagBytes;
      WordBytes(qdcount);
      result := result + [(qdcount / 256) % 256];
      result := result + [qdcount % 256];
      assert result == prefix + Word(qdcount);
      prefix := prefix + Word(qdcount);
      WordBytes(ancount);
      result := result + [(ancount / 256) % 256];
      result := result + [ancount % 256];
      assert result == prefix + Word(ancount);
      prefix := prefix + Word(ancount);
      WordBytes(nscount);
      result := result + [(nscount / 256) % 256];
      result := result + [nscount % 256];
      assert result == prefix + Word(nscount);
      prefix := prefix + Word(nscount);
      WordBytes(arcount);
      result := result + [(arcount / 256) % 256];
      result := result + [arcount % 256];
      assert result == prefix + Word(arcount);
      r := result;
    }
  }

  /** The twelve header bytes in wire order. */
  function HeaderBytes(h: DnsHeader): seq<Byte>
    requires h.flags.SingleBits()
  {
    Word(h.id) + FlagsWord(h.flags) + Word(h.qdcount) + Word(h.ancount) +
    Word(h.nscount) + Word(h.arcount)
  }

  /** Reading a header back from its twelve bytes. */
  function DecodeHeader(b: seq<Byte>): (h: DnsHeader)
    requires |b| == 12
    ensures h.InRange()
  {
    DnsHeader(WordValue(b[0], b[1]), DecodeFlags(b[2], b[3]), WordValue(b[4], b[5]),
              WordValue(b[6], b[7]), WordValue(b[8], b[9]), WordValue(b[10], b[11]))
  }

  /** Where each of six two-byte fields lands in their concatenation. */
  lemma SixPairs(a: seq<Byte>, b: seq<Byte>, c: seq<Byte>, d: seq<Byte>, e: seq<Byte>, g: seq<Byte>)
    requires |a| == 2 && |b| == 2 && |c| == 2 && |d| == 2 && |e| == 2 && |g| == 2
    ensures var s := a + b + c + d + e + g;
      |s| == 12 && s[0] == a[0] && s[1] == a[1] && s[2] == b[0] && s[3] == b[1] &&
      s[4] == c[0] && s[5] == c[1] && s[6] == d[0] && s[7] == d[1] &&
      s[8] == e[0] && s[9] == e[1] && s[10] == g[0] && s[11] == g[1]
  {
  }

  /** A 16-bit value reads back from its two bytes. */
  lemma WordFits(v: int)
    requires 0 <= v < 65536
    ensures WordValue(Word(v)[0], Word(v)[1]) == v
  {
    WordRoundTrip(v);
    DivModUnique(v, 65536, 0, v);
  }

  /** Decoding the encoded header gives it back when every field fits. */
  lemma HeaderRoundTrip(h: DnsHeader)
    requires h.InRange()
    ensures |HeaderBytes(h)| == 12
    ensures DecodeHeader(HeaderBytes(h)) == h
  {
    FlagsRoundTrip(h.flags);
    WordFits(h.id);
    WordFits(h.qdcount);
    WordFits(h.ancount);
    WordFits(h.nscount);
    WordFits(h.arcount);
    SixPairs(Word(h.id), FlagsWord(h.flags), Word(h.qdcount), Word(h.ancount), Word(h.nscount), Word(h.arcount));
  }

  /** Every twelve bytes are the encoding of the header they decode to. */
  lemma HeaderFromBytes(b: seq<Byte>)
    requires |b| == 12
    ensures HeaderBytes(DecodeHeader(b)) == b
  {
    FlagsFromBytes(b[2], b[3]);
    WordFromBytes(b[0], b[1]);
    WordFromBytes(b[4], b[5]);
    WordFromBytes(b[6], b[7]);
    WordFromBytes(b[8], b[9]);
    WordFromBytes(b[10], b[11]);
  }

  /** An id drawn from 0..10000 always comes back unchanged from the first
      two bytes. */
  lemma DrawnIdSurvives(h: DnsHeader, drawn: int)
    requires 0 <= drawn <= 10000 && h.flags.SingleBits()
    ensures var b := HeaderBytes(h.(id := drawn)); WordValue(b[0], b[1]) == drawn
  {
  }

  /** A question: the domain split at its dots, the type and the class. */
  datatype QuestionSection = QuestionSection(domains: seq<string>, dtype: int, dclass: int)
  {
    /** `QuestionSection.to_bytes`: not implemented, so nothing is written. */
    method ToBytes() returns (r: seq<Byte>)
      ensures r == []
    {
      var result: seq<Byte> := [];
      r := result;
    }
  }

  /** A whole query: the header, the sections, and where to send it. */
  datatype DnsMessage = DnsMessage(header: DnsHeader, sections: seq<QuestionSection>, ip: string, port: int)
  {
    /** `DNS.to_bytes`: the header's bytes copied one at a time, then each
        section's bytes in list order, which adds nothing. The result is the
        header alone, and it reads back as that header when every field fits. */
    method ToBytes() returns (r: seq<Byte>)
      requires header.flags.SingleBits()
      ensures r == HeaderBytes(header) && |r| == 12
      ensures header.InRange() ==> DecodeHeader(r) == header
    {
      var result: seq<Byte> := [];
      var headerBytes := header.ToBytes();
      for i := 0 to |headerBytes|
        invariant result == headerBytes[..i]
      {
        result := result + [headerBytes[i]];
      }
      assert headerBytes[..|headerBytes|] == headerBytes;
      for k := 0 to |sections|
        invariant result == headerBytes
      {
        var sectionBytes := sections[k].ToBytes();
        result := result + sectionBytes;
      }
      if header.InRange() {
        HeaderRoundTrip(header);
      }
      r := result;
    }
  }
}
