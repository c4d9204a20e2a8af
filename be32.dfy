/** The big-endian 32-bit codec of sigma_dut.h: `WPA_GET_BE32` reads four
    bytes as one unsigned 32-bit word, most significant byte first, and
    `WPA_PUT_BE32` writes a value, reduced to 32 bits, into four bytes of a
    caller's buffer. Both macros work on C's `u32` and `u8`, which are exactly
    Dafny's `bv32` and `bv8`, so the shifts and masks below are the macros'
    own. The lemmas then give the same facts in integer arithmetic. */
module Be32 {

  /** `typedef unsigned int u32` and `typedef unsigned char u8`. */
  type u32 = bv32
  type u8 = bv8

  /** 2^32: a C conversion to `u32` reduces modulo this. */
  const U32_MOD: int := 0x1_0000_0000

  /** The conversion `(u32) val` of any integer value: C reduces it modulo
      2^32, also for negative values, which Dafny's `%` matches. */
  function ToU32(val: int): u32
  {
    (val % U32_MOD) as u32
  }

  /** `WPA_GET_BE32(a)`: the shift-and-or of the first four bytes. */
  function GetBe32(a: seq<u8>): u32
    requires |a| >= 4
  {
    ((a[0] as u32) << 24) | ((a[1] as u32) << 16) | ((a[2] as u32) << 8) | (a[3] as u32)
  }

  /** The four bytes `WPA_PUT_BE32` stores for a word that is already `u32`:
      byte k holds bits 31-8k .. 24-8k, each masked with 0xff. */
  function EncodeBe32(w: u32): (r: seq<u8>)
    ensures |r| == 4
    ensures GetBe32(r) == w
  {
    [((w >> 24) & 0xff) as u8, ((w >> 16) & 0xff) as u8,
     ((w >> 8) & 0xff) as u8, (w & 0xff) as u8]
  }

  /** `WPA_PUT_BE32(a + off, val)`: writes exactly a[off..off+4] and nothing
      else. The buffer must have four bytes from `off` on, as the macro's
      callers must guarantee in C. */
  method PutBe32(a: array<u8>, off: nat, val: int)
    requires off + 4 <= a.Length
    modifies a
    ensures a[off..off + 4] == EncodeBe32(ToU32(val))
    ensures forall i :: 0 <= i < a.Length && !(off <= i < off + 4) ==> a[i] == old(a[i])
    ensures GetBe32(a[off..]) == ToU32(val)
  {
    var b := EncodeBe32(ToU32(val));
    a[off] := b[0];
    a[off + 1] := b[1];
    a[off + 2] := b[2];
    a[off + 3] := b[3];
    assert a[off..off + 4] == b;
    assert GetBe32(a[off..]) == GetBe32(b) by {
      assert a[off..][..4] == b;
    }
  }

  // ---------------------------------------------------------------------
  // Bytes determine the word: decoding loses nothing.

  /** Decoding the first four bytes and encoding the word again gives back
      those four bytes, so two buffers that decode alike agree on a[..4]. */
  lemma DecodeThenEncode(a: seq<u8>)
    requires |a| >= 4
    ensures EncodeBe32(GetBe32(a)) == a[..4]
  {
  }

  /** Two buffers decode to the same word exactly when their first four
      bytes agree. */
  lemma GetBe32Injective(a: seq<u8>, b: seq<u8>)
    requires |a| >= 4 && |b| >= 4
    ensures GetBe32(a) == GetBe32(b) <==> a[..4] == b[..4]
  {
    DecodeThenEncode(a);
    DecodeThenEncode(b);
  }

  // ---------------------------------------------------------------------
  // The same codec in integer arithmetic.

  /** Two 16-bit halves joined into a word hold hi * 2^16 + lo. */
  lemma JoinHalves(hi: bv16, lo: bv16)
    ensures (((hi as u32) << 16) | (lo as u32)) as int == hi as int * 0x1_0000 + lo as int
  {
  }

  /** Two bytes joined into a 16-bit half hold b0 * 2^8 + b1. */
  lemma JoinBytes(b0: u8, b1: u8)
    ensures (((b0 as bv16) << 8) | (b1 as bv16)) as int == b0 as int * 0x100 + b1 as int
  {
  }

  /** Four bytes joined by shifts and ors through two 16-bit halves. */
  lemma JoinThroughHalves(b0: u8, b1: u8, b2: u8, b3: u8)
    ensures ((b0 as u32) << 24) | ((b1 as u32) << 16) | ((b2 as u32) << 8) | (b3 as u32)
         == ((((b0 as bv16) << 8) | (b1 as bv16)) as u32 << 16) | ((((b2 as bv16) << 8) | (b3 as bv16)) as u32)
  {
  }

  /** The word that the shift-and-or of four bytes builds has their
      base-256 value. */
  lemma JoinedWordValue(b0: u8, b1: u8, b2: u8, b3: u8, w: u32)
    requires w == ((b0 as u32) << 24) | ((b1 as u32) << 16) | ((b2 as u32) << 8) | (b3 as u32)
    ensures w as int == b0 as int * 0x100_0000 + b1 as int * 0x1_0000 + b2 as int * 0x100 + b3 as int
  {
    var hi := ((b0 as bv16) << 8) | (b1 as bv16);
    var lo := ((b2 as bv16) << 8) | (b3 as bv16);
    JoinThroughHalves(b0, b1, b2, b3);
    assert w == ((hi as u32) << 16) | (lo as u32);
    JoinHalves(hi, lo);
    JoinBytes(b0, b1);
    JoinBytes(b2, b3);
    assert w as int == hi as int * 0x1_0000 + lo as int;
  }

  /** `WPA_GET_BE32(a)` equals a[0]*2^24 + a[1]*2^16 + a[2]*2^8 + a[3]. */
  lemma GetBe32Value(a: seq<u8>)
    requires |a| >= 4
    ensures GetBe32(a) as int
         == a[0] as int * 0x100_0000 + a[1] as int * 0x1_0000 + a[2] as int * 0x100 + a[3] as int
  {
    JoinedWordValue(a[0], a[1], a[2], a[3], GetBe32(a));
  }

  /** The four base-256 digits of n < 2^32, most significant first. */
  lemma Base256Digits(n: int)
    requires 0 <= n < U32_MOD
    ensures n == (n / 0x100_0000) * 0x100_0000 + ((n / 0x1_0000) % 0x100) * 0x1_0000
                 + ((n / 0x100) % 0x100) * 0x100 + n % 0x100
    ensures n / 0x100_0000 < 0x100
  {
    var q1 := n / 0x100;
    var q2 := q1 / 0x100;
    assert q2 == n / 0x1_0000;
    assert q2 / 0x100 == n / 0x100_0000;
  }

  /** A nibble-sized integer converts to the 4-bit vector with that value. */
  lemma NibbleOfInt(x: int)
    requires 0 <= x < 0x10
    ensures (x as bv4) as int == x
  {
  }

  /** Two nibbles joined into a byte hold h * 2^4 + l. */
  lemma JoinNibbles(h: bv4, l: bv4)
    ensures (((h as u8) << 4) | (l as u8)) as int == h as int * 0x10 + l as int
  {
  }

  /** Every integer in 0..255 is the value of some byte. */
  lemma ByteWithValue(x: int) returns (b: u8)
    requires 0 <= x < 0x100
    ensures b as int == x
  {
    var h, l := x / 0x10, x % 0x10;
    NibbleOfInt(h);
    NibbleOfInt(l);
    b := ((h as bv4 as u8) << 4) | (l as bv4 as u8);
    JoinNibbles(h as bv4, l as bv4);
  }

  /** An integer that is the value of a word converts back to that word. */
  lemma WordOfValue(n: int, w: u32)
    requires w as int == n
    ensures n as u32 == w
  {
    assert (w as int) as u32 == w;
  }

  /** The C conversion `(u32) val` yields the unsigned word whose value is
      val mod 2^32. */
  lemma ToU32Value(val: int)
    ensures ToU32(val) as int == val % U32_MOD
  {
    var n := val % U32_MOD;
    Base256Digits(n);
    var b0 := ByteWithValue(n / 0x100_0000);
    var b1 := ByteWithValue((n / 0x1_0000) % 0x100);
    var b2 := ByteWithValue((n / 0x100) % 0x100);
    var b3 := ByteWithValue(n % 0x100);
    var bytes: seq<u8> := [b0, b1, b2, b3];
    GetBe32Value(bytes);
    WordOfValue(n, GetBe32(bytes));
  }

  /** `WPA_PUT_BE32` is big-endian: byte k of the encoding is digit 3-k of
      the value in base 256, i.e. a[0] = bits 31..24, a[1] = bits 23..16,
      a[2] = bits 15..8 and a[3] = bits 7..0, each in 0..255. */
  lemma EncodeBe32ByteOrder(w: u32)
    ensures EncodeBe32(w)[0] as int == w as int / 0x100_0000
    ensures EncodeBe32(w)[1] as int == (w as int / 0x1_0000) % 0x100
    ensures EncodeBe32(w)[2] as int == (w as int / 0x100) % 0x100
    ensures EncodeBe32(w)[3] as int == w as int % 0x100
  {
    var e := EncodeBe32(w);
    GetBe32Value(e);
    var n := w as int;
    assert n == e[0] as int * 0x100_0000 + e[1] as int * 0x1_0000 + e[2] as int * 0x100 + e[3] as int;
    DigitsUnique(n, e[0] as int, e[1] as int, e[2] as int, e[3] as int);
  }

  /** Base-256 digits are unique. */
  lemma DigitsUnique(n: int, d0: int, d1: int, d2: int, d3: int)
    requires 0 <= d0 < 0x100 && 0 <= d1 < 0x100 && 0 <= d2 < 0x100 && 0 <= d3 < 0x100
    requires n == d0 * 0x100_0000 + d1 * 0x1_0000 + d2 * 0x100 + d3
    ensures d3 == n % 0x100
    ensures d2 == (n / 0x100) % 0x100
    ensures d1 == (n / 0x1_0000) % 0x100
    ensures d0 == n / 0x100_0000
  {
    var q1 := d0 * 0x1_0000 + d1 * 0x100 + d2;
    assert n == q1 * 0x100 + d3;
    assert n / 0x100 == q1 && n % 0x100 == d3;
    var q2 := d0 * 0x100 + d1;
    assert q1 == q2 * 0x100 + d2;
    assert q1 / 0x100 == q2 && q1 % 0x100 == d2;
    assert n / 0x1_0000 == q2 by {
      assert n / 0x1_0000 == (n / 0x100) / 0x100;
    }
    assert q2 / 0x100 == d0 && q2 % 0x100 == d1;
    assert n / 0x100_0000 == d0 by {
      assert n / 0x100_0000 == (n / 0x1_0000) / 0x100;
    }
  }

  /** Encoding v with `WPA_PUT_BE32` and decoding with `WPA_GET_BE32`
      yields v reduced to 32 bits. */
  lemma PutThenGet(val: int)
    ensures GetBe32(EncodeBe32(ToU32(val))) as int == val % U32_MOD
  {
    ToU32Value(val);
  }

  /** `WPA_GET_BE32` is below 2^32 and re-encoding it reproduces the
      four bytes it was read from, here stated on the integer value. */
  lemma GetThenPut(a: seq<u8>)
    requires |a| >= 4
    ensures 0 <= GetBe32(a) as int < U32_MOD
    ensures EncodeBe32(ToU32(GetBe32(a) as int)) == a[..4]
  {
    ToU32OfWord(GetBe32(a));
    DecodeThenEncode(a);
  }

  /** Converting the value of a word back to `u32` gives that word. */
  lemma ToU32OfWord(w: u32)
    ensures 0 <= w as int < U32_MOD
    ensures ToU32(w as int) == w
  {
    var n := w as int;
    ReduceInRange(n);
    WordOfValue(n, w);
  }

  lemma ReduceInRange(n: int)
    requires 0 <= n < U32_MOD
    ensures n % U32_MOD == n
  {
  }
}
