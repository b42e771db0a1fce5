/** Bytes and the little-endian words that the code reads and writes through casted pointers. */
module Bytes {

  type Byte = b: int | 0 <= b < 0x100
  type U16 = x: int | 0 <= x < 0x1_0000
  type U32 = x: int | 0 <= x < 0x1_0000_0000
  type U64 = x: int | 0 <= x < 0x1_0000_0000_0000_0000

  type Mac = m: seq<Byte> | |m| == 6 witness [0, 0, 0, 0, 0, 0]

  /** *(unsigned short*)(s + i) */
  function Load16(s: seq<Byte>, i: nat): U16
    requires i + 2 <= |s|
  {
    s[i] as int + 0x100 * s[i + 1] as int
  }

  function Le16(x: U16): (s: seq<Byte>)
    ensures |s| == 2 && Load16(s, 0) == x
  {
    [x % 0x100, x / 0x100]
  }

  /** *(in_addr_t*)(s + i) */
  function Load32(s: seq<Byte>, i: nat): U32
    requires i + 4 <= |s|
  {
    s[i] as int + 0x100 * s[i + 1] as int + 0x1_0000 * s[i + 2] as int + 0x100_0000 * s[i + 3] as int
  }

  function Le32(x: U32): (s: seq<Byte>)
    ensures |s| == 4 && Load32(s, 0) == x
  {
    [x % 0x100, x / 0x100 % 0x100, x / 0x1_0000 % 0x100, x / 0x100_0000]
  }

  lemma Load32At(s: seq<Byte>, i: nat, x: U32)
    requires i + 4 <= |s| && s[i..i + 4] == Le32(x)
    ensures Load32(s, i) == x
  {
    var w := s[i..i + 4];
    assert w[0] == s[i] && w[1] == s[i + 1] && w[2] == s[i + 2] && w[3] == s[i + 3];
  }

  /** *(unsigned long long*)(s + i) */
  function Load64(s: seq<Byte>, i: nat): U64
    requires i + 8 <= |s|
  {
    Load32(s, i) as int + 0x1_0000_0000 * Load32(s, i + 4) as int
  }

  function Le64(x: U64): (s: seq<Byte>)
    ensures |s| == 8 && Load64(s, 0) == x
  {
    var s := Le32(x % 0x1_0000_0000) + Le32(x / 0x1_0000_0000);
    Load32At(s, 0, x % 0x1_0000_0000);
    Load32At(s, 4, x / 0x1_0000_0000);
    s
  }

  // ---- The loads against the numerals of base 256, least digit first ----

  function Numeral(s: seq<Byte>): nat {
    if s == [] then 0 else s[0] as int + 0x100 * Numeral(s[1..])
  }

  lemma Numeral2(s: seq<Byte>)
    requires |s| == 2
    ensures Numeral(s) == s[0] as int + 0x100 * s[1] as int
  {
    assert s[1..][1..] == [] && Numeral(s[1..]) == s[1] as int + 0x100 * Numeral([]);
  }

  lemma Numeral4(s: seq<Byte>)
    requires |s| == 4
    ensures Numeral(s) == s[0] as int + 0x100 * s[1] as int + 0x1_0000 * s[2] as int + 0x100_0000 * s[3] as int
  {
    Numeral2(s[2..]);
    assert s[1..][1..] == s[2..];
  }

  lemma {:induction false} NumeralJoin(s: seq<Byte>, t: seq<Byte>)
    requires |s| == 4
    ensures Numeral(s + t) == Numeral(s) + 0x1_0000_0000 * Numeral(t)
  {
    Numeral4(s);
    var u := s + t;
    assert u[1..][1..] == u[2..] && u[2..][1..] == u[3..] && u[3..][1..] == u[4..] == t;
    assert Numeral(u[3..]) == s[3] as int + 0x100 * Numeral(t);
    assert Numeral(u[2..]) == s[2] as int + 0x100 * Numeral(u[3..]);
    assert Numeral(u[1..]) == s[1] as int + 0x100 * Numeral(u[2..]);
  }

  /** The words are read least byte first. */
  lemma LoadsAreNumerals(s: seq<Byte>, i: nat)
    ensures i + 2 <= |s| ==> Load16(s, i) == Numeral(s[i..i + 2])
    ensures i + 4 <= |s| ==> Load32(s, i) == Numeral(s[i..i + 4])
    ensures i + 8 <= |s| ==> Load64(s, i) == Numeral(s[i..i + 8])
  {
    if i + 2 <= |s| {
      Numeral2(s[i..i + 2]);
    }
    if i + 4 <= |s| {
      Numeral4(s[i..i + 4]);
    }
    if i + 8 <= |s| {
      Numeral4(s[i + 4..i + 8]);
      NumeralJoin(s[i..i + 4], s[i + 4..i + 8]);
      assert s[i..i + 8] == s[i..i + 4] + s[i + 4..i + 8];
    }
  }

  /** What is read and stored again is the same bytes. */
  lemma Le32Load32(s: seq<Byte>, i: nat)
    requires i + 4 <= |s|
    ensures Le32(Load32(s, i)) == s[i..i + 4]
  {
    var x := Load32(s, i);
    Digit(s[i], s[i + 1] as int + 0x100 * s[i + 2] as int + 0x1_0000 * s[i + 3] as int);
    Digit(s[i + 1], s[i + 2] as int + 0x100 * s[i + 3] as int);
    Digit(s[i + 2], s[i + 3] as int);
    assert x / 0x1_0000 == x / 0x100 / 0x100 && x / 0x100_0000 == x / 0x1_0000 / 0x100;
  }

  lemma Digit(b: Byte, rest: nat)
    ensures (b as int + 0x100 * rest) % 0x100 == b as int && (b as int + 0x100 * rest) / 0x100 == rest
  {
  }

  lemma Load16At(s: seq<Byte>, i: nat, x: U16)
    requires i + 2 <= |s| && s[i..i + 2] == Le16(x)
    ensures Load16(s, i) == x
  {
    var w := s[i..i + 2];
    assert w[0] == s[i] && w[1] == s[i + 1];
  }

  lemma Load64At(s: seq<Byte>, i: nat, x: U64)
    requires i + 8 <= |s| && s[i..i + 8] == Le64(x)
    ensures Load64(s, i) == x
  {
    var w := s[i..i + 8];
    assert s[i..i + 4] == w[..4] && s[i + 4..i + 8] == w[4..];
    Load32At(s, i, x % 0x1_0000_0000);
    Load32At(s, i + 4, x / 0x1_0000_0000);
  }

  // ---- Records of several fields ----

  /** The next field of a record, and what is behind it. */
  lemma Field(f: seq<Byte>, at: nat, x: seq<Byte>, rest: seq<Byte>)
    requires at <= |f| && f[at..] == x + rest
    ensures at + |x| <= |f| && f[at..at + |x|] == x && f[at + |x|..] == rest
  {
  }

  lemma RightToLeft(a: seq<Byte>, b: seq<Byte>, c: seq<Byte>, d: seq<Byte>)
    ensures a + b + c + d == a + (b + (c + d))
  {
  }
}
