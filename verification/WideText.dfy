/**
 convertFromAscii and convertToAscii: a string becomes its 16-bit form in the very buffer that holds it,
 and 16-bit text its low bytes. Units are little-endian.
 */
module WideText {
  import opened Bytes

  // ---- Strings and 16-bit strings in a buffer ----

  /** The position of the first 0 from i on, or the length. */
  function StrLen(s: seq<Byte>, i: nat): (n: nat)
    requires i <= |s|
    ensures i <= n <= |s| && (n < |s| ==> s[n] == 0) && forall k :: i <= k < n ==> s[k] != 0
    decreases |s| - i
  {
    if i == |s| || s[i] == 0 then i else StrLen(s, i + 1)
  }

  /** The first unit from i on whose low byte is 0, or the number of whole units. */
  function UnitLen(s: seq<Byte>, i: nat): (n: nat)
    requires 2 * i <= |s|
    ensures i <= n && 2 * n <= |s| && (2 * n + 1 < |s| ==> s[2 * n] == 0) && forall k :: i <= k < n ==> s[2 * k] != 0
    decreases |s| - i
  {
    if 2 * i + 1 >= |s| || s[2 * i] == 0 then i else UnitLen(s, i + 1)
  }

  /** A 0 ends a string within the first sz bytes, and the 16-bit form fits them. */
  predicate Fits(s: seq<Byte>, sz: nat) {
    sz <= |s| && 2 * StrLen(s, 0) + 2 <= sz
  }

  /** A unit ends the 16-bit text. */
  predicate Ends(s: seq<Byte>) {
    2 * UnitLen(s, 0) + 1 < |s|
  }

  /** The zero-extended bytes of the string, zeros up to sz, and what stood behind. */
  function Widened(s: seq<Byte>, sz: nat): (r: seq<Byte>)
    requires Fits(s, sz)
  {
    seq(|s|, i requires 0 <= i < |s| =>
      if i >= sz then s[i] else if i % 2 == 0 && i / 2 < StrLen(s, 0) then s[i / 2] else 0)
  }

  /** The low bytes up to and with the first that is 0, and what stood behind them. */
  function Narrowed(s: seq<Byte>): (r: seq<Byte>)
    requires Ends(s)
  {
    seq(|s|, i requires 0 <= i < |s| => if i <= UnitLen(s, 0) then s[2 * i] else s[i])
  }

  // ---- There and back ----

  lemma StrLenIs(s: seq<Byte>, n: nat)
    requires n < |s| && s[n] == 0 && forall k :: 0 <= k < n ==> s[k] != 0
    ensures StrLen(s, 0) == n
  {
    var m := StrLen(s, 0);
    assert m == |s| || s[m] == 0;
  }

  lemma UnitLenIs(s: seq<Byte>, n: nat)
    requires 2 * n + 1 < |s| && s[2 * n] == 0 && forall k :: 0 <= k < n ==> s[2 * k] != 0
    ensures UnitLen(s, 0) == n
  {
    var m := UnitLen(s, 0);
    assert 2 * m + 1 >= |s| || s[2 * m] == 0;
  }

  /** Narrowing the widened string restores it with its terminator; what follows is as widening left it. */
  lemma NarrowAfterWiden(s: seq<Byte>, sz: nat)
    requires Fits(s, sz)
    ensures Ends(Widened(s, sz))
    ensures var l := StrLen(s, 0);
            var r := Narrowed(Widened(s, sz));
            StrLen(r, 0) == l && r[..l + 1] == s[..l + 1] && r[l + 1..] == Widened(s, sz)[l + 1..]
  {
    var l := StrLen(s, 0);
    var w := Widened(s, sz);
    forall k | 0 <= k < l
      ensures w[2 * k] == s[k]
    {
    }
    assert w[2 * l] == 0;
    UnitLenIs(w, l);
    StrLenIs(Narrowed(w), l);
  }

  lemma NarrowedFits(s: seq<Byte>)
    requires Ends(s)
    ensures StrLen(Narrowed(s), 0) == UnitLen(s, 0) && Fits(Narrowed(s), |s|)
  {
    StrLenIs(Narrowed(s), UnitLen(s, 0));
  }

  lemma WidenedUnit(s: seq<Byte>, i: nat)
    requires Ends(s) && i <= UnitLen(s, 0)
    ensures Fits(Narrowed(s), |s|)
    ensures Widened(Narrowed(s), |s|)[2 * i] == s[2 * i] && Widened(Narrowed(s), |s|)[2 * i + 1] == 0
  {
    NarrowedFits(s);
    var r := Narrowed(s);
    assert i <= StrLen(r, 0) && r[i] == s[2 * i];
    assert i == StrLen(r, 0) ==> r[i] == 0;
    assert 2 * i / 2 == i && (2 * i + 1) / 2 == i;
  }

  /** Widening what narrowing left restores the 16-bit text exactly when every unit of it, the last one
      included, is below 256. */
  lemma WidenAfterNarrow(s: seq<Byte>)
    requires Ends(s)
    ensures Fits(Narrowed(s), |s|)
    ensures (forall j :: 0 <= j < 2 * UnitLen(s, 0) + 2 ==> Widened(Narrowed(s), |s|)[j] == s[j])
            <==> forall i :: 0 <= i <= UnitLen(s, 0) ==> s[2 * i + 1] == 0
  {
    NarrowedFits(s);
    var n := UnitLen(s, 0);
    var w := Widened(Narrowed(s), |s|);
    forall j | 0 <= j < 2 * n + 2
      ensures w[j] == if j % 2 == 0 then s[j] else 0
    {
      WidenedUnit(s, j / 2);
    }
    HighBytes(s, w, n);
  }

  lemma HighBytes(s: seq<Byte>, w: seq<Byte>, n: nat)
    requires 2 * n + 2 <= |s| == |w| && forall j :: 0 <= j < 2 * n + 2 ==> w[j] == if j % 2 == 0 then s[j] else 0
    ensures (forall j :: 0 <= j < 2 * n + 2 ==> w[j] == s[j]) <==> forall i :: 0 <= i <= n ==> s[2 * i + 1] == 0
  {
    if forall j :: 0 <= j < 2 * n + 2 ==> w[j] == s[j] {
      forall i | 0 <= i <= n
        ensures s[2 * i + 1] == 0
      {
        assert w[2 * i + 1] == s[2 * i + 1];
      }
    } else if forall i :: 0 <= i <= n ==> s[2 * i + 1] == 0 {
      forall j | 0 <= j < 2 * n + 2
        ensures w[j] == s[j]
      {
        assert s[2 * (j / 2) + 1] == 0;
      }
    }
  }

  // ---- The same, byte by byte ----

  /** The string ends at l. */
  predicate StringEnds(s: seq<Byte>, l: nat) {
    l < |s| && s[l] == 0 && forall k :: 0 <= k < l ==> s[k] != 0
  }

  /** The first unit with a low byte of 0 is unit n. */
  predicate UnitsEnd(s: seq<Byte>, n: nat) {
    2 * n + 1 < |s| && s[2 * n] == 0 && forall k :: 0 <= k < n ==> s[2 * k] != 0
  }

  /** r is s with its string of l characters widened up to sz: each character and a 0, zeros from the
      terminator on, and what stood behind sz. */
  ghost predicate WidenedBytes(s: seq<Byte>, l: nat, sz: nat, r: seq<Byte>) {
    && 2 * l + 2 <= sz <= |s| == |r| && l <= |s|
    && (forall k :: 0 <= k < l ==> r[2 * k] == s[k] && r[2 * k + 1] == 0)
    && (forall j :: 2 * l <= j < sz ==> r[j] == 0)
    && (forall j :: sz <= j < |s| ==> r[j] == s[j])
  }

  /** r is s with the low bytes of its units, up to and with unit n, moved to the front. */
  ghost predicate NarrowedBytes(s: seq<Byte>, n: nat, r: seq<Byte>) {
    && 2 * n + 1 < |s| == |r|
    && (forall k :: 0 <= k <= n ==> r[k] == s[2 * k])
    && (forall j :: n < j < |s| ==> r[j] == s[j])
  }

  lemma WidenedAre(s: seq<Byte>, l: nat, sz: nat)
    requires Fits(s, sz) && StringEnds(s, l)
    ensures WidenedBytes(s, l, sz, Widened(s, sz))
  {
    StrLenIs(s, l);
    var r := Widened(s, sz);
    forall k | 0 <= k < l
      ensures r[2 * k] == s[k] && r[2 * k + 1] == 0
    {
      assert 2 * k / 2 == k;
    }
  }

  lemma NarrowedAre(s: seq<Byte>, n: nat)
    requires UnitsEnd(s, n)
    ensures Ends(s) && NarrowedBytes(s, n, Narrowed(s))
  {
    UnitLenIs(s, n);
  }

  // ---- The code ----

  method StrLenOf(buf: array<Byte>) returns (l: nat)
    requires StrLen(buf[..], 0) < buf.Length
    ensures l == StrLen(buf[..], 0)
  {
    l := 0;
    while buf[l] != 0
      invariant l <= StrLen(buf[..], 0)
      decreases buf.Length - l
    {
      l := l + 1;
    }
  }

  /** memset to 0 */
  method Zero(buf: array<Byte>, from: nat, to: nat)
    requires from <= to <= buf.Length
    modifies buf
    ensures buf[..] == old(buf[..from]) + seq(to - from, _ => 0) + old(buf[to..])
  {
    for i := from to to
      invariant forall k :: from <= k < i ==> buf[k] == 0
      invariant forall k :: 0 <= k < from || i <= k < buf.Length ==> buf[k] == old(buf[k])
    {
      buf[i] := 0;
    }
  }

  /** From the last byte down: the unit written lies at or above the bytes still to be read. */
  method ConvertFromAscii(buf: array<Byte>, sz: nat)
    requires Fits(buf[..], sz)
    modifies buf
    ensures buf[..] == Widened(old(buf[..]), sz)
    ensures forall l: nat :: StringEnds(old(buf[..]), l) ==> WidenedBytes(old(buf[..]), l, sz, buf[..])
  {
    forall l: nat | StringEnds(buf[..], l)
      ensures WidenedBytes(buf[..], l, sz, Widened(buf[..], sz))
    {
      WidenedAre(buf[..], l, sz);
    }
    var l := StrLenOf(buf);
    var end := Spread(buf, l);
    Zero(buf, end, sz);
  }

  /** The walk down from the terminator. */
  method Spread(buf: array<Byte>, l: nat) returns (end: nat)
    requires 2 * l + 2 <= buf.Length
    modifies buf
    ensures end == 2 * l
    ensures forall k :: 0 <= k < 2 * l ==> buf[k] == if k % 2 == 0 then old(buf[..])[k / 2] else 0
    ensures forall k :: 2 * l + 2 <= k < buf.Length ==> buf[k] == old(buf[k])
  {
    ghost var s := buf[..];
    var p, q := l, 2 * l;
    end := q;
    buf[q], buf[q + 1] := buf[p], 0;
    for i := 0 to l
      invariant p == l - i && q == 2 * p
      invariant forall k :: 0 <= k < p ==> buf[k] == s[k]
      invariant forall k :: q <= k < 2 * l ==> buf[k] == if k % 2 == 0 then s[k / 2] else 0
      invariant forall k :: 2 * l + 2 <= k < buf.Length ==> buf[k] == s[k]
    {
      p, q := p - 1, q - 2;
      buf[q], buf[q + 1] := buf[p], 0;
    }
  }

  method ConvertToAscii(buf: array<Byte>)
    requires Ends(buf[..])
    modifies buf
    ensures buf[..] == Narrowed(old(buf[..]))
    ensures forall n: nat :: UnitsEnd(old(buf[..]), n) ==> NarrowedBytes(old(buf[..]), n, buf[..])
  {
    forall n: nat | UnitsEnd(buf[..], n)
      ensures NarrowedBytes(buf[..], n, Narrowed(buf[..]))
    {
      NarrowedAre(buf[..], n);
    }
    ghost var s := buf[..];
    ghost var n := UnitLen(s, 0);
    buf[0] := buf[0];
    var copied, dst := buf[0], 1;
    while copied != 0
      invariant 1 <= dst <= n + 1 && copied == s[2 * (dst - 1)]
      invariant forall k :: 0 <= k < dst ==> buf[k] == s[2 * k]
      invariant forall k :: dst <= k < buf.Length ==> buf[k] == s[k]
      decreases n + 1 - dst
    {
      copied := buf[2 * dst];
      buf[dst] := copied;
      dst := dst + 1;
    }
    assert dst == n + 1;
  }

  /** Both, one after the other: the string stands again where it stood. */
  method ThereAndBack(buf: array<Byte>, sz: nat)
    requires Fits(buf[..], sz)
    modifies buf
    ensures var l := StrLen(old(buf[..]), 0);
            StrLen(buf[..], 0) == l && buf[..l + 1] == old(buf[..])[..l + 1]
  {
    NarrowAfterWiden(buf[..], sz);
    ConvertFromAscii(buf, sz);
    ConvertToAscii(buf);
  }
}
