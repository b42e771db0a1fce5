/**
 The buffer that collects what a child process prints: it doubles when it is full, and is handed over
 with all that was written since it was handed over last.
 */
module PopenBuffer {
  import opened Bytes

  // ---- Size, capacity, and the bytes moved ----

  predicate PowerOfTwo(n: nat) {
    n == 1 || (n > 1 && n % 2 == 0 && PowerOfTwo(n / 2))
  }

  /** c doubled until it is at least n. */
  function Doubled(c: nat, n: nat): (r: nat)
    requires 0 < c
    ensures n <= r && c <= r
    ensures c < r ==> r < 2 * n && 2 * c <= r
    decreases n - c
  {
    if n <= c then c else Doubled(2 * c, n)
  }

  lemma {:induction false} DoubledPower(c: nat, n: nat)
    requires PowerOfTwo(c)
    ensures PowerOfTwo(Doubled(c, n))
    decreases n - c
  {
    if c < n {
      DoubledPower(2 * c, n);
    }
  }

  lemma {:induction false} PowersApart(c: nat, d: nat)
    requires PowerOfTwo(c) && PowerOfTwo(d) && c < d
    ensures 2 * c <= d
  {
    if c > 1 {
      PowersApart(c / 2, d / 2);
    }
  }

  /** moved: the bytes that reallocations have had to copy since the buffer was empty. */
  datatype Counts = Counts(sz: nat, cap: nat, moved: nat)

  const EMPTY := Counts(0, 0, 0)

  /** A write of n bytes: a reallocation carries the old capacity over. */
  function AfterWrite(c: Counts, n: nat): Counts {
    var cap := if n > 0 || c.cap > 0 then Doubled(if c.cap == 0 then 1 else c.cap, c.sz + n) else 0;
    Counts(c.sz + n, cap, if cap > c.cap then c.moved + c.cap else c.moved)
  }

  function AfterWrites(c: Counts, ns: seq<nat>): Counts {
    if ns == [] then c else AfterWrite(AfterWrites(c, ns[..|ns| - 1]), ns[|ns| - 1])
  }

  predicate Lean(c: Counts) {
    if c.cap == 0 then c == EMPTY
    else PowerOfTwo(c.cap) && c.sz <= c.cap < 2 * c.sz && c.moved < c.cap
  }

  lemma WriteStaysLean(c: Counts, n: nat)
    requires Lean(c)
    ensures Lean(AfterWrite(c, n))
    ensures var d := AfterWrite(c, n);
            && d.sz == c.sz + n && d.moved == c.moved + (if d.cap == c.cap then 0 else c.cap)
            && (d.cap == c.cap <==> c.sz + n <= c.cap)
  {
    if n > 0 || c.cap > 0 {
      DoubledPower(if c.cap == 0 then 1 else c.cap, c.sz + n);
    }
  }

  /** Over any run of writes the capacity is the least power of two that holds the bytes, and all
      reallocations together move fewer than twice the bytes. */
  lemma {:induction false} WritesAreCheap(ns: seq<nat>)
    ensures var c := AfterWrites(EMPTY, ns);
            && Lean(c)
            && (c.sz > 0 ==> c.moved < 2 * c.sz)
            && (c.sz > 0 ==> forall p: nat :: PowerOfTwo(p) && c.sz <= p ==> c.cap <= p)
  {
    if ns != [] {
      WritesAreCheap(ns[..|ns| - 1]);
      WriteStaysLean(AfterWrites(EMPTY, ns[..|ns| - 1]), ns[|ns| - 1]);
    }
    var c := AfterWrites(EMPTY, ns);
    forall p: nat | c.sz > 0 && PowerOfTwo(p) && c.sz <= p
      ensures c.cap <= p
    {
      if p < c.cap {
        PowersApart(p, c.cap);
      }
    }
  }

  // ---- When the doubling ends ----

  const HALF: U64 := 0x8000_0000_0000_0000

  /** c after k turns of the doubling loop, as the machine's words have it. */
  function Turns(c: U64, k: nat): U64 {
    if k == 0 then c else Turns(c, k - 1) * 2 % 0x1_0000_0000_0000_0000
  }

  lemma {:induction false} PowersMultiply(a: nat, b: nat)
    requires PowerOfTwo(a) && PowerOfTwo(b)
    ensures PowerOfTwo(a * b)
  {
    if a > 1 {
      PowersMultiply(a / 2, b);
      assert a * b == 2 * (a / 2 * b);
    }
  }

  lemma HalfIsPower()
    ensures PowerOfTwo(HALF)
  {
    PowersMultiply(4, 2);
    PowersMultiply(8, 8);
    PowersMultiply(0x40, 8);
    PowersMultiply(0x200, 0x200);
    PowersMultiply(0x4_0000, 8);
    PowersMultiply(0x20_0000, 0x20_0000);
    PowersMultiply(0x400_0000_0000, 0x20_0000);
  }

  lemma {:induction false} TurnsAhead(c: U64, k: nat)
    requires c < HALF
    ensures Turns(c, k + 1) == Turns(2 * c, k)
  {
    if k > 0 {
      TurnsAhead(c, k - 1);
    }
  }

  lemma PowersEndAtHalf(c: U64)
    requires PowerOfTwo(c)
    ensures c <= HALF
  {
    if c > HALF {
      HalfIsPower();
      PowersApart(HALF, c);
    }
  }

  predicate ZeroOrLowPower(c: U64) { c == 0 || (PowerOfTwo(c) && c <= HALF) }

  lemma OneTurn(c: U64)
    requires ZeroOrLowPower(c)
    ensures ZeroOrLowPower(c * 2 % 0x1_0000_0000_0000_0000)
  {
    if 0 < c < HALF {
      assert PowerOfTwo(c * 2) by {
        assert c * 2 / 2 == c;
      }
      PowersEndAtHalf(c * 2);
    }
  }

  lemma {:induction false} TurnsStayLow(c: U64, k: nat)
    requires PowerOfTwo(c)
    ensures ZeroOrLowPower(Turns(c, k))
  {
    if k == 0 {
      PowersEndAtHalf(c);
    } else {
      TurnsStayLow(c, k - 1);
      OneTurn(Turns(c, k - 1));
    }
  }

  lemma {:induction false} TurnsReach(c: U64, n: nat) returns (k: nat)
    requires PowerOfTwo(c) && n <= HALF
    ensures n <= Turns(c, k)
    decreases n - c
  {
    k := 0;
    if c < n {
      k := TurnsReach(2 * c, n);
      TurnsAhead(c, k);
      k := k + 1;
    }
  }

  /** The doubling ever comes to room for n bytes exactly when n is at most 2^63. */
  lemma RoomComesIff(c: U64, n: nat)
    requires PowerOfTwo(c)
    ensures (exists k: nat :: n <= Turns(c, k)) <==> n <= HALF
  {
    if n <= HALF {
      var k := TurnsReach(c, n);
    }
    forall k: nat
      ensures Turns(c, k) <= HALF
    {
      TurnsStayLow(c, k);
    }
  }

  /** The size that the loop compares with: the sum of two words, as a word. */
  function Total(sz: U64, n: U64): U64 { (sz + n) % 0x1_0000_0000_0000_0000 }

  /** The loop ends exactly when the sum, as a word, is at most 2^63; and exactly when the sum itself is,
      it ends with room for all the bytes. */
  lemma DoublingEndsIff(c: U64, sz: U64, n: U64)
    requires PowerOfTwo(c)
    ensures (exists k: nat :: Total(sz, n) <= Turns(c, k)) <==> Total(sz, n) <= HALF
    ensures (exists k: nat :: sz + n <= Turns(c, k)) <==> sz + n <= HALF
  {
    RoomComesIff(c, Total(sz, n));
    RoomComesIff(c, sz + n);
  }

  /** One byte too many: the loop never ends. */
  lemma OneByteTooMany(k: nat)
    ensures Turns(1, k) < Total(HALF, 1)
  {
    TurnsStayLow(1, k);
  }

  // ---- The buffer ----

  class Popen {
    var data: array?<Byte>
    var sz: nat
    var cap: nat
    var busy: bool
    ghost var written: seq<Byte>
    ghost var moved: nat

    ghost function Now(): Counts
      reads this
    {
      Counts(sz, cap, moved)
    }

    ghost predicate Valid()
      reads this, data
    {
      && Lean(Now()) && (data == null <==> cap == 0)
      && (data != null ==> data.Length == cap && written == data[..sz])
      && (data == null ==> written == [])
    }

    constructor ()
      ensures Valid() && Now() == EMPTY && written == []
    {
      data, sz, cap, busy := null, 0, 0, false;
      written, moved := [], 0;
    }

    /** realloc: a new block that starts with the bytes of the old one. */
    method Realloc(newCap: nat)
      requires newCap > cap && (data == null <==> cap == 0) && (data != null ==> data.Length == cap)
      modifies this`data, this`cap, this`moved
      ensures data != null && fresh(data) && data.Length == newCap == cap && moved == old(moved) + old(cap)
      ensures old(data) != null ==> data[..old(cap)] == old(data[..])
    {
      var block := new Byte[newCap];
      if data != null {
        for i := 0 to cap
          modifies block
          invariant block[..i] == data[..i]
        {
          block[i] := data[i];
        }
        assert block[..cap] == data[..];
      }
      moved := moved + cap;
      data, cap := block, newCap;
    }

    /** The capacity for n bytes more. */
    method CapacityFor(n: nat) returns (newCap: U64)
      requires Valid() && sz + n <= HALF
      ensures newCap == AfterWrite(Now(), n).cap
    {
      newCap := cap;
      if n > 0 && newCap == 0 {
        newCap := newCap + 1;
      }
      ghost var start := newCap;
      while sz + n > newCap
        invariant start > 0 ==> newCap > 0 && Doubled(newCap, sz + n) == Doubled(start, sz + n)
        invariant start == 0 ==> newCap == 0
        decreases sz + n - newCap
      {
        newCap := newCap * 2;
      }
    }

    /** memcpy of buf behind the bytes. */
    method Append(buf: array<Byte>)
      requires buf != data
      requires if data == null then buf.Length == 0 && written == []
               else sz + buf.Length <= data.Length && data[..sz] == written
      modifies data, this`sz, this`written
      ensures sz == old(sz) + buf.Length && written == old(written) + buf[..]
      ensures data != null ==> data[..sz] == written
    {
      for i := 0 to buf.Length
        modifies data
        invariant data != null ==> data[..sz] == written && data[sz..sz + i] == buf[..i]
      {
        data[sz + i] := buf[i];
        assert data[sz..sz + i + 1] == data[sz..sz + i] + [buf[i]];
      }
      assert data != null ==> data[..sz + buf.Length] == data[..sz] + data[sz..sz + buf.Length];
      sz, written := sz + buf.Length, written + buf[..];
    }

    /** Room for n bytes more behind those written. */
    method Reserve(n: nat)
      requires Valid() && sz + n <= HALF
      modifies this`data, this`cap, this`moved
      ensures Counts(sz + n, cap, moved) == AfterWrite(old(Now()), n) && (data == null <==> cap == 0)
      ensures data != null ==> data.Length == cap && data[..sz] == written
      ensures data == old(data) || fresh(data)
      ensures data == null ==> written == []
    {
      WriteStaysLean(Now(), n);
      var newCap := CapacityFor(n);
      if newCap > cap {
        ghost var kept := if data == null then [] else data[..];
        Realloc(newCap);
        assert data[..sz] == kept[..sz];
      }
    }

    method Write(buf: array<Byte>)
      requires Valid() && buf != data && sz + buf.Length <= HALF
      modifies this, data
      ensures Valid() && Now() == AfterWrite(old(Now()), buf.Length) && busy == old(busy)
      ensures written == old(written) + buf[..]
      ensures data == old(data) || fresh(data)
    {
      WriteStaysLean(Now(), buf.Length);
      Reserve(buf.Length);
      Append(buf);
    }

    method Get() returns (buf: array?<Byte>, size: nat)
      requires Valid()
      modifies this
      ensures Valid() && Now() == EMPTY && written == [] && !busy
      ensures size == |old(written)| && buf == old(data)
      ensures if buf == null then old(written) == [] else size <= buf.Length && buf[..size] == old(written)
    {
      buf, size := data, sz;
      data, sz, cap, busy := null, 0, 0, false;
      written, moved := [], 0;
    }
  }
}
