/**
 The ARP cache: a bucket array of singly linked entries, keyed by IP address, that refines a plain
 map from IP addresses to MAC addresses.
 */
module ArpCache {
  import opened Bytes
  import opened Options

  const MASK: U32 := 0xdeadbeef

  /** Exclusive or, bit by bit. */
  function Xor(a: nat, b: nat): nat {
    if a == 0 && b == 0 then 0 else (a % 2 + b % 2) % 2 + 2 * Xor(a / 2, b / 2)
  }

  /** Bit k of a number. */
  function Bit(n: nat, k: nat): bool {
    if k == 0 then n % 2 == 1 else Bit(n / 2, k - 1)
  }

  lemma {:induction false} XorBit(a: nat, b: nat, k: nat)
    ensures Bit(Xor(a, b), k) <==> Bit(a, k) != Bit(b, k)
  {
    if a == 0 && b == 0 {
      ZeroBit(k);
    } else {
      var x, rest := (a % 2 + b % 2) % 2, Xor(a / 2, b / 2);
      assert (x + 2 * rest) / 2 == rest && (x + 2 * rest) % 2 == x;
      if k > 0 {
        XorBit(a / 2, b / 2, k - 1);
      }
    }
  }

  lemma {:induction false} ZeroBit(k: nat)
    ensures !Bit(0, k)
  {
    if k > 0 {
      ZeroBit(k - 1);
    }
  }

  /** The bucket is the remainder of the address with the bits of 0xdeadbeef turned over. */
  lemma HashIs(addr: U32, cap: nat) returns (x: nat)
    requires cap > 0
    ensures Hash(addr, cap) == x % cap && forall k: nat :: Bit(x, k) <==> Bit(addr, k) != Bit(0xdeadbeef, k)
  {
    x := Xor(addr, MASK);
    forall k: nat
      ensures Bit(x, k) <==> Bit(addr, k) != Bit(0xdeadbeef, k)
    {
      XorBit(addr, 0xdeadbeef, k);
    }
  }

  function Hash(addr: U32, cap: nat): (h: nat)
    requires cap > 0
    ensures h < cap
  {
    Xor(addr, MASK) % cap
  }

  // ---- What the first set needs of the bucket it finds ----

  /** A chain by its keys and MACs, from its head. */
  datatype Chain = End | Link(key: U32, mac: Mac, rest: Chain)

  function Find(c: Chain, k: U32): Option<Mac> {
    match c
    case End => None
    case Link(key, mac, rest) => if key == k then Some(mac) else Find(rest, k)
  }

  predicate Only(c: Chain, k: U32) {
    match c
    case End => true
    case Link(key, _, rest) => key == k && Only(rest, k)
  }

  lemma {:induction false} OtherFound(c: Chain, addr: U32) returns (k: U32)
    requires !Only(c, addr)
    ensures k != addr && Find(c, k).Some?
  {
    if c.key != addr {
      k := c.key;
    } else {
      k := OtherFound(c.rest, addr);
    }
  }

  lemma {:induction false} OthersMissing(c: Chain, addr: U32, k: U32)
    requires Only(c, addr) && k != addr
    ensures Find(c, k) == None
  {
    if c.Link? {
      OthersMissing(c.rest, addr, k);
    }
  }

  /** The first set links its entry in front of whatever its new table holds already. The cache then is the
      map of one address exactly if no other address can be found in that; a null bucket is such. */
  lemma FirstSetIff(addr: U32, mac: Mac, found: Chain)
    ensures (forall k: U32 :: Find(Link(addr, mac, found), k) == if k == addr then Some(mac) else None)
            <==> Only(found, addr)
    ensures Only(End, addr)
  {
    if Only(found, addr) {
      forall k: U32 | k != addr
        ensures Find(Link(addr, mac, found), k) == None
      {
        OthersMissing(found, addr, k);
      }
    } else {
      var k := OtherFound(found, addr);
      assert Find(Link(addr, mac, found), k) != None;
    }
  }

  // ---- The map over linked entries ----

  class Entry {
    const key: U32
    var mac: Mac
    var next: Entry?
    // Where the entry is linked: in which table, in which bucket, and how many entries follow it.
    ghost var table: nat
    ghost var bucket: nat
    ghost var depth: nat

    constructor (key: U32, mac: Mac, next: Entry?, ghost table: nat, ghost bucket: nat, ghost depth: nat)
      ensures this.key == key && this.mac == mac && this.next == next
      ensures this.table == table && this.bucket == bucket && this.depth == depth
    {
      this.key, this.mac, this.next := key, mac, next;
      this.table, this.bucket, this.depth := table, bucket, depth;
    }
  }

  /** chain[d] is linked in this bucket with the d entries chain[..d] after it. */
  ghost predicate LinkedAt(chain: seq<Entry>, d: nat, table: nat, bucket: nat)
    requires d < |chain|
    reads chain[d]
  {
    var e := chain[d];
    && e.table == table && e.bucket == bucket && e.depth == d
    && e.next == if d == 0 then null else chain[d - 1]
  }

  ghost function Head(chain: seq<Entry>): Entry? {
    if chain == [] then null else chain[|chain| - 1]
  }

  class Cache {
    var data: array<Entry?>
    var grown: array<Entry?>          // the new table, while rehashing
    var l: nat
    var cap: nat
    ghost var table: nat              // how many times the buckets were reallocated
    ghost var chains: seq<seq<Entry>> // each bucket's entries, the first linked first
    ghost var entries: set<Entry>
    ghost var owner: map<U32, Entry>  // the entry of each known address
    ghost var moved: seq<seq<Entry>>  // its chains

    ghost predicate Valid()
      reads `data, `l, `cap, `table, `chains, `entries, `owner, data, entries
    {
      && l == 0
      && owner.Values <= entries
      && data.Length == cap == |chains|
      && (forall b, d {:trigger EntryAt(b, d)} :: 0 <= b < cap && 0 <= d < |chains[b]| ==>
            chains[b][d] in entries && EntryAt(b, d))
      && (forall b :: 0 <= b < cap ==> data[b] == Head(chains[b]))
      && (forall k {:trigger Owned(k)} :: k in owner ==> Owned(k))
    }

    ghost predicate EntryAt(b: nat, d: nat)
      requires b < cap == |chains| && d < |chains[b]|
      reads `cap, `chains, `table, `owner, chains[b][d]
    {
      var e := chains[b][d];
      LinkedAt(chains[b], d, table, b) && b == Hash(e.key, cap) && e.key in owner && owner[e.key] == e
    }

    ghost predicate Owned(k: U32)
      requires k in owner
      reads `chains, `owner, owner[k]
    {
      var e := owner[k];
      && e.key == k
      && e.bucket < |chains|
      && e.depth < |chains[e.bucket]|
      && chains[e.bucket][e.depth] == e
    }

    /** The plain map this cache stands for. */
    ghost function Contents(): map<U32, Mac>
      requires Valid()
      reads this, data, entries
    {
      map k | k in owner :: owner[k].mac
    }

    constructor ()
      ensures Valid() && Contents() == map[] && cap == 0
      ensures fresh(data) && fresh(grown) && entries == {}
    {
      data := new Entry?[0];
      grown := new Entry?[0];
      l, cap := 0, 0;
      table, chains, entries, owner, moved := 0, [], {}, map[], [];
    }

    /** A known address is in the bucket of its hash. */
    lemma FoundInBucket(k: U32)
      requires Valid() && k in owner
      ensures cap > 0 && owner[k].depth < |chains[Hash(k, cap)]|
      ensures owner[k].key == k && chains[Hash(k, cap)][owner[k].depth] == owner[k]
    {
      assert Owned(k);
      assert EntryAt(owner[k].bucket, owner[k].depth);
    }

    /** Every linked entry is in the bucket of its hash and gives the MAC of its address. */
    lemma EntryCounts(b: nat, d: nat)
      requires Valid() && b < cap && d < |chains[b]|
      ensures var e := chains[b][d];
              b == Hash(e.key, cap) && e.key in Contents() && Contents()[e.key] == e.mac
    {
      assert EntryAt(b, d);
    }

    /** No key is linked twice. */
    lemma KeysUnique(b: nat, d: nat, b': nat, d': nat)
      requires Valid() && b < cap && d < |chains[b]| && b' < cap && d' < |chains[b']|
      requires chains[b][d].key == chains[b'][d'].key
      ensures b == b' && d == d'
    {
      assert EntryAt(b, d) && EntryAt(b', d');
    }

    method GetInternal(addr: U32) returns (ans: Entry?)
      requires Valid()
      ensures ans != null <==> addr in owner
      ensures ans != null ==> ans == owner[addr] && ans.key == addr
    {
      if addr in owner {
        FoundInBucket(addr);
      }
      if cap == 0 {
        return null;
      }
      var hsh := Hash(addr, cap);
      var x := data[hsh];
      ghost var j := |chains[hsh]|;
      assert chains[hsh][..j] == chains[hsh];
      while x != null
        invariant 0 <= j <= |chains[hsh]| && x == Head(chains[hsh][..j])
        invariant forall d :: j <= d < |chains[hsh]| ==> chains[hsh][d].key != addr
        decreases j
      {
        assert EntryAt(hsh, j - 1);
        if x.key == addr {
          return x;
        }
        x := x.next;
        j := j - 1;
      }
      return null;
    }

    method GetMac(addr: U32, mac: array<Byte>) returns (found: bool)
      requires Valid() && mac.Length == 6
      modifies mac
      ensures found <==> addr in old(Contents())
      ensures mac[..] == if found then old(Contents())[addr] else old(mac[..])
    {
      var ans := GetInternal(addr);
      if ans != null {
        for i := 0 to 6
          invariant mac[..i] == ans.mac[..i]
        {
          mac[i] := ans.mac[i];
        }
        return true;
      }
      return false;
    }

    // ---- Rehashing ----

    /** Entry d of bucket h of the new table. */
    ghost predicate NewAt(h: nat, d: nat)
      requires h < |moved| && d < |moved[h]|
      reads this, moved[h][d]
    {
      var e := moved[h][d];
      LinkedAt(moved[h], d, table + 1, h) && h == Hash(e.key, |moved|) && e.key in owner && owner[e.key] == e
    }

    /** The entry of k is in the new table, or still waits in bucket i below j or in a later bucket. */
    ghost predicate OwnedDuring(i: nat, j: nat, k: U32)
      requires k in owner
      reads this, owner[k]
    {
      var e := owner[k];
      && e.key == k
      && if e.table == table then
           && e.bucket < |chains| && e.depth < |chains[e.bucket]| && chains[e.bucket][e.depth] == e
           && (e.bucket > i || (e.bucket == i && e.depth < j))
         else
           e.bucket < |moved| && e.depth < |moved[e.bucket]| && moved[e.bucket][e.depth] == e
    }

    /** The entries that have not moved yet are where they were. */
    ghost predicate OldPart(i: nat, j: nat)
      reads this, data, entries
    {
      && l == 0
      && data.Length == cap == |chains| && (forall b :: 0 <= b < cap ==> data[b] == Head(chains[b]))
      && (forall b, d {:trigger EntryAt(b, d)} ::
            0 <= b < cap && 0 <= d < |chains[b]| && (b > i || (b == i && d < j)) ==>
            chains[b][d] in entries && EntryAt(b, d))
    }

    ghost predicate NewPart()
      reads this, entries, grown
    {
      && grown.Length == |moved| > 0 && (forall h :: 0 <= h < |moved| ==> grown[h] == Head(moved[h]))
      && (forall h, d {:trigger NewAt(h, d)} :: 0 <= h < |moved| && 0 <= d < |moved[h]| ==>
            moved[h][d] in entries && NewAt(h, d))
    }

    ghost predicate OwnerPart(i: nat, j: nat)
      reads this, entries
    {
      owner.Values <= entries && forall k {:trigger OwnedDuring(i, j, k)} :: k in owner ==> OwnedDuring(i, j, k)
    }

    /** Buckets before i and entries from j on of bucket i have moved to the new table. */
    ghost predicate Moving(i: nat, j: nat)
      reads this, data, entries, grown
    {
      OldPart(i, j) && NewPart() && OwnerPart(i, j)
    }

    /** Entry j-1 of bucket i was relinked in front of its bucket of the new table. */
    twostate predicate Relinked(new i: nat, new j: nat)
      reads this, entries, data, grown
    {
      && data == old(data) && grown == old(grown) && l == old(l) && cap == old(cap) && table == old(table)
      && chains == old(chains) && entries == old(entries) && owner == old(owner)
      && old(Moving(i, j)) && grown != data && data[..] == old(data[..])
      && i < cap && 0 < j <= |chains[i]| && chains[i][j - 1] in entries
      && var x := chains[i][j - 1];
      && var hsh := Hash(x.key, grown.Length);
      && (forall y :: y in entries && y != x ==>
            y.next == old(y.next) && y.table == old(y.table) && y.bucket == old(y.bucket) && y.depth == old(y.depth))
      && x.next == old(grown[hsh]) && x.table == table + 1 && x.bucket == hsh && x.depth == |old(moved)[hsh]|
      && grown[..] == old(grown[..])[hsh := x]
      && moved == old(moved)[hsh := old(moved)[hsh] + [x]]
    }

    twostate lemma RelinkedOld(new i: nat, new j: nat)
      requires Relinked(i, j)
      ensures OldPart(i, j - 1)
    {
      assert old(EntryAt(i, j - 1));
      assert forall b :: 0 <= b < cap ==> data[..][b] == old(data[..])[b];
      forall b, d | 0 <= b < cap && 0 <= d < |chains[b]| && (b > i || (b == i && d < j - 1))
        ensures chains[b][d] in entries && EntryAt(b, d)
      {
        assert old(EntryAt(b, d));
      }
    }

    twostate lemma RelinkedNew(new i: nat, new j: nat)
      requires Relinked(i, j)
      ensures NewPart()
    {
      var was, hsh := old(moved), chains[i][j - 1].bucket;
      assert old(EntryAt(i, j - 1));
      assert forall h :: 0 <= h < |moved| && h != hsh ==> grown[..][h] == old(grown[..])[h];
      assert grown[..][hsh] == chains[i][j - 1];
      forall h, d | 0 <= h < |moved| && 0 <= d < |moved[h]|
        ensures moved[h][d] in entries && NewAt(h, d)
      {
        if d < |was[h]| {
          assert old(NewAt(h, d));
        }
      }
    }

    twostate lemma RelinkedOwner(new i: nat, new j: nat)
      requires Relinked(i, j)
      ensures OwnerPart(i, j - 1)
    {
      assert old(EntryAt(i, j - 1));
      forall k | k in owner
        ensures OwnedDuring(i, j - 1, k)
      {
        assert old(OwnedDuring(i, j, k));
      }
    }

    /** Relinks one entry into the new table, in place. */
    method MoveEntry(x: Entry, ghost i: nat, ghost j: nat)
      requires grown != data && Moving(i, j) && i < cap && 0 < j <= |chains[i]| && x == chains[i][j - 1]
      modifies this`moved, grown, x
      ensures Moving(i, j - 1) && x.mac == old(x.mac)
    {
      assert EntryAt(i, j - 1);
      var hsh := Hash(x.key, grown.Length);
      x.next := grown[hsh];
      grown[hsh] := x;
      x.table, x.bucket, x.depth := table + 1, hsh, |moved[hsh]|;
      moved := moved[hsh := moved[hsh] + [x]];
      assert grown[..] == old(grown[..])[hsh := x];
      RelinkedOld(i, j);
      RelinkedNew(i, j);
      RelinkedOwner(i, j);
    }

    ghost function Macs(): map<Entry, Mac>
      reads this, entries
    {
      map e | e in entries :: e.mac
    }

    lemma NextBucket(i: nat)
      requires i < cap && Moving(i, 0)
      ensures Moving(i + 1, if i + 1 < cap then |chains[i + 1]| else 0)
    {
      var n := if i + 1 < cap then |chains[i + 1]| else 0;
      forall b, d | i + 1 <= b < cap && 0 <= d < |chains[b]|
        ensures chains[b][d] in entries && EntryAt(b, d)
      {
        assert EntryAt(b, d);
      }
      forall k | k in owner
        ensures OwnedDuring(i + 1, n, k)
      {
        OwnedNext(i, k);
      }
    }

    lemma OwnedNext(i: nat, k: U32)
      requires i < cap == |chains| && k in owner && OwnedDuring(i, 0, k)
      ensures OwnedDuring(i + 1, if i + 1 < cap then |chains[i + 1]| else 0, k)
    {
    }

    lemma NothingMoved()
      requires Valid() && grown.Length == |moved| > 0
      requires forall h :: 0 <= h < |moved| ==> moved[h] == [] && grown[h] == null
      ensures Moving(0, if 0 < cap then |chains[0]| else 0)
    {
      forall b, d | 0 <= b < cap && 0 <= d < |chains[b]|
        ensures chains[b][d] in entries && EntryAt(b, d)
      {
        assert EntryAt(b, d);
      }
      forall k | k in owner
        ensures OwnedDuring(0, if 0 < cap then |chains[0]| else 0, k)
      {
        assert Owned(k);
        assert EntryAt(owner[k].bucket, owner[k].depth);
      }
    }

    /** The new table, zero-filled. */
    method NewTable(ll: nat)
      requires Valid() && ll > 0
      modifies `grown, `moved
      ensures Valid() && fresh(grown) && grown.Length == |moved| == ll
      ensures forall h :: 0 <= h < |moved| ==> moved[h] == [] && grown[h] == null
    {
      grown := new Entry?[ll](_ => null);
      moved := seq(ll, _ => []);
    }

    method MoveBucket(i: nat)
      requires i < cap == |chains| && grown != data && Moving(i, |chains[i]|)
      modifies `moved, grown, entries
      ensures Moving(i, 0) && Macs() == old(Macs()) && |moved| == old(|moved|)
    {
      var x := data[i];
      ghost var j := |chains[i]|;
      assert chains[i][..j] == chains[i];
      while x != null
        invariant 0 <= j <= |chains[i]| && x == Head(chains[i][..j])
        invariant Moving(i, j) && Macs() == old(Macs()) && |moved| == old(|moved|)
        decreases j
      {
        assert EntryAt(i, j - 1);
        var next := x.next;
        MoveEntry(x, i, j);
        x := next;
        j := j - 1;
      }
    }

    lemma AllMoved()
      requires Moving(cap, 0)
      ensures forall h, d {:trigger NewAt(h, d)} :: 0 <= h < |moved| && 0 <= d < |moved[h]| ==>
                moved[h][d] in entries && NewAt(h, d)
      ensures forall k {:trigger OwnedDuring(cap, 0, k)} :: k in owner ==>
                OwnedDuring(cap, 0, k) && owner[k].table != table
    {
      forall h, d | 0 <= h < |moved| && 0 <= d < |moved[h]|
        ensures moved[h][d] in entries && NewAt(h, d)
      {
        assert NewAt(h, d);
      }
      forall k | k in owner
        ensures OwnedDuring(cap, 0, k) && owner[k].table != table
      {
        assert OwnedDuring(cap, 0, k);
      }
    }

    method FinishMoving()
      requires Moving(cap, 0)
      modifies `data, `cap, `chains, `table
      ensures Valid() && data == grown && cap == |moved|
    {
      AllMoved();
      data, cap, chains, table := grown, grown.Length, moved, table + 1;
      forall b, d | 0 <= b < cap && 0 <= d < |chains[b]|
        ensures chains[b][d] in entries && EntryAt(b, d)
      {
        assert old(NewAt(b, d));
      }
      forall k | k in owner
        ensures Owned(k)
      {
        assert old(OwnedDuring(cap, 0, k));
      }
    }

    /** The rehash loop: every entry is relinked, in place, into a table of any other size; the cache
        keeps the same entries under the same keys. */
    method Rehash(ll: nat)
      requires Valid() && ll > 0
      modifies this, entries
      ensures Valid() && cap == ll && l == old(l) && fresh(data)
      ensures entries == old(entries) && owner == old(owner) && Macs() == old(Macs())
    {
      NewTable(ll);
      NothingMoved();
      for i := 0 to cap
        invariant cap == old(cap) && l == old(l) && data == old(data) && chains == old(chains) && table == old(table)
        invariant entries == old(entries) && owner == old(owner) && fresh(grown) && |moved| == ll
        invariant Moving(i, if i < cap then |chains[i]| else 0)
        invariant Macs() == old(Macs())
      {
        MoveBucket(i);
        NextBucket(i);
      }
      FinishMoving();
    }

    // ---- Setting ----

    /** Valid depends on how entries are linked, not on their MACs. */
    twostate lemma LinksKept()
      requires old(Valid()) && data == old(data) && l == old(l) && cap == old(cap) && table == old(table)
      requires chains == old(chains) && entries == old(entries) && owner == old(owner) && data[..] == old(data[..])
      requires forall e :: e in entries ==>
                 && e.next == old(e.next) && e.table == old(e.table)
                 && e.bucket == old(e.bucket) && e.depth == old(e.depth)
      ensures Valid()
    {
      assert forall b :: 0 <= b < cap ==> data[..][b] == old(data[..])[b];
      forall b, d | 0 <= b < cap && 0 <= d < |chains[b]|
        ensures chains[b][d] in entries && EntryAt(b, d)
      {
        assert old(EntryAt(b, d));
      }
      forall k | k in owner
        ensures Owned(k)
      {
        assert old(Owned(k));
      }
    }

    /** Each entry belongs to one address. */
    lemma OwnerInjective(k: U32, k': U32)
      requires Valid() && k in owner && k' in owner && owner[k] == owner[k']
      ensures k == k'
    {
      assert Owned(k) && Owned(k');
    }

    /** Overwrites the MAC of a known address, byte by byte. */
    method Overwrite(addr: U32, ans: Entry, mac: Mac)
      requires Valid() && addr in owner && ans == owner[addr]
      modifies ans
      ensures Valid() && Contents() == old(Contents())[addr := mac]
    {
      assert forall k :: k in owner && owner[k] == ans ==> k == addr by {
        forall k | k in owner && owner[k] == ans
          ensures k == addr
        {
          OwnerInjective(k, addr);
        }
      }
      for i := 0 to 6
        invariant ans.next == old(ans.next) && ans.table == old(ans.table)
        invariant ans.bucket == old(ans.bucket) && ans.depth == old(ans.depth)
        invariant ans.mac[..i] == mac[..i]
      {
        ans.mac := ans.mac[i := mac[i]];
      }
      assert ans.mac == mac;
      LinksKept();
    }

    twostate predicate Prepended(new addr: U32, new hsh: nat, new cur: Entry)
      reads this, data, entries, cur
    {
      && data == old(data) && l == old(l) && cap == old(cap) && table == old(table)
      && old(Valid()) && cap > 0 && hsh == Hash(addr, cap) && cur.key == addr && addr !in old(owner)
      && cur !in old(entries) && entries == old(entries) + {cur} && owner == old(owner)[addr := cur]
      && data[..] == old(data[..])[hsh := cur] && chains == old(chains)[hsh := old(chains)[hsh] + [cur]]
      && (forall e :: e in old(entries) ==>
            e.next == old(e.next) && e.table == old(e.table) && e.bucket == old(e.bucket) && e.depth == old(e.depth))
      && cur.next == Head(old(chains)[hsh])
      && cur.table == table && cur.bucket == hsh && cur.depth == |old(chains)[hsh]|
    }

    twostate lemma PrependedValid(new addr: U32, new hsh: nat, new cur: Entry)
      requires Prepended(addr, hsh, cur)
      ensures Valid()
    {
      assert forall b :: 0 <= b < cap && b != hsh ==> data[..][b] == old(data[..])[b];
      assert data[..][hsh] == cur;
      forall b, d | 0 <= b < cap && 0 <= d < |chains[b]|
        ensures chains[b][d] in entries && EntryAt(b, d)
      {
        if d < |old(chains)[b]| {
          assert old(EntryAt(b, d));
        }
      }
      forall k | k in owner
        ensures Owned(k)
      {
        if k != addr {
          assert old(Owned(k));
        }
      }
    }

    /** Links a new entry in front of its bucket. */
    method Insert(addr: U32, mac: Mac)
      requires Valid() && addr !in owner && cap > 0
      modifies data, `chains, `entries, `owner
      ensures Valid() && fresh(entries - old(entries)) && old(entries) <= entries
      ensures Contents() == old(Contents())[addr := mac]
    {
      var hsh := Hash(addr, cap);
      var cur := new Entry(addr, mac, data[hsh], table, hsh, |chains[hsh]|);
      data[hsh] := cur;
      chains := chains[hsh := chains[hsh] + [cur]];
      entries := entries + {cur};
      owner := owner[addr := cur];
      assert data[..] == old(data[..])[hsh := cur];
      PrependedValid(addr, hsh, cur);
    }

    method SetMac(addr: U32, mac: Mac)
      requires Valid()
      modifies this, data, entries
      ensures Valid() && Contents() == old(Contents())[addr := mac]
      ensures cap == if old(cap) == 0 then 1 else old(cap)
      ensures fresh(entries - old(entries)) && (data == old(data) || fresh(data))
    {
      var ans := GetInternal(addr);
      if ans != null {
        FoundInBucket(addr);
        Overwrite(addr, ans, mac);
        return;
      }
      if l == 2 * cap {
        ghost var macs := Macs();
        Rehash(2 * cap + 1);
        assert forall k :: k in owner ==> owner[k] in macs && owner[k].mac == macs[owner[k]];
      }
      Insert(addr, mac);
    }
  }
}
