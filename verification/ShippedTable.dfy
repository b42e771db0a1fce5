/**
 A search of the symbol table as it ships. Two neighbouring rows are out of order, and that costs exactly
 two names their right answer.
 */
module ShippedTable {
  import opened Options
  import opened SymbolLookup
  import opened ShippedRows

  const GETPID: CStr := "getpid"
  const GETPEERNAME: CStr := "getpeername"
  const GETPIERNAME: CStr := "getpiername"

  /** The rows around the place. */
  ghost predicate OutOfPlace(t: Table) {
    && t[43] == "getopt" && t[44] == GETPID && t[45] == GETPEERNAME && t[46] == "getsockname"
    && forall i {:trigger t[i]} :: 0 <= i < 116 && !(43 <= i <= 45) ==> Less(t[i], t[i + 1])
  }

  lemma ShippedIsOutOfPlace(t: Table)
    requires Shipped(t)
    ensures OutOfPlace(t)
  {
    Ascends(t);
  }

  /** The table with the two rows exchanged. */
  function Exchanged(t: Table): Table {
    t[44 := t[45]][45 := t[44]]
  }

  /** a and b agree up to k, and there a is below. */
  lemma Below(a: CStr, b: CStr, k: nat)
    requires k <= |a| && k <= |b| && (forall i :: 0 <= i < k ==> a[i] == b[i]) && At(a, k) < At(b, k)
    ensures Less(a, b)
  {
    assert a[..k] == b[..k];
    assert LessAt(a, b, k);
  }

  lemma AroundExchanged(t: Table)
    requires OutOfPlace(t)
    ensures Less(t[43], t[45]) && Less(t[45], t[44]) && Less(t[44], t[46])
  {
    Below(t[43], t[45], 3);
    Below(t[45], t[44], 4);
    Below(t[44], t[46], 3);
  }

  lemma AroundMisread(t: Table)
    requires OutOfPlace(t)
    ensures Less(t[43], t[44]) && Less(t[44], GETPIERNAME) && Less(GETPIERNAME, t[46])
  {
    Below(t[43], t[44], 3);
    Below(t[44], GETPIERNAME, 5);
    Below(GETPIERNAME, t[46], 3);
  }

  lemma ExchangedIsSorted(t: Table)
    requires OutOfPlace(t)
    ensures Sorted(Exchanged(t))
  {
    var u := Exchanged(t);
    AroundExchanged(t);
    forall i | 0 < i < |u|
      ensures Less(u[i - 1], u[i])
    {
      assert !(44 <= i <= 46) ==> Less(t[i - 1], t[i - 1 + 1]);
    }
    AscendingIsSorted(u);
  }

  /** The table that has, in its 45th row, what a search that comes there reads. */
  function Misread(t: Table): Table {
    t[45 := GETPIERNAME]
  }

  lemma MisreadIsSorted(t: Table)
    requires OutOfPlace(t)
    ensures Sorted(Misread(t))
  {
    var u := Misread(t);
    AroundMisread(t);
    forall i | 0 < i < |u|
      ensures Less(u[i - 1], u[i])
    {
      assert !(44 <= i <= 46) ==> Less(t[i - 1], t[i - 1 + 1]);
    }
    AscendingIsSorted(u);
  }

  /** The names between the two rows: they start like both, and their next character separates the rows. */
  predicate Between(name: CStr) {
    |name| > 4 && name[..4] == "getp" && 'e' <= name[4] <= 'i'
  }

  /** The two rows are in each other's way in their fifth column only, and only for a name between them. */
  lemma PairFits(name: CStr, t: Table, k: nat)
    requires OutOfPlace(t) && k <= |name| && (k == 4 ==> !Between(name))
    requires HasPrefix(t[44], name, k) && HasPrefix(t[45], name, k)
    ensures Class(At(t[44], k), At(name, k)) <= Class(At(t[45], k), At(name, k))
  {
    if k > 4 {
      PrefixShrinks(t[44], name, 4, k);
      PrefixShrinks(t[45], name, 4, k);
    } else if k == 4 {
      assert name[..4] == "getp";
    }
  }

  lemma ColumnsFit(name: CStr, t: Table, k: nat)
    requires OutOfPlace(t) && k <= |name| && (k == 4 ==> !Between(name))
    ensures ColumnFits(name, t, k)
  {
    var u := Exchanged(t);
    ExchangedIsSorted(t);
    forall i, j | 0 <= i < j < |t| && HasPrefix(t[i], name, k) && HasPrefix(t[j], name, k)
      ensures Class(At(t[i], k), At(name, k)) <= Class(At(t[j], k), At(name, k))
    {
      if i == 44 && j == 45 {
        PairFits(name, t, k);
      } else {
        var i', j' := Moved(i), Moved(j);
        assert u[i'] == t[i] && u[j'] == t[j] && i' < j';
        assert u[i'] == u[j'] || Less(u[i'], u[j']);
        ColumnAscends(name, k, t[i], t[j]);
      }
    }
  }

  /** Where a row goes when the two are exchanged. */
  function Moved(i: nat): nat {
    if i == 44 then 45 else if i == 45 then 44 else i
  }

  /** Every name not between the two rows is answered rightly. */
  lemma OthersAreFound(name: CStr, t: Table)
    requires OutOfPlace(t) && !Between(name)
    ensures Fits(name, t) && Lowest(name, t, Search(name, t, 0, 0, |t|))
  {
    forall k | 0 <= k <= |name|
      ensures ColumnFits(name, t, k)
    {
      ColumnsFit(name, t, k);
    }
    FittingTableIsSearched(name, t);
  }

  lemma OnlyTheTwoFit(name: CStr, t: Table)
    requires OutOfPlace(t) && Between(name)
    ensures HasPrefix(t[44], name, 4) && HasPrefix(t[45], name, 4)
    ensures !HasPrefix(t[43], name, 4) && !HasPrefix(t[46], name, 4)
  {
    assert t[43][..4][3] != name[..4][3];
    assert t[46][..4][3] != name[..4][3];
  }

  /** For a name between them, the search comes down to the two rows after four characters. */
  lemma ComesToTheTwo(name: CStr, t: Table)
    requires OutOfPlace(t) && Between(name)
    ensures Search(name, t, 0, 0, |t|) == Search(name, t, 4, 44, 46) && Candidates(name, t, 4, 44, 46)
  {
    forall k | 0 <= k < 4
      ensures ColumnFits(name, t, k)
    {
      ColumnsFit(name, t, k);
    }
    OnlyTheTwoFit(name, t);
    var start, end := SearchReaches(name, t, 0, 0, |t|, 4, 44);
    assert start == 44 && end == 46;
  }

  ghost predicate TwoRows(t: Table) {
    |t[44]| == 6 && |t[45]| == 11 && t[44][4] == 'i' && t[45][4] == 'e'
  }

  /** A search for a name before "getpi" gives up at the first of them. */
  lemma GivesUp(name: CStr, t: Table)
    requires TwoRows(t) && Between(name) && name[4] < 'i'
    ensures Search(name, t, 4, 44, 46) == Miss
  {
    var c := At(name, 4);
    assert Bisect(t, 4, c, false, 43, 46) == Bisect(t, 4, c, false, 43, 44) == Some(44);
  }

  /** With "getpi" both stay candidates, though the second has another character there. */
  lemma KeepsBoth(name: CStr, t: Table)
    requires TwoRows(t) && Between(name) && name[4] == 'i'
    ensures Search(name, t, 4, 44, 46) == Search(name, t, 5, 44, 46)
  {
    var c := At(name, 4);
    assert Bisect(t, 4, c, false, 43, 46) == Bisect(t, 4, c, false, 43, 44) == Some(44);
    assert Bisect(t, 4, c, true, 43, 46) == Bisect(t, 4, c, true, 44, 46) == Bisect(t, 4, c, true, 45, 46) == Some(46);
  }

  /** Two tables that agree in the rows looked at from some column on. */
  ghost predicate SameFrom(t: Table, u: Table, idx: nat, start: nat, end: nat) {
    start <= end <= 117 && forall i :: start <= i < end ==>
      |t[i]| == |u[i]| && forall k :: idx <= k < |t[i]| ==> t[i][k] == u[i][k]
  }

  lemma {:induction false} BisectSame(t: Table, u: Table, idx: nat, c: int, upper: bool, l: int, h: int)
    requires -1 <= l < h <= 117 && SameFrom(t, u, idx, l + 1, h)
    ensures Bisect(t, idx, c, upper, l, h) == Bisect(u, idx, c, upper, l, h)
    decreases h - l
  {
    if h - l > 1 {
      var m := (l + h) / 2;
      BisectSame(t, u, idx, c, upper, m, h);
      BisectSame(t, u, idx, c, upper, l, m);
    }
  }

  lemma ColumnSame(name: CStr, t: Table, u: Table, idx: nat, start: nat, end: nat)
    requires idx <= |name| && SameFrom(t, u, idx, start, end)
    ensures Column(name, t, idx, start, end) == Column(name, u, idx, start, end)
  {
    var c := At(name, idx);
    BisectSame(t, u, idx, c, false, start - 1, end);
    var r := Bisect(t, idx, c, false, start - 1, end);
    if r.Some? && r.value < end {
      BisectSame(t, u, idx, c, true, r.value - 1, end);
    }
  }

  lemma {:induction false} SearchSame(name: CStr, t: Table, u: Table, idx: nat, start: nat, end: nat)
    requires idx <= |name| && SameFrom(t, u, idx, start, end)
    ensures Search(name, t, idx, start, end) == Search(name, u, idx, start, end)
    decreases |name| - idx
  {
    ColumnSame(name, t, u, idx, start, end);
    var turn := Column(name, t, idx, start, end);
    if turn.GoOn? {
      SearchSame(name, t, u, idx + 1, turn.h, turn.e);
    }
  }

  /** From there on the search runs as if the second row were "getpiername". */
  lemma ReadsOn(name: CStr, t: Table)
    requires OutOfPlace(t) && Between(name) && name[4] == 'i' && Candidates(name, t, 4, 44, 46)
    ensures Lowest(name, Misread(t), Search(name, t, 5, 44, 46))
  {
    var u := Misread(t);
    assert t[45][5..] == u[45][5..];
    assert SameFrom(t, u, 5, 44, 46) by {
      forall k | 5 <= k < |t[45]|
        ensures t[45][k] == u[45][k]
      {
        assert t[45][k] == t[45][5..][k - 5];
      }
    }
    SearchSame(name, t, u, 5, 44, 46);
    forall i | 0 <= i < |u|
      ensures 44 <= i < 46 <==> HasPrefix(u[i], name, 5)
    {
      if HasPrefix(u[i], name, 5) {
        PrefixShrinks(u[i], name, 4, 5);
        assert HasPrefix(t[i], name, 4) || i == 45;
      }
      if 44 <= i < 46 {
        assert u[i][..5] == u[i][..4] + [u[i][4]] == name[..4] + [name[4]] == name[..5];
      }
    }
    MisreadIsSorted(t);
    SortedFits(name, u);
    SearchFinds(name, u, 5, 44, 46);
  }

  lemma OnlyTheTwo(name: CStr, t: Table)
    requires Between(name) && Candidates(name, t, 4, 44, 46) && name in t
    ensures name == t[44] || name == t[45]
  {
    var i :| 0 <= i < |t| && t[i] == name;
    assert HasPrefix(t[i], name, 4);
  }

  lemma MisreadAnswers(name: CStr, t: Table, r: Outcome)
    requires OutOfPlace(t) && Between(name) && name[4] == 'i' && Lowest(name, Misread(t), r)
    ensures name != GETPIERNAME ==> Lowest(name, t, r)
    ensures name == GETPIERNAME && name !in t ==> r == Hit(45)
  {
    var u := Misread(t);
    assert t[45][4] != name[4];
    assert forall i :: 0 <= i < 117 && i != 45 ==> u[i] == t[i];
    forall i | 0 <= i < 117 && t[i] == name
      ensures name in u
    {
      assert u[i] == name;
    }
    assert u[45] == GETPIERNAME;
  }

  lemma TwoRowsAre(t: Table)
    requires OutOfPlace(t)
    ensures TwoRows(t) && t[45] == GETPEERNAME
  {
  }

  lemma LowNames(name: CStr, t: Table)
    requires TwoRows(t) && Between(name) && name[4] < 'i' && Candidates(name, t, 4, 44, 46)
    ensures name in t <==> name == t[45]
  {
    if name in t {
      OnlyTheTwo(name, t);
    }
  }

  lemma HighNames(name: CStr, t: Table)
    requires TwoRows(t) && Between(name) && name[4] == 'i' && Candidates(name, t, 4, 44, 46)
    ensures name in t ==> |name| == 6
  {
    if name in t {
      OnlyTheTwo(name, t);
    }
  }

  /** The names between the two rows, apart from "getpi" and what follows. */
  lemma LowDamage(name: CStr, t: Table)
    requires OutOfPlace(t) && Between(name) && name[4] < 'i'
    ensures Search(name, t, 0, 0, |t|) == Miss && (name in t <==> name == GETPEERNAME)
  {
    ComesToTheTwo(name, t);
    TwoRowsAre(t);
    GivesUp(name, t);
    LowNames(name, t);
  }

  lemma HighSearch(name: CStr, t: Table)
    requires OutOfPlace(t) && Between(name) && name[4] == 'i'
    ensures Lowest(name, Misread(t), Search(name, t, 0, 0, |t|))
    ensures name in t ==> |name| == 6
  {
    ComesToTheTwo(name, t);
    TwoRowsAre(t);
    KeepsBoth(name, t);
    ReadsOn(name, t);
    HighNames(name, t);
  }

  lemma HighDamage(name: CStr, t: Table)
    requires OutOfPlace(t) && Between(name) && name[4] == 'i'
    ensures name != GETPIERNAME ==> Lowest(name, t, Search(name, t, 0, 0, |t|))
    ensures name == GETPIERNAME ==> name !in t && Search(name, t, 0, 0, |t|) == Hit(45)
  {
    HighSearch(name, t);
    MisreadAnswers(name, t, Search(name, t, 0, 0, |t|));
  }

  lemma BothBetween()
    ensures Between(GETPEERNAME) && GETPEERNAME[4] == 'e' && Between(GETPIERNAME) && GETPIERNAME[4] == 'i'
  {
  }

  lemma DamageIs(name: CStr, t: Table)
    requires OutOfPlace(t)
    ensures Lowest(name, t, Search(name, t, 0, 0, |t|)) <==> name != GETPEERNAME && name != GETPIERNAME
    ensures name == GETPEERNAME ==> name in t && Search(name, t, 0, 0, |t|) == Miss
    ensures name == GETPIERNAME ==> name !in t && Search(name, t, 0, 0, |t|) == Hit(45)
  {
    BothBetween();
    if !Between(name) {
      OthersAreFound(name, t);
    } else if name[4] < 'i' {
      LowDamage(name, t);
    } else {
      HighDamage(name, t);
    }
  }

  /** The exact damage: of all names, in the table or not, a search of the shipped table answers all
      rightly but two. It misses getpeername, which is there, and takes getpiername, which is not, for it. */
  lemma ShippedTableIsSearchedIff(name: CStr, t: Table)
    requires Shipped(t)
    ensures Lowest(name, t, Search(name, t, 0, 0, |t|)) <==> name != GETPEERNAME && name != GETPIERNAME
    ensures name == GETPEERNAME ==> name in t && Search(name, t, 0, 0, |t|) == Miss
    ensures name == GETPIERNAME ==> name !in t && Search(name, t, 0, 0, |t|) == Hit(45)
    ensures !Sorted(t)
  {
    ShippedIsOutOfPlace(t);
    DamageIs(name, t);
    if Sorted(t) {
      SortedTableIsSearched(GETPEERNAME, t);
      DamageIs(GETPEERNAME, t);
    }
  }
}
