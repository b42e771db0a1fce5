/**
 The symbol table search: a binary search for a name one character at a time, that narrows the range
 of candidates from both sides at each character.
 */
module SymbolLookup {
  import opened Options

  /** A C string: the terminating NUL is not part of it. */
  type CStr = s: string | forall i :: 0 <= i < |s| ==> 0 < s[i] as int < 0x100

  /** s[i] as a signed char, the terminator included. */
  function At(s: CStr, i: nat): int
    requires i <= |s|
  {
    if i == |s| then 0 else if s[i] as int < 0x80 then s[i] as int else s[i] as int - 0x100
  }

  /** It is the number from -128 to 127 that the byte stands for, and 0 at the end. */
  lemma AtIsSigned(s: CStr, i: nat)
    requires i <= |s|
    ensures -0x80 <= At(s, i) < 0x80 && (At(s, i) == 0 <==> i == |s|)
    ensures i < |s| ==> (s[i] as int - At(s, i)) % 0x100 == 0
  {
  }

  /** A symbol found, none, or a read behind the end of a name. */
  datatype Outcome = Hit(i: nat) | Miss | Fault

  predicate Right(t: seq<CStr>, idx: nat, c: int, upper: bool, m: nat)
    requires m < |t| && idx <= |t[m]|
  {
    if upper then At(t[m], idx) <= c else At(t[m], idx) < c
  }

  /** One inner loop from bounds l and h: the final h, or None if it read behind a name's end. */
  function Bisect(t: seq<CStr>, idx: nat, c: int, upper: bool, l: int, h: int): (r: Option<int>)
    requires -1 <= l < h <= |t|
    ensures r.Some? ==> l < r.value <= h
    decreases h - l
  {
    if h - l <= 1 then Some(h)
    else
      var m := (l + h) / 2;
      if idx > |t[m]| then None
      else if Right(t, idx, c, upper, m) then Bisect(t, idx, c, upper, m, h)
      else Bisect(t, idx, c, upper, l, m)
  }

  /** What one character decides: the search is over, or goes on among h..e. */
  datatype Turn = Stop(outcome: Outcome) | GoOn(h: nat, e: nat)

  function Column(name: CStr, t: seq<CStr>, idx: nat, start: nat, end: nat): (r: Turn)
    requires idx <= |name| && start <= end <= |t|
    ensures r.GoOn? ==> idx < |name| && start <= r.h <= r.e <= end
  {
    var c := At(name, idx);
    match Bisect(t, idx, c, false, start - 1, end)
    case None => Stop(Fault)
    case Some(h) =>
      if h == end then Stop(Miss)
      else if idx > |t[h]| then Stop(Fault)
      else if At(t[h], idx) > c then Stop(Miss)
      else if c == 0 then Stop(Hit(h))
      else match Bisect(t, idx, c, true, h - 1, end)
        case None => Stop(Fault)
        case Some(e) => GoOn(h, e)
  }

  /** The search from character idx on, among the symbols start..end. */
  function Search(name: CStr, t: seq<CStr>, idx: nat, start: nat, end: nat): Outcome
    requires idx <= |name| && start <= end <= |t|
    decreases |name| - idx
  {
    match Column(name, t, idx, start, end)
    case Stop(outcome) => outcome
    case GoOn(h, e) => Search(name, t, idx + 1, h, e)
  }

  /** One of the two inner loops, which differ in their test: no character is read before its bound
      was checked. */
  method BisectLoop(symbols: seq<CStr>, idx: nat, c: int, upper: bool, start: nat, end: nat) returns (r: Option<int>)
    requires start <= end <= |symbols|
    ensures r == Bisect(symbols, idx, c, upper, start - 1, end)
  {
    var l, h := start - 1, end;
    while h - l > 1
      invariant start - 1 <= l < h <= end
      invariant Bisect(symbols, idx, c, upper, l, h) == Bisect(symbols, idx, c, upper, start - 1, end)
      decreases h - l
    {
      var m := (l + h) / 2;
      if idx > |symbols[m]| {
        return None;
      }
      if if upper then At(symbols[m], idx) > c else At(symbols[m], idx) >= c {
        h := m;
      } else {
        l := m;
      }
    }
    return Some(h);
  }

  /** One turn of the outer loop: both inner loops on one character. */
  method ColumnLoop(name: CStr, symbols: seq<CStr>, idx: nat, start: nat, end: nat) returns (r: Turn)
    requires idx <= |name| && start <= end <= |symbols|
    ensures r == Column(name, symbols, idx, start, end)
  {
    var h := BisectLoop(symbols, idx, At(name, idx), false, start, end);
    if h == None || (h.value < end && idx > |symbols[h.value]|) {
      return Stop(Fault);
    }
    if h.value == end || At(symbols[h.value], idx) > At(name, idx) {
      return Stop(Miss);
    }
    if At(name, idx) == 0 {
      return Stop(Hit(h.value));
    }
    var e := BisectLoop(symbols, idx, At(name, idx), true, h.value, end);
    if e == None {
      return Stop(Fault);
    }
    r := GoOn(h.value, e.value);
  }

  method LookupIn(name: CStr, symbols: seq<CStr>) returns (r: Outcome)
    ensures r == Search(name, symbols, 0, 0, |symbols|)
  {
    var start, end, idx := 0, |symbols|, 0;
    while true
      invariant 0 <= start <= end <= |symbols| && 0 <= idx <= |name|
      invariant Search(name, symbols, idx, start, end) == Search(name, symbols, 0, 0, |symbols|)
      decreases |name| - idx
    {
      var turn := ColumnLoop(name, symbols, idx, start, end);
      match turn
      case Stop(outcome) => return outcome;
      case GoOn(h, e) => start, end, idx := h, e, idx + 1;
    }
  }

  // ---- What it finds ----

  ghost predicate HasPrefix(s: CStr, name: CStr, idx: nat)
    requires idx <= |name|
  {
    idx <= |s| && s[..idx] == name[..idx]
  }

  /** Below, at or above c. */
  function Class(x: int, c: int): int {
    if x < c then -1 else if x == c then 0 else 1
  }

  /** Among the symbols that agree with the name up to idx, those whose next character is below the name's
      come first, then those where it is the same, then those above. */
  ghost predicate ColumnFits(name: CStr, t: seq<CStr>, idx: nat)
    requires idx <= |name|
  {
    forall i, j {:trigger HasPrefix(t[i], name, idx), HasPrefix(t[j], name, idx)} ::
      0 <= i < j < |t| && HasPrefix(t[i], name, idx) && HasPrefix(t[j], name, idx) ==>
        Class(At(t[i], idx), At(name, idx)) <= Class(At(t[j], idx), At(name, idx))
  }

  /** The table is in order as far as a search for this name is concerned. */
  ghost predicate Fits(name: CStr, t: seq<CStr>) {
    FitsFrom(name, t, 0)
  }

  /** start..end are exactly the symbols that agree with the name up to idx. */
  ghost predicate Candidates(name: CStr, t: seq<CStr>, idx: nat, start: nat, end: nat)
    requires idx <= |name|
  {
    start <= end <= |t| && forall i {:trigger HasPrefix(t[i], name, idx)} :: 0 <= i < |t| ==>
      (start <= i < end <==> HasPrefix(t[i], name, idx))
  }

  /** Where the classes ascend, one inner loop ends at the first symbol that is not to the left. */
  lemma {:induction false} BisectSplits(t: seq<CStr>, idx: nat, c: int, upper: bool, l: int, h: int)
    requires -1 <= l < h <= |t|
    requires forall i :: l < i < h ==> idx <= |t[i]|
    requires forall i, j :: l < i <= j < h ==> Class(At(t[i], idx), c) <= Class(At(t[j], idx), c)
    ensures var r := Bisect(t, idx, c, upper, l, h);
            r.Some? && forall i :: l < i < h ==> (i < r.value <==> Right(t, idx, c, upper, i))
    decreases h - l
  {
    if h - l > 1 {
      var m := (l + h) / 2;
      if Right(t, idx, c, upper, m) {
        BisectSplits(t, idx, c, upper, m, h);
      } else {
        BisectSplits(t, idx, c, upper, l, m);
      }
    }
  }

  ghost predicate Lowest(name: CStr, t: seq<CStr>, r: Outcome) {
    match r
    case Hit(i) => i < |t| && t[i] == name && forall j :: 0 <= j < i ==> t[j] != name
    case Miss => name !in t
    case Fault => false
  }

  /** The classes of a column ascend, and h is where those below the name's character end. */
  ghost predicate SplitAt(name: CStr, t: seq<CStr>, idx: nat, start: nat, end: nat, h: nat)
    requires idx <= |name| && end <= |t|
  {
    && start <= h <= end
    && (forall i :: start <= i < end ==> idx <= |t[i]| && (i < h <==> At(t[i], idx) < At(name, idx)))
    && (forall i, j :: start <= i <= j < end ==>
          Class(At(t[i], idx), At(name, idx)) <= Class(At(t[j], idx), At(name, idx)))
  }

  /** One character's narrowing: the first candidate whose character is not below the name's. */
  lemma FirstFit(name: CStr, t: seq<CStr>, idx: nat, start: nat, end: nat) returns (h: nat)
    requires idx <= |name| && ColumnFits(name, t, idx) && Candidates(name, t, idx, start, end)
    ensures Bisect(t, idx, At(name, idx), false, start - 1, end) == Some(h) && SplitAt(name, t, idx, start, end, h)
  {
    forall i | start <= i < end
      ensures idx <= |t[i]|
    {
      assert HasPrefix(t[i], name, idx);
    }
    forall i, j | start <= i <= j < end
      ensures Class(At(t[i], idx), At(name, idx)) <= Class(At(t[j], idx), At(name, idx))
    {
      assert HasPrefix(t[i], name, idx) && HasPrefix(t[j], name, idx);
    }
    BisectSplits(t, idx, At(name, idx), false, start - 1, end);
    h := Bisect(t, idx, At(name, idx), false, start - 1, end).value;
    forall i | start <= i < end
      ensures i < h <==> At(t[i], idx) < At(name, idx)
    {
      assert i < h <==> Right(t, idx, At(name, idx), false, i);
    }
  }

  /** Both inner loops leave exactly the candidates for the next character. */
  lemma Narrowed(name: CStr, t: seq<CStr>, idx: nat, start: nat, end: nat, h: nat) returns (e: nat)
    requires idx < |name| && Candidates(name, t, idx, start, end) && SplitAt(name, t, idx, start, end, h) && h < end
    ensures Bisect(t, idx, At(name, idx), true, h - 1, end) == Some(e) && Candidates(name, t, idx + 1, h, e)
  {
    BisectSplits(t, idx, At(name, idx), true, h - 1, end);
    e := Bisect(t, idx, At(name, idx), true, h - 1, end).value;
    forall i | 0 <= i < |t|
      ensures h <= i < e <==> HasPrefix(t[i], name, idx + 1)
    {
      PrefixGrows(t[i], name, idx);
      if HasPrefix(t[i], name, idx) {
        assert h <= i ==> (i < e <==> Right(t, idx, At(name, idx), true, i));
      }
    }
  }

  /** A symbol of that name is a candidate, and not before the first fit; and its character fits. */
  lemma NamesakesAhead(name: CStr, t: seq<CStr>, idx: nat, start: nat, end: nat, h: nat)
    requires idx <= |name| && Candidates(name, t, idx, start, end) && SplitAt(name, t, idx, start, end, h)
    ensures forall j {:trigger t[j]} :: 0 <= j < |t| && t[j] == name ==>
              h <= j < end && idx <= |t[j]| && At(t[j], idx) == At(name, idx)
  {
    forall j | 0 <= j < |t| && t[j] == name
      ensures h <= j < end && idx <= |t[j]| && At(t[j], idx) == At(name, idx)
    {
      assert HasPrefix(t[j], name, idx);
    }
  }

  lemma MissHere(name: CStr, t: seq<CStr>, idx: nat, start: nat, end: nat, h: nat)
    requires idx <= |name| && Candidates(name, t, idx, start, end) && SplitAt(name, t, idx, start, end, h)
    requires Bisect(t, idx, At(name, idx), false, start - 1, end) == Some(h)
    requires h < end ==> At(t[h], idx) > At(name, idx)
    ensures name !in t && Search(name, t, idx, start, end) == Miss
  {
    NamesakesAhead(name, t, idx, start, end, h);
  }

  lemma HitHere(name: CStr, t: seq<CStr>, idx: nat, start: nat, end: nat, h: nat)
    requires idx <= |name| && Candidates(name, t, idx, start, end) && SplitAt(name, t, idx, start, end, h) && h < end
    requires Bisect(t, idx, At(name, idx), false, start - 1, end) == Some(h)
    requires At(name, idx) == 0 && At(t[h], idx) == 0
    ensures Lowest(name, t, Hit(h)) && Search(name, t, idx, start, end) == Hit(h)
  {
    assert HasPrefix(t[h], name, idx);
    assert t[h] == t[h][..idx] && name == name[..idx];
    NamesakesAhead(name, t, idx, start, end, h);
  }

  lemma SearchGoesOn(name: CStr, t: seq<CStr>, idx: nat, start: nat, end: nat, h: nat, e: nat)
    requires idx < |name| && start <= h < end <= |t| && h <= e <= end
    requires idx <= |t[h]| && At(t[h], idx) <= At(name, idx)
    requires Bisect(t, idx, At(name, idx), false, start - 1, end) == Some(h)
    requires Bisect(t, idx, At(name, idx), true, h - 1, end) == Some(e)
    ensures Search(name, t, idx, start, end) == Search(name, t, idx + 1, h, e)
  {
  }

  ghost predicate FitsFrom(name: CStr, t: seq<CStr>, idx: nat) {
    forall k {:trigger ColumnFits(name, t, k)} :: idx <= k <= |name| ==> ColumnFits(name, t, k)
  }

  lemma FitsOn(name: CStr, t: seq<CStr>, idx: nat)
    requires idx <= |name| && FitsFrom(name, t, idx)
    ensures ColumnFits(name, t, idx) && FitsFrom(name, t, idx + 1)
  {
  }

  /** One column decides the search, or leaves it to the next. */
  lemma SearchTurn(name: CStr, t: seq<CStr>, idx: nat, start: nat, end: nat) returns (over: bool, h: nat, e: nat)
    requires idx <= |name| && Candidates(name, t, idx, start, end) && ColumnFits(name, t, idx)
    ensures over ==> Lowest(name, t, Search(name, t, idx, start, end))
    ensures !over ==>
              && idx < |name| && Candidates(name, t, idx + 1, h, e)
              && Search(name, t, idx, start, end) == Search(name, t, idx + 1, h, e)
  {
    over, e := true, end;
    h := FirstFit(name, t, idx, start, end);
    if h == end || At(t[h], idx) > At(name, idx) {
      MissHere(name, t, idx, start, end, h);
    } else if At(name, idx) == 0 {
      HitHere(name, t, idx, start, end, h);
    } else {
      e := Narrowed(name, t, idx, start, end, h);
      SearchGoesOn(name, t, idx, start, end, h, e);
      over := false;
    }
  }

  /** From any column that fits, with all behind it, the search finds what it should. */
  lemma {:induction false} SearchFinds(name: CStr, t: seq<CStr>, idx: nat, start: nat, end: nat)
    requires idx <= |name| && Candidates(name, t, idx, start, end) && FitsFrom(name, t, idx)
    ensures Lowest(name, t, Search(name, t, idx, start, end))
    decreases |name| - idx
  {
    FitsOn(name, t, idx);
    var over, h, e := SearchTurn(name, t, idx, start, end);
    if !over {
      SearchFinds(name, t, idx + 1, h, e);
    }
  }

  /** Through columns that fit, the search comes to the candidates of column goal, if there are any. */
  lemma {:induction false} SearchReaches(name: CStr, t: seq<CStr>, idx: nat, start: nat, end: nat, goal: nat, i: nat)
    returns (start': nat, end': nat)
    requires idx <= goal <= |name| && Candidates(name, t, idx, start, end)
    requires forall k {:trigger ColumnFits(name, t, k)} :: idx <= k < goal ==> ColumnFits(name, t, k)
    requires i < |t| && HasPrefix(t[i], name, goal)
    ensures Candidates(name, t, goal, start', end')
    ensures Search(name, t, idx, start, end) == Search(name, t, goal, start', end')
    decreases goal - idx
  {
    start', end' := start, end;
    if idx < goal {
      PrefixShrinks(t[i], name, idx, goal);
      var h := FirstFit(name, t, idx, start, end);
      var e := Narrowed(name, t, idx, start, end, h);
      SearchGoesOn(name, t, idx, start, end, h, e);
      start', end' := SearchReaches(name, t, idx + 1, h, e, goal, i);
    }
  }

  lemma PrefixShrinks(s: CStr, name: CStr, idx: nat, goal: nat)
    requires idx < goal <= |name| && HasPrefix(s, name, goal)
    ensures HasPrefix(s, name, idx) && At(s, idx) == At(name, idx)
  {
    assert s[idx] == s[..goal][idx] == name[..goal][idx] == name[idx];
    assert s[..idx] == s[..goal][..idx] == name[..goal][..idx] == name[..idx];
  }

  lemma PrefixGrows(s: CStr, name: CStr, idx: nat)
    requires idx < |name|
    ensures HasPrefix(s, name, idx + 1) <==> HasPrefix(s, name, idx) && At(s, idx) == At(name, idx)
  {
    if HasPrefix(s, name, idx + 1) {
      PrefixShrinks(s, name, idx, idx + 1);
    }
    if HasPrefix(s, name, idx) && At(s, idx) == At(name, idx) {
      assert s[..idx + 1] == s[..idx] + [s[idx]];
      assert name[..idx + 1] == name[..idx] + [name[idx]];
    }
  }

  /** In a table that is in order for this name the search finds the lowest symbol of that name, or reports
      that there is none; and it never reads behind the end of a name. */
  lemma FittingTableIsSearched(name: CStr, t: seq<CStr>)
    requires Fits(name, t)
    ensures Lowest(name, t, Search(name, t, 0, 0, |t|))
  {
    SearchFinds(name, t, 0, 0, |t|);
  }

  // ---- Sorted tables ----

  /** a comes before b in the order of terminated strings: they differ first at k. */
  ghost predicate LessAt(a: CStr, b: CStr, k: nat) {
    k <= |a| && k <= |b| && a[..k] == b[..k] && At(a, k) < At(b, k)
  }

  ghost predicate Less(a: CStr, b: CStr) {
    exists k: nat :: LessAt(a, b, k)
  }

  ghost predicate Sorted(t: seq<CStr>) {
    forall i, j {:trigger Less(t[i], t[j])} :: 0 <= i < j < |t| ==> t[i] == t[j] || Less(t[i], t[j])
  }

  lemma LessAgrees(a: CStr, b: CStr, k: nat, i: nat)
    requires LessAt(a, b, k) && i < k
    ensures At(a, i) == At(b, i)
  {
    assert a[i] == a[..k][i] == b[..k][i] == b[i];
  }

  /** Where one string comes before another and both agree with the name, its next character does, too. */
  lemma ColumnAscends(name: CStr, idx: nat, a: CStr, b: CStr)
    requires a == b || Less(a, b)
    requires idx <= |name| && HasPrefix(a, name, idx) && HasPrefix(b, name, idx)
    ensures At(a, idx) <= At(b, idx)
  {
    if a != b {
      var k: nat :| LessAt(a, b, k);
      if k > idx {
        LessAgrees(a, b, k, idx);
      } else if k < idx {
        PrefixShrinks(a, name, k, idx);
        PrefixShrinks(b, name, k, idx);
      }
    }
  }

  lemma SortedFits(name: CStr, t: seq<CStr>)
    requires Sorted(t)
    ensures Fits(name, t)
  {
    forall k | 0 <= k <= |name|
      ensures ColumnFits(name, t, k)
    {
      forall i, j | 0 <= i < j < |t| && HasPrefix(t[i], name, k) && HasPrefix(t[j], name, k)
        ensures Class(At(t[i], k), At(name, k)) <= Class(At(t[j], k), At(name, k))
      {
        assert t[i] == t[j] || Less(t[i], t[j]);
        ColumnAscends(name, k, t[i], t[j]);
      }
    }
  }

  /** A sorted table is in order for every name. */
  lemma SortedTableIsSearched(name: CStr, t: seq<CStr>)
    requires Sorted(t)
    ensures Lowest(name, t, Search(name, t, 0, 0, |t|))
  {
    SortedFits(name, t);
    FittingTableIsSearched(name, t);
  }

  lemma LessTransitive(a: CStr, b: CStr, c: CStr)
    requires Less(a, b) && Less(b, c)
    ensures Less(a, c)
  {
    var k: nat :| LessAt(a, b, k);
    var m: nat :| LessAt(b, c, m);
    if k < m {
      LessAgrees(b, c, m, k);
      assert b[..k] == b[..m][..k] == c[..m][..k] == c[..k];
      assert LessAt(a, c, k);
    } else {
      if m < k {
        LessAgrees(a, b, k, m);
        assert a[..m] == a[..k][..m] == b[..k][..m] == b[..m];
      }
      assert LessAt(a, c, m);
    }
  }

  lemma {:induction false} LessFar(t: seq<CStr>, i: nat, j: nat)
    requires i < j < |t| && forall k {:trigger t[k]} :: 0 < k < |t| ==> Less(t[k - 1], t[k])
    ensures Less(t[i], t[j])
  {
    if i < j - 1 {
      LessFar(t, i, j - 1);
      LessTransitive(t[i], t[j - 1], t[j]);
    }
  }

  /** Neighbours in order are enough. */
  lemma AscendingIsSorted(t: seq<CStr>)
    requires forall k {:trigger t[k]} :: 0 < k < |t| ==> Less(t[k - 1], t[k])
    ensures Sorted(t)
  {
    forall i, j | 0 <= i < j < |t|
      ensures Less(t[i], t[j])
    {
      LessFar(t, i, j);
    }
  }

  // ---- A table need not be sorted to be searched ----

  lemma EndsAtOnce(name: CStr, t: seq<CStr>, start: nat, end: nat)
    requires |name| > 0 && start < end <= |t| && |t[start]| == 1 && end <= start + 2
    requires forall i :: start <= i < end ==> |t[i]| == 1
    ensures Search(name, t, 1, start, end) == if |name| == 1 then Hit(start) else Miss
  {
    var c := At(name, 1);
    assert c == 0 <==> |name| == 1;
    assert forall i :: start <= i < end ==> At(t[i], 1) == 0;
    if c > 0 {
      assert Bisect(t, 1, c, false, start, end) == Some(end);
      assert Bisect(t, 1, c, false, start - 1, end) == Some(end);
    } else {
      assert Bisect(t, 1, c, false, start - 1, end) == Bisect(t, 1, c, false, start - 1, start) == Some(start);
    }
  }

  lemma NotSorted(t: seq<CStr>)
    requires t == ["b", "d", "b"]
    ensures !Sorted(t)
  {
    forall k: nat
      ensures !LessAt(t[1], t[2], k)
    {
      assert k == 1 ==> t[1][..1][0] != t[2][..1][0];
    }
    assert t[1] != t[2] && !Less(t[1], t[2]);
  }

  lemma FindsB(name: CStr, t: seq<CStr>)
    requires t == ["b", "d", "b"] && |name| > 0 && name[0] == 'b'
    ensures Search(name, t, 0, 0, 3) == if |name| == 1 then Hit(0) else Miss
  {
    var c := At(name, 0);
    assert Bisect(t, 0, c, false, -1, 3) == Bisect(t, 0, c, false, -1, 1) == Some(0);
    assert Bisect(t, 0, c, true, -1, 3) == Bisect(t, 0, c, true, -1, 1) == Some(1);
    EndsAtOnce(name, t, 0, 1);
  }

  lemma FindsD(name: CStr, t: seq<CStr>)
    requires t == ["b", "d", "b"] && |name| > 0 && name[0] == 'd'
    ensures Search(name, t, 0, 0, 3) == if |name| == 1 then Hit(1) else Miss
  {
    var c := At(name, 0);
    assert Bisect(t, 0, c, false, -1, 3) == Bisect(t, 0, c, false, -1, 1) == Some(1);
    assert Bisect(t, 0, c, true, 0, 3) == Bisect(t, 0, c, true, 1, 3) == Some(3);
    EndsAtOnce(name, t, 1, 3);
  }

  lemma FindsNoOther(name: CStr, t: seq<CStr>)
    requires t == ["b", "d", "b"] && (|name| > 0 ==> name[0] != 'b' && name[0] != 'd')
    ensures Search(name, t, 0, 0, 3) == Miss
  {
    var c := At(name, 0);
    if c < 'b' as int {
      assert Bisect(t, 0, c, false, -1, 3) == Bisect(t, 0, c, false, -1, 1) == Some(0);
    } else if c < 'd' as int {
      assert Bisect(t, 0, c, false, -1, 3) == Bisect(t, 0, c, false, -1, 1) == Some(1);
    } else {
      assert Bisect(t, 0, c, false, -1, 3) == Bisect(t, 0, c, false, 1, 3) == Some(3);
    }
  }

  /** A table with a symbol out of place in which every name is found, or found missing, as it should. */
  lemma UnsortedYetSearched(t: seq<CStr>, name: CStr)
    requires t == ["b", "d", "b"]
    ensures !Sorted(t) && Lowest(name, t, Search(name, t, 0, 0, |t|))
  {
    NotSorted(t);
    assert |name| == 1 ==> name == [name[0]];
    if |name| > 0 && name[0] == 'b' {
      FindsB(name, t);
    } else if |name| > 0 && name[0] == 'd' {
      FindsD(name, t);
    } else {
      FindsNoOther(name, t);
    }
  }
}
