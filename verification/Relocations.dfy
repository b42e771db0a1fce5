/**
 Resolving and patching: the symbol lookups behind a relocation, and the two passes that patch the
 loaded image in place while reading their own tables from it. Byte k of the image has address base + k.
 */
module Relocations {
  import opened Bytes
  import opened Options
  import opened SymbolLookup
  import opened ShippedRows
  import opened ShippedTable

  const COPY: U32 := 5
  const GLOB_DAT: U32 := 6
  const JUMP_SLOT: U32 := 7

  datatype Symbol = Symbol(name: CStr, value: U64, isFn: bool)

  /** The two symbol tables, what the host's memory holds at an address, and where the k-th generated
      stub lies. */
  datatype Env = Env(main: seq<Symbol>, aux: seq<Symbol>, hostWord: U64 -> U64, stub: nat -> U64)

  /** What lookups leave behind: each symbol's reloc_addr, the sentinel counter, the stubs made. */
  datatype State = State(main: seq<U64>, aux: seq<U64>, counter: nat, stubs: nat)

  function Names(syms: seq<Symbol>): (r: seq<CStr>)
    ensures |r| == |syms| && forall i :: 0 <= i < |r| ==> r[i] == syms[i].name
  {
    seq(|syms|, i requires 0 <= i < |syms| => syms[i].name)
  }

  // ---- Lookup ----

  datatype Place = NotFound | InMain(i: nat) | InAux(i: nat)

  /** The lowest symbol of that name in the main table, or else in the auxiliary one. */
  ghost predicate IsPlace(env: Env, name: CStr, p: Place) {
    match p
    case InMain(i) => Lowest(name, Names(env.main), Hit(i))
    case InAux(i) => name !in Names(env.main) && Lowest(name, Names(env.aux), Hit(i))
    case NotFound => name !in Names(env.main) && name !in Names(env.aux)
  }

  function PlaceOf(env: Env, name: CStr): Place {
    match Search(name, Names(env.main), 0, 0, |env.main|)
    case Hit(i) => InMain(i)
    case _ =>
      match Search(name, Names(env.aux), 0, 0, |env.aux|)
      case Hit(i) => InAux(i)
      case _ => NotFound
  }

  /** Lookup gives the one place that fits the name, and no other. */
  ghost predicate LookedUp(env: Env, name: CStr) {
    forall p :: IsPlace(env, name, p) <==> p == PlaceOf(env, name)
  }

  /** Where both tables are in order for the name: the main table takes precedence, and no other place
      fits. */
  lemma PlaceFits(env: Env, name: CStr)
    requires Fits(name, Names(env.main)) && Fits(name, Names(env.aux))
    ensures LookedUp(env, name)
  {
    FittingTableIsSearched(name, Names(env.main));
    FittingTableIsSearched(name, Names(env.aux));
  }

  /** With the table as it ships in front, every name but two is found where it should be. */
  lemma ShippedPlaceIff(env: Env, name: CStr)
    requires |env.main| == 117 && Shipped(Names(env.main)) && Fits(name, Names(env.aux))
    ensures LookedUp(env, name) <==> name != GETPEERNAME && name != GETPIERNAME
  {
    ShippedIsOutOfPlace(Names(env.main));
    OutOfPlaceIff(env, name);
  }

  lemma OutOfPlaceIff(env: Env, name: CStr)
    requires |env.main| == 117 && OutOfPlace(Names(env.main)) && Fits(name, Names(env.aux))
    ensures LookedUp(env, name) <==> name != GETPEERNAME && name != GETPIERNAME
  {
    DamageIs(name, Names(env.main));
    FittingTableIsSearched(name, Names(env.aux));
    PlaceIff(env, name);
  }

  /** Where neither search reads behind a name and that of the auxiliary table is right, lookup is right
      exactly when that of the main table is. */
  lemma PlaceIff(env: Env, name: CStr)
    requires Lowest(name, Names(env.aux), Search(name, Names(env.aux), 0, 0, |env.aux|))
    requires Search(name, Names(env.main), 0, 0, |env.main|) != Fault
    ensures LookedUp(env, name) <==> Lowest(name, Names(env.main), Search(name, Names(env.main), 0, 0, |env.main|))
  {
    if !Lowest(name, Names(env.main), Search(name, Names(env.main), 0, 0, |env.main|)) {
      assert !IsPlace(env, name, PlaceOf(env, name));
    }
  }

  predicate Found(env: Env, p: Place) {
    match p
    case InMain(i) => i < |env.main|
    case InAux(i) => i < |env.aux|
    case NotFound => false
  }

  function SymbolAt(env: Env, p: Place): Symbol
    requires Found(env, p)
  {
    if p.InMain? then env.main[p.i] else env.aux[p.i]
  }

  datatype Answer = Answer(st: State, val: U64)

  function ResolveFunction(env: Env, st: State, name: CStr): Answer {
    var p := PlaceOf(env, name);
    if Found(env, p) && SymbolAt(env, p).isFn then Answer(st, SymbolAt(env, p).value)
    else Answer(st.(stubs := st.stubs + 1), env.stub(st.stubs))
  }

  /** (counter << 32) | 0xdeadbeef */
  function Sentinel(counter: nat): U64 {
    counter % 0x1_0000_0000 * 0x1_0000_0000 + 0xdead_beef
  }

  predicate IsData(env: Env, name: CStr) {
    var p := PlaceOf(env, name);
    Found(env, p) && !SymbolAt(env, p).isFn
  }

  function ResolveData(env: Env, st: State, name: CStr, tgt: U64): Answer
    requires |st.main| == |env.main| && |st.aux| == |env.aux|
  {
    var p := PlaceOf(env, name);
    if IsData(env, name) then
      var sym := SymbolAt(env, p);
      var reloc := if p.InMain? then st.main[p.i] else st.aux[p.i];
      if tgt > 1 then
        Answer(if p.InMain? then st.(main := st.main[p.i := tgt]) else st.(aux := st.aux[p.i := tgt]),
               env.hostWord(sym.value))
      else if tgt == 0 && reloc != 0 then Answer(st, reloc)
      else Answer(st, sym.value)
    else
      Answer(st.(counter := st.counter + 1), Sentinel(st.counter))
  }

  // ---- Memory ----

  datatype Write = Write(at: int, val: U64)

  function Store64(m: seq<Byte>, at: nat, val: U64): (r: seq<Byte>)
    requires at + 8 <= |m|
    ensures |r| == |m| && r[at..at + 8] == Le64(val)
    ensures forall x :: 0 <= x < |m| && !(at <= x < at + 8) ==> r[x] == m[x]
  {
    m[..at] + Le64(val) + m[at + 8..]
  }

  ghost predicate InBounds(n: nat, ws: seq<Option<Write>>) {
    forall k :: 0 <= k < |ws| && ws[k].Some? ==> 0 <= ws[k].value.at <= n - 8
  }

  /** The writes, one after the other. */
  ghost function Patch(m: seq<Byte>, ws: seq<Option<Write>>): (r: seq<Byte>)
    requires InBounds(|m|, ws)
    ensures |r| == |m|
  {
    if ws == [] then m
    else
      var before := Patch(m, ws[..|ws| - 1]);
      match ws[|ws| - 1]
      case None => before
      case Some(w) => Store64(before, w.at, w.val)
  }

  ghost predicate Targets(ws: seq<Option<Write>>, k: nat, x: int)
    requires k < |ws|
  {
    ws[k].Some? && ws[k].value.at <= x < ws[k].value.at + 8
  }

  ghost predicate Apart(ws: seq<Option<Write>>) {
    forall j, k :: 0 <= j < k < |ws| && ws[j].Some? && ws[k].Some? ==>
      ws[j].value.at + 8 <= ws[k].value.at || ws[k].value.at + 8 <= ws[j].value.at
  }

  /** Bytes that no write targets keep their value, in any order of writes. */
  lemma {:induction false} PatchFrame(m: seq<Byte>, ws: seq<Option<Write>>, x: int)
    requires InBounds(|m|, ws) && 0 <= x < |m|
    requires forall k :: 0 <= k < |ws| ==> !Targets(ws, k, x)
    ensures Patch(m, ws)[x] == m[x]
  {
    if ws != [] {
      var n := |ws| - 1;
      forall k | 0 <= k < n ensures !Targets(ws[..n], k, x) { assert !Targets(ws, k, x); }
      PatchFrame(m, ws[..n], x);
      assert !Targets(ws, n, x);
    }
  }

  /** Writes to disjoint targets, made one after the other, are one simultaneous update. */
  lemma {:induction false} PatchIsSimultaneous(m: seq<Byte>, ws: seq<Option<Write>>, k: nat)
    requires InBounds(|m|, ws) && Apart(ws) && k < |ws| && ws[k].Some?
    ensures Patch(m, ws)[ws[k].value.at..ws[k].value.at + 8] == Le64(ws[k].value.val)
  {
    var n := |ws| - 1;
    var at := ws[k].value.at;
    if k < n {
      FewerApart(|m|, ws);
      PatchIsSimultaneous(m, ws[..n], k);
      if ws[n].Some? {
        assert at + 8 <= ws[n].value.at || ws[n].value.at + 8 <= at;
        StoredElsewhere(Patch(m, ws[..n]), ws[n].value, at);
      }
    }
  }

  lemma FewerApart(size: nat, ws: seq<Option<Write>>)
    requires ws != [] && InBounds(size, ws) && Apart(ws)
    ensures InBounds(size, ws[..|ws| - 1]) && Apart(ws[..|ws| - 1])
  {
    assert forall k :: 0 <= k < |ws| - 1 ==> ws[..|ws| - 1][k] == ws[k];
  }

  lemma StoredElsewhere(m: seq<Byte>, w: Write, at: int)
    requires 0 <= w.at <= |m| - 8 && 0 <= at <= |m| - 8 && (at + 8 <= w.at || w.at + 8 <= at)
    ensures Store64(m, w.at, w.val)[at..at + 8] == m[at..at + 8]
  {
  }

  // ---- Decoding ----

  /** at: where in the image the target lies; tgt: its address. */
  datatype Reloc = Reloc(at: int, tgt: U64, kind: U32, name: CStr, plt: bool)

  /** What the dynamic section says, of an image mapped at base: the addresses of the two relocation
      tables, of the symbols and of their names. */
  datatype Tables = Tables(base: U64, reladyn: U64, reladynSz: U64, relaplt: U64, relapltSz: U64,
                           symtab: U64, strtab: U64)

  /** The string at an address, up to its NUL or the end of memory. */
  function NameAt(m: seq<Byte>, a: nat): CStr
    requires a <= |m|
    decreases |m| - a
  {
    if a == |m| || m[a] == 0 then "" else [m[a] as char] + NameAt(m, a + 1)
  }

  /** How many rows a loop `i += 24 while i < sz` looks at. */
  function Count(sz: U64): nat { (sz + 23) / 24 }

  function Total(t: Tables): nat { Count(t.reladynSz) + Count(t.relapltSz) }

  /** Row i of the two tables taken together. */
  function Row(t: Tables, i: nat): int {
    (if i < Count(t.reladynSz) then t.reladyn + 24 * i else t.relaplt + 24 * (i - Count(t.reladynSz))) - t.base
  }

  function SymAddr(m: seq<Byte>, row: nat, t: Tables): int
    requires row + 24 <= |m|
  {
    t.symtab - t.base + Load64(m, row + 8) / 0x1_0000_0000 * 24
  }

  function NameAddr(m: seq<Byte>, row: nat, t: Tables): int
    requires row + 24 <= |m| && 0 <= SymAddr(m, row, t) <= |m| - 4
  {
    t.strtab - t.base + Load32(m, SymAddr(m, row, t))
  }

  /** Row, symbol and terminated name all lie in memory. */
  ghost predicate Readable(m: seq<Byte>, row: int, t: Tables) {
    && 0 <= row <= |m| - 24 && 0 <= SymAddr(m, row, t) <= |m| - 4
    && 0 <= NameAddr(m, row, t) <= |m| && NameAddr(m, row, t) + |NameAt(m, NameAddr(m, row, t))| < |m|
  }

  ghost function RelocAt(m: seq<Byte>, row: int, t: Tables, plt: bool): Reloc
    requires Readable(m, row, t)
  {
    Reloc(Load64(m, row) - t.base, Load64(m, row), Load64(m, row + 8) % 0x1_0000_0000,
          NameAt(m, NameAddr(m, row, t)), plt)
  }

  /** The bytes that decoding a row looks at. */
  ghost predicate Reads(m: seq<Byte>, row: int, t: Tables, x: int)
    requires Readable(m, row, t)
  {
    || row <= x < row + 24
    || SymAddr(m, row, t) <= x < SymAddr(m, row, t) + 4
    || NameAddr(m, row, t) <= x <= NameAddr(m, row, t) + |NameAt(m, NameAddr(m, row, t))|
  }

  lemma {:induction false} NameSame(m: seq<Byte>, m': seq<Byte>, a: nat)
    requires |m| == |m'| && a <= |m| && a + |NameAt(m, a)| < |m|
    requires forall x :: a <= x <= a + |NameAt(m, a)| ==> m'[x] == m[x]
    ensures NameAt(m', a) == NameAt(m, a)
    decreases |m| - a
  {
    if m[a] != 0 {
      NameSame(m, m', a + 1);
    }
  }

  /** Decoding depends on nothing but the bytes it looks at. */
  lemma RelocSame(m: seq<Byte>, m': seq<Byte>, row: int, t: Tables, plt: bool)
    requires |m| == |m'| && Readable(m, row, t) && forall x :: 0 <= x < |m| && Reads(m, row, t, x) ==> m'[x] == m[x]
    ensures Readable(m', row, t) && RelocAt(m', row, t, plt) == RelocAt(m, row, t, plt)
  {
    WordSame(m, m', row);
    WordSame(m, m', row + 8);
    HalfSame(m, m', SymAddr(m, row, t));
    NameSame(m, m', NameAddr(m, row, t));
  }

  lemma HalfSame(m: seq<Byte>, m': seq<Byte>, a: nat)
    requires |m| == |m'| && a + 4 <= |m| && forall x :: a <= x < a + 4 ==> m'[x] == m[x]
    ensures Load32(m', a) == Load32(m, a)
  {
  }

  lemma WordSame(m: seq<Byte>, m': seq<Byte>, a: nat)
    requires |m| == |m'| && a + 8 <= |m| && forall x :: a <= x < a + 8 ==> m'[x] == m[x]
    ensures Load64(m', a) == Load64(m, a)
  {
    HalfSame(m, m', a);
    HalfSame(m, m', a + 4);
  }

  // ---- The two passes ----

  /** What one relocation does: write a resolved value, nothing, or abort the program. */
  datatype Effect = Patches(ans: Answer) | Skips | Aborts

  function EffectOf(env: Env, st: State, r: Reloc): Effect
    requires |st.main| == |env.main| && |st.aux| == |env.aux|
  {
    if r.kind == COPY then Patches(ResolveData(env, st, r.name, r.tgt))
    else if r.kind == JUMP_SLOT || (r.kind == GLOB_DAT && !r.plt) then Patches(ResolveFunction(env, st, r.name))
    else if r.kind == GLOB_DAT then Skips
    else Aborts
  }

  predicate Skipped(r: Reloc) { r.plt && r.kind == GLOB_DAT }

  predicate Known(r: Reloc) { r.kind == COPY || r.kind == GLOB_DAT || r.kind == JUMP_SLOT }

  /** The target of this relocation is written. */
  predicate Writes(r: Reloc) { Known(r) && !Skipped(r) }

  /** A run so far: the lookup state, the write of each relocation, and whether it aborted. */
  datatype Run = Run(st: State, writes: seq<Option<Write>>, aborted: bool)

  ghost function Steps(env: Env, rs: seq<Reloc>, st: State): (run: Run)
    requires |st.main| == |env.main| && |st.aux| == |env.aux|
    ensures |run.st.main| == |env.main| && |run.st.aux| == |env.aux|
    ensures !run.aborted ==> |run.writes| == |rs|
    ensures |run.writes| <= |rs|
    ensures forall k :: 0 <= k < |run.writes| && run.writes[k].Some? ==>
              Writes(rs[k]) && run.writes[k].value.at == rs[k].at
  {
    if rs == [] then Run(st, [], false)
    else
      var r := rs[|rs| - 1];
      var before := Steps(env, rs[..|rs| - 1], st);
      if before.aborted then before
      else match EffectOf(env, before.st, r)
        case Aborts => before.(aborted := true)
        case Skips => before.(writes := before.writes + [None])
        case Patches(ans) => Run(ans.st, before.writes + [Some(Write(r.at, ans.val))], false)
  }

  /** The relocations of both tables, as memory holds them before the first one is made. */
  ghost function Relocs(m: seq<Byte>, t: Tables): (rs: seq<Reloc>)
    requires forall i :: 0 <= i < Total(t) ==> Readable(m, Row(t, i), t)
    ensures |rs| == Total(t)
    ensures forall i :: 0 <= i < |rs| ==> rs[i] == RelocAt(m, Row(t, i), t, i >= Count(t.reladynSz))
  {
    seq(Total(t), i requires 0 <= i < Total(t) => RelocAt(m, Row(t, i), t, i >= Count(t.reladynSz)))
  }

  // ---- The rows against the bytes of the tables ----

  /** r is what the 24 bytes at row say of the image t is about: the first word is the target, the low half of
      the second the kind and its high half the symbol, whose name is the string at its first word. */
  ghost predicate SaidAt(m: seq<Byte>, t: Tables, row: int, r: Reloc) {
    && 0 <= row <= |m| - 24
    && r.tgt == Load64(m, row) && r.at == r.tgt - t.base && r.kind == Load32(m, row + 8)
    && var sym := t.symtab - t.base + 24 * Load32(m, row + 12);
    && 0 <= sym <= |m| - 4
    && StringIs(m, t.strtab - t.base + Load32(m, sym), r.name)
  }

  /** These characters stand at a, and then a 0. */
  ghost predicate StringIs(m: seq<Byte>, a: int, name: CStr) {
    0 <= a && a + |name| < |m| && m[a + |name|] == 0 && forall k :: 0 <= k < |name| ==> name[k] as int == m[a + k]
  }

  lemma {:induction false} NameAtIs(m: seq<Byte>, a: nat)
    requires a <= |m| && a + |NameAt(m, a)| < |m|
    ensures StringIs(m, a, NameAt(m, a))
    decreases |m| - a
  {
    if m[a] != 0 {
      NameAtIs(m, a + 1);
    }
  }

  lemma Halves(m: seq<Byte>, i: nat)
    requires i + 8 <= |m|
    ensures Load64(m, i) % 0x1_0000_0000 == Load32(m, i) && Load64(m, i) / 0x1_0000_0000 == Load32(m, i + 4)
  {
  }

  lemma RelocAtSays(m: seq<Byte>, row: int, t: Tables, plt: bool)
    requires Readable(m, row, t)
    ensures SaidAt(m, t, row, RelocAt(m, row, t, plt)) && RelocAt(m, row, t, plt).plt == plt
  {
    Halves(m, row + 8);
    NameAtIs(m, NameAddr(m, row, t));
  }

  /** One row says one thing. */
  lemma SaidOnce(m: seq<Byte>, t: Tables, row: int, r: Reloc, q: Reloc)
    requires SaidAt(m, t, row, r) && SaidAt(m, t, row, q) && r.plt == q.plt
    ensures r == q
  {
    var a := t.strtab - t.base + Load32(m, t.symtab - t.base + 24 * Load32(m, row + 12));
    NotLonger(m, a, r.name, q.name);
    NotLonger(m, a, q.name, r.name);
  }

  lemma NotLonger(m: seq<Byte>, a: int, x: CStr, y: CStr)
    requires StringIs(m, a, x) && StringIs(m, a, y)
    ensures |x| <= |y|
  {
    var text := m[a..];
    forall k | 0 <= k < |x|
      ensures text[k] != 0
    {
      assert x[k] as int == m[a + k];
    }
    assert text[|y|] == 0;
  }

  /** n rows of 24 bytes begin below size. */
  ghost predicate RowCount(n: nat, size: U64) {
    forall i: nat :: i < n <==> 24 * i < size
  }

  /** rs are what the rows of the one table say, each in its turn, and then those of the other. */
  ghost predicate RowsSay(m: seq<Byte>, t: Tables, rs: seq<Reloc>, n: nat) {
    && n <= |rs| && RowCount(n, t.reladynSz) && RowCount(|rs| - n, t.relapltSz)
    && (forall i :: 0 <= i < n ==> SaidAt(m, t, t.reladyn - t.base + 24 * i, rs[i]) && !rs[i].plt)
    && (forall i :: n <= i < |rs| ==> SaidAt(m, t, t.relaplt - t.base + 24 * (i - n), rs[i]) && rs[i].plt)
  }

  /** Row i of a table lies at this place of the image. */
  function RowAt(t: Tables, plt: bool, i: nat): int {
    (if plt then t.relaplt else t.reladyn) - t.base + 24 * i
  }

  /** What a row says is the relocation made of it. */
  lemma RowSaid(m: seq<Byte>, t: Tables, rs: seq<Reloc>, n: nat, i: nat, r: Reloc) returns (k: nat)
    requires RowsSay(m, t, rs, n) && SaidAt(m, t, RowAt(t, r.plt, i), r)
    requires 24 * i < if r.plt then t.relapltSz else t.reladynSz
    ensures k < |rs| && rs[k] == r
  {
    k := if r.plt then n + i else i;
    assert RowCount(n, t.reladynSz) && RowCount(|rs| - n, t.relapltSz);
    SaidOnce(m, t, RowAt(t, r.plt, i), r, rs[k]);
  }

  /** The relocations are those that the tables say, no more and no fewer. */
  lemma RelocsAreSaid(m: seq<Byte>, t: Tables)
    requires forall i :: 0 <= i < Total(t) ==> Readable(m, Row(t, i), t)
    ensures RowsSay(m, t, Relocs(m, t), Count(t.reladynSz))
  {
    var rs, n := Relocs(m, t), Count(t.reladynSz);
    forall i | 0 <= i < |rs|
      ensures SaidAt(m, t, Row(t, i), rs[i]) && (rs[i].plt <==> i >= n)
    {
      RelocAtSays(m, Row(t, i), t, i >= n);
    }
  }

  /** Every row can be decoded, every target written lies in memory, and none overlaps what the passes
      read. */
  ghost predicate Patchable(m: seq<Byte>, t: Tables) {
    && (forall i :: 0 <= i < Total(t) ==> Readable(m, Row(t, i), t))
    && (forall i :: 0 <= i < Total(t) && Writes(Relocs(m, t)[i]) ==> 0 <= Relocs(m, t)[i].at <= |m| - 8)
    && (forall i, j, x :: 0 <= i < Total(t) && 0 <= j < Total(t) && Writes(Relocs(m, t)[j])
                          && Relocs(m, t)[j].at <= x < Relocs(m, t)[j].at + 8 ==>
          !Reads(m, Row(t, i), t, x))
  }

  /** Earlier writes leave every later row as it was. */
  lemma RowUndisturbed(env: Env, m: seq<Byte>, t: Tables, st: State, n: nat, i: nat)
    requires |st.main| == |env.main| && |st.aux| == |env.aux|
    requires Patchable(m, t) && n <= Total(t) && i < Total(t)
    ensures var ws := Steps(env, Relocs(m, t)[..n], st).writes;
            && InBounds(|m|, ws)
            && Readable(Patch(m, ws), Row(t, i), t)
            && RelocAt(Patch(m, ws), Row(t, i), t, i >= Count(t.reladynSz)) == Relocs(m, t)[i]
  {
    var rs := Relocs(m, t);
    var ws := Steps(env, rs[..n], st).writes;
    forall x | 0 <= x < |m| && Reads(m, Row(t, i), t, x)
      ensures Patch(m, ws)[x] == m[x]
    {
      forall k | 0 <= k < |ws|
        ensures !Targets(ws, k, x)
      {
        assert rs[..n][k] == rs[k];
      }
      PatchFrame(m, ws, x);
    }
    RelocSame(m, Patch(m, ws), Row(t, i), t, i >= Count(t.reladynSz));
  }

  /** The effect of relocation n on the run. */
  lemma StepsGrow(env: Env, rs: seq<Reloc>, st: State, n: nat)
    requires |st.main| == |env.main| && |st.aux| == |env.aux| && n < |rs|
    ensures var before, after := Steps(env, rs[..n], st), Steps(env, rs[..n + 1], st);
            if before.aborted then after == before
            else match EffectOf(env, before.st, rs[n])
                 case Aborts => after == before.(aborted := true)
                 case Skips => after == before.(writes := before.writes + [None])
                 case Patches(ans) => after == Run(ans.st, before.writes + [Some(Write(rs[n].at, ans.val))], false)
  {
    assert rs[..n + 1][..n] == rs[..n];
  }

  /** The effect of relocation n, on the run and on memory. */
  lemma OneMore(env: Env, m: seq<Byte>, rs: seq<Reloc>, st: State, n: nat)
    requires |st.main| == |env.main| && |st.aux| == |env.aux| && n < |rs|
    requires Writes(rs[n]) ==> 0 <= rs[n].at <= |m| - 8
    requires InBounds(|m|, Steps(env, rs[..n], st).writes) && !Steps(env, rs[..n], st).aborted
    ensures var before, after := Steps(env, rs[..n], st), Steps(env, rs[..n + 1], st);
            && InBounds(|m|, after.writes)
            && match EffectOf(env, before.st, rs[n])
               case Aborts => after == before.(aborted := true)
               case Skips => after.st == before.st && !after.aborted
                             && Patch(m, after.writes) == Patch(m, before.writes)
               case Patches(ans) => after.st == ans.st && !after.aborted
                                    && Patch(m, after.writes) == Store64(Patch(m, before.writes), rs[n].at, ans.val)
  {
    StepsGrow(env, rs, st, n);
    var before, after := Steps(env, rs[..n], st), Steps(env, rs[..n + 1], st);
    if !after.aborted {
      assert after.writes[..n] == before.writes;
    }
  }

  class Loader {
    const mem: array<Byte>
    const env: Env
    var relocMain: seq<U64>
    var relocAux: seq<U64>
    var counter: nat
    var stubs: nat

    constructor (mem: array<Byte>, env: Env)
      ensures this.mem == mem && this.env == env
      ensures St() == State(seq(|env.main|, _ => 0), seq(|env.aux|, _ => 0), 1, 0)
    {
      this.mem, this.env := mem, env;
      relocMain, relocAux := seq(|env.main|, _ => 0), seq(|env.aux|, _ => 0);
      counter, stubs := 1, 0;
    }

    function St(): State
      reads this
    {
      State(relocMain, relocAux, counter, stubs)
    }

    ghost predicate Sized()
      reads this
    {
      |relocMain| == |env.main| && |relocAux| == |env.aux|
    }

    method Lookup(name: CStr) returns (p: Place)
      ensures p == PlaceOf(env, name)
    {
      var r := LookupIn(name, Names(env.main));
      if r.Hit? {
        return InMain(r.i);
      }
      r := LookupIn(name, Names(env.aux));
      p := if r.Hit? then InAux(r.i) else NotFound;
    }

    method LookupFunction(name: CStr) returns (val: U64)
      modifies `stubs
      ensures Answer(St(), val) == ResolveFunction(env, old(St()), name)
    {
      var p := Lookup(name);
      if Found(env, p) && SymbolAt(env, p).isFn {
        return SymbolAt(env, p).value;
      }
      val := env.stub(stubs);
      stubs := stubs + 1;
    }

    method LookupData(name: CStr, tgt: U64) returns (val: U64)
      requires Sized()
      modifies this
      ensures Answer(St(), val) == ResolveData(env, old(St()), name, tgt)
    {
      var p := Lookup(name);
      if Found(env, p) && !SymbolAt(env, p).isFn {
        var reloc := if p.InMain? then relocMain[p.i] else relocAux[p.i];
        if tgt > 1 {
          val := env.hostWord(SymbolAt(env, p).value);
          if p.InMain? {
            relocMain := relocMain[p.i := tgt];
          } else {
            relocAux := relocAux[p.i := tgt];
          }
        } else if tgt == 0 && reloc != 0 {
          val := reloc;
        } else {
          val := SymbolAt(env, p).value;
        }
        return;
      }
      val := Sentinel(counter);
      counter := counter + 1;
    }

    method StoreWord(at: nat, val: U64)
      requires at + 8 <= mem.Length
      modifies mem
      ensures mem[..] == Store64(old(mem[..]), at, val)
    {
      var w := Le64(val);
      for i := 0 to 8
        invariant forall k :: 0 <= k < i ==> mem[at + k] == w[k]
        invariant forall x :: 0 <= x < mem.Length && !(at <= x < at + i) ==> mem[x] == old(mem[x])
      {
        mem[at + i] := w[i];
      }
      assert mem[at..at + 8] == w;
      assert mem[..] == mem[..at] + mem[at..at + 8] + mem[at + 8..];
    }

    method Decode(row: int, t: Tables, plt: bool) returns (r: Reloc)
      requires Readable(mem[..], row, t)
      ensures r == RelocAt(mem[..], row, t, plt)
    {
      var a := Load64(mem[..], row);
      var b := Load64(mem[..], row + 8);
      var sym := t.symtab - t.base + b / 0x1_0000_0000 * 24;
      var name := t.strtab - t.base + Load32(mem[..], sym);
      r := Reloc(a - t.base, a, b % 0x1_0000_0000, NameAt(mem[..], name), plt);
    }

    /** One turn of either loop. */
    method ApplyRow(row: int, t: Tables, plt: bool) returns (ok: bool)
      requires Sized() && Readable(mem[..], row, t)
      requires var r := RelocAt(mem[..], row, t, plt); Writes(r) ==> 0 <= r.at <= mem.Length - 8
      modifies this, mem
      ensures var r := RelocAt(old(mem[..]), row, t, plt);
              match EffectOf(env, old(St()), r)
              case Aborts => !ok && mem[..] == old(mem[..]) && St() == old(St())
              case Skips => ok && mem[..] == old(mem[..]) && St() == old(St())
              case Patches(ans) => ok && mem[..] == Store64(old(mem[..]), r.at, ans.val) && St() == ans.st
    {
      var r := Decode(row, t, plt);
      ok := true;
      if r.kind == COPY {
        var val := LookupData(r.name, r.tgt);
        StoreWord(r.at, val);
      } else if r.kind == JUMP_SLOT || (r.kind == GLOB_DAT && !plt) {
        var val := LookupFunction(r.name);
        StoreWord(r.at, val);
      } else if r.kind != GLOB_DAT {
        ok := false;
      }
    }

    /** The loader stands where a run over memory m ends. */
    ghost predicate After(m: seq<Byte>, run: Run)
      reads this, mem
    {
      St() == run.st && InBounds(|m|, run.writes) && mem[..] == Patch(m, run.writes)
    }

    /** Row n is still there to be made after the relocations before it. */
    ghost predicate RowReady(m: seq<Byte>, t: Tables, rs: seq<Reloc>, st: State, n: nat)
      requires n < |rs| && |st.main| == |env.main| && |st.aux| == |env.aux|
    {
      var ws := Steps(env, rs[..n], st).writes;
      && InBounds(|m|, ws) && Readable(Patch(m, ws), Row(t, n), t)
      && RelocAt(Patch(m, ws), Row(t, n), t, n >= Count(t.reladynSz)) == rs[n]
      && (Writes(rs[n]) ==> 0 <= rs[n].at <= |m| - 8)
    }

    /** Relocation n: run is the run before it, run' the one with it, or with all if it aborts. */
    method Turn(ghost m: seq<Byte>, t: Tables, ghost rs: seq<Reloc>, ghost st: State, n: nat, ghost run: Run)
      returns (ok: bool, ghost run': Run)
      requires n < |rs| && |st.main| == |env.main| && |st.aux| == |env.aux| && RowReady(m, t, rs, st, n)
      requires run == Steps(env, rs[..n], st) && !run.aborted && After(m, run)
      modifies this, mem
      ensures ok == !run'.aborted && After(m, run')
      ensures run' == if ok then Steps(env, rs[..n + 1], st) else Steps(env, rs, st)
    {
      OneMore(env, m, rs, st, n);
      ok := ApplyRow(Row(t, n), t, n >= Count(t.reladynSz));
      run' := Steps(env, rs[..n + 1], st);
      if !ok {
        AbortStays(env, rs, st, n + 1);
      }
    }

    /** The loop over the rows of one table. */
    method Pass(ghost m: seq<Byte>, t: Tables, ghost rs: seq<Reloc>, ghost st: State, first: nat, last: nat,
                ghost run: Run)
      returns (ok: bool, ghost run': Run)
      requires first <= last <= |rs| && |st.main| == |env.main| && |st.aux| == |env.aux|
      requires forall n {:trigger RowReady(m, t, rs, st, n)} :: 0 <= n < |rs| ==> RowReady(m, t, rs, st, n)
      requires run == Steps(env, rs[..first], st) && !run.aborted && After(m, run)
      modifies this, mem
      ensures ok == !run'.aborted && After(m, run')
      ensures run' == if ok then Steps(env, rs[..last], st) else Steps(env, rs, st)
    {
      run' := run;
      var i := first;
      while i < last
        invariant first <= i <= last && run' == Steps(env, rs[..i], st) && !run'.aborted && After(m, run')
      {
        ok, run' := Turn(m, t, rs, st, i, run');
        if !ok {
          return;
        }
        i := i + 1;
      }
      ok := true;
    }

    /** Both passes, reading their tables from the memory they patch: memory ends as the writes of the
        relocations, as decoded before the first of them, leave it. */
    method Relocate(t: Tables) returns (ok: bool)
      requires Sized() && Patchable(mem[..], t)
      modifies this, mem
      ensures RowsSay(old(mem[..]), t, Relocs(old(mem[..]), t), Count(t.reladynSz))
      ensures var run := Steps(env, Relocs(old(mem[..]), t), old(St()));
              && ok == !run.aborted && St() == run.st
              && InBounds(mem.Length, run.writes) && mem[..] == Patch(old(mem[..]), run.writes)
    {
      ghost var m, st, rs := mem[..], St(), Relocs(mem[..], t);
      RelocsAreSaid(m, t);
      forall n | 0 <= n < |rs|
        ensures RowReady(m, t, rs, st, n)
      {
        RowUndisturbed(env, m, t, st, n, n);
      }
      assert rs[..0] == [] && rs[..|rs|] == rs;
      ghost var run := Steps(env, rs[..0], st);
      ok, run := Pass(m, t, rs, st, 0, Count(t.reladynSz), run);
      if ok {
        ok, run := Pass(m, t, rs, st, Count(t.reladynSz), Total(t), run);
      }
    }
  }

  lemma {:induction false} AbortStays(env: Env, rs: seq<Reloc>, st: State, n: nat)
    requires |st.main| == |env.main| && |st.aux| == |env.aux| && n <= |rs| && Steps(env, rs[..n], st).aborted
    ensures Steps(env, rs, st) == Steps(env, rs[..n], st)
    decreases |rs| - n
  {
    if n < |rs| {
      assert rs[..n + 1][..n] == rs[..n];
      AbortStays(env, rs, st, n + 1);
    } else {
      assert rs[..n] == rs;
    }
  }

  // ---- What memory holds afterwards ----

  ghost predicate AllKnown(rs: seq<Reloc>) {
    forall k :: 0 <= k < |rs| ==> Known(rs[k])
  }

  lemma OneMoreKnown(rs: seq<Reloc>)
    requires rs != []
    ensures AllKnown(rs) <==> AllKnown(rs[..|rs| - 1]) && Known(rs[|rs| - 1])
  {
    assert forall k :: 0 <= k < |rs| - 1 ==> rs[..|rs| - 1][k] == rs[k];
  }

  /** The passes abort exactly at a relocation of an unknown kind. */
  lemma {:induction false} AbortsIff(env: Env, rs: seq<Reloc>, st: State)
    requires |st.main| == |env.main| && |st.aux| == |env.aux|
    ensures Steps(env, rs, st).aborted <==> !AllKnown(rs)
    ensures Steps(env, rs, st).aborted <==> exists k :: 0 <= k < |rs| && rs[k].kind !in {5, 6, 7}
  {
    if rs != [] {
      AbortsIff(env, rs[..|rs| - 1], st);
      OneMoreKnown(rs);
    }
  }

  /** Write k is that of relocation k: its target, and what it resolves to after those before it. */
  lemma {:induction false} StepWrite(env: Env, rs: seq<Reloc>, st: State, k: nat)
    requires |st.main| == |env.main| && |st.aux| == |env.aux| && k < |rs| && !Steps(env, rs, st).aborted
    ensures var w := Steps(env, rs, st).writes[k];
            match EffectOf(env, Steps(env, rs[..k], st).st, rs[k])
            case Patches(ans) => w == Some(Write(rs[k].at, ans.val)) && !Skipped(rs[k])
            case Skips => w == None && Skipped(rs[k])
            case Aborts => false
  {
    var n := |rs| - 1;
    if k < n {
      assert rs[..n][..k] == rs[..k];
      StepWrite(env, rs[..n], st, k);
    }
  }

  ghost predicate TargetsApart(rs: seq<Reloc>) {
    forall i, j :: 0 <= i < j < |rs| && !Skipped(rs[i]) && !Skipped(rs[j]) ==>
      rs[i].at + 8 <= rs[j].at || rs[j].at + 8 <= rs[i].at
  }

  lemma WritesApart(env: Env, rs: seq<Reloc>, st: State)
    requires |st.main| == |env.main| && |st.aux| == |env.aux| && !Steps(env, rs, st).aborted && TargetsApart(rs)
    ensures Apart(Steps(env, rs, st).writes)
  {
    var ws := Steps(env, rs, st).writes;
    forall j, k | 0 <= j < k < |ws| && ws[j].Some? && ws[k].Some?
      ensures ws[j].value.at + 8 <= ws[k].value.at || ws[k].value.at + 8 <= ws[j].value.at
    {
      StepWrite(env, rs, st, j);
      StepWrite(env, rs, st, k);
    }
  }

  /** Unless they abort, the two passes are one simultaneous update: every target of a relocation that
      is not skipped holds its resolved value, and every byte outside those targets is unchanged. */
  lemma RelocationIsSimultaneous(env: Env, m: seq<Byte>, rs: seq<Reloc>, st: State, k: nat)
    requires |st.main| == |env.main| && |st.aux| == |env.aux| && TargetsApart(rs)
    requires k < |rs| && !Skipped(rs[k]) && AllKnown(rs)
    requires forall i :: 0 <= i < |rs| && !Skipped(rs[i]) ==> 0 <= rs[i].at <= |m| - 8
    ensures var run := Steps(env, rs, st);
            && !run.aborted && InBounds(|m|, run.writes)
            && var after := Patch(m, run.writes);
            && EffectOf(env, Steps(env, rs[..k], st).st, rs[k]).Patches?
            && after[rs[k].at..rs[k].at + 8] == Le64(EffectOf(env, Steps(env, rs[..k], st).st, rs[k]).ans.val)
            && forall x :: 0 <= x < |m|
                           && (forall i :: 0 <= i < |rs| && !Skipped(rs[i]) ==> !(rs[i].at <= x < rs[i].at + 8)) ==>
                 after[x] == m[x]
  {
    AbortsIff(env, rs, st);
    WritesApart(env, rs, st);
    var ws := Steps(env, rs, st).writes;
    StepWrite(env, rs, st, k);
    PatchIsSimultaneous(m, ws, k);
    forall x | 0 <= x < |m| && forall i :: 0 <= i < |rs| && !Skipped(rs[i]) ==> !(rs[i].at <= x < rs[i].at + 8)
      ensures Patch(m, ws)[x] == m[x]
    {
      Untouched(env, m, rs, st, x);
    }
  }

  /** A byte outside every target stays. */
  lemma Untouched(env: Env, m: seq<Byte>, rs: seq<Reloc>, st: State, x: nat)
    requires |st.main| == |env.main| && |st.aux| == |env.aux| && x < |m|
    requires !Steps(env, rs, st).aborted && InBounds(|m|, Steps(env, rs, st).writes)
    requires forall i :: 0 <= i < |rs| && !Skipped(rs[i]) ==> !(rs[i].at <= x < rs[i].at + 8)
    ensures Patch(m, Steps(env, rs, st).writes)[x] == m[x]
  {
    var ws := Steps(env, rs, st).writes;
    forall i | 0 <= i < |ws|
      ensures !Targets(ws, i, x)
    {
      StepWrite(env, rs, st, i);
    }
    PatchFrame(m, ws, x);
  }

  /** What reloc_addr of a symbol records. */
  function Copied(st: State, p: Place): U64 {
    match p
    case InMain(i) => if i < |st.main| then st.main[i] else 0
    case InAux(i) => if i < |st.aux| then st.aux[i] else 0
    case NotFound => 0
  }

  /** What a relocation resolves to by the place p of its name, after the lookups that led to st: a function
      to its address, or to a stub of its own if there is no such function; a data symbol to what the
      host's memory has there, to its last copy or to its address; and else to the next sentinel. */
  ghost predicate Resolves(env: Env, st: State, r: Reloc, p: Place, val: U64) {
    if r.kind != COPY then
      val == if Found(env, p) && SymbolAt(env, p).isFn then SymbolAt(env, p).value else env.stub(st.stubs)
    else if Found(env, p) && !SymbolAt(env, p).isFn then
      val == if r.tgt > 1 then env.hostWord(SymbolAt(env, p).value)
             else if r.tgt == 0 && Copied(st, p) != 0 then Copied(st, p)
             else SymbolAt(env, p).value
    else val == Sentinel(st.counter)
  }

  lemma ResolvesTo(env: Env, st: State, r: Reloc, p: Place)
    requires |st.main| == |env.main| && |st.aux| == |env.aux| && Writes(r)
    requires LookedUp(env, r.name) && IsPlace(env, r.name, p)
    ensures EffectOf(env, st, r).Patches? && Resolves(env, st, r, p, EffectOf(env, st, r).ans.val)
  {
    assert p == PlaceOf(env, r.name);
  }

  /** The eight bytes at a place of memory. */
  ghost predicate Word(m: seq<Byte>, at: int, val: U64) {
    0 <= at <= |m| - 8 && m[at..at + 8] == Le64(val)
  }

  /** Some word that relocation k resolves to stands at its target. */
  ghost predicate HoldsResolved(env: Env, m: seq<Byte>, rs: seq<Reloc>, st: State, k: nat, p: Place)
    requires |st.main| == |env.main| && |st.aux| == |env.aux| && k < |rs|
  {
    exists val: U64 :: Resolves(env, Steps(env, rs[..k], st).st, rs[k], p, val) && Word(m, rs[k].at, val)
  }

  /** So the target of every relocation holds what its name resolves to, once both passes are through. */
  lemma NamedTargetHolds(env: Env, m: seq<Byte>, rs: seq<Reloc>, st: State, k: nat, p: Place)
    requires |st.main| == |env.main| && |st.aux| == |env.aux| && TargetsApart(rs)
    requires k < |rs| && !Skipped(rs[k]) && AllKnown(rs)
    requires forall i :: 0 <= i < |rs| && !Skipped(rs[i]) ==> 0 <= rs[i].at <= |m| - 8
    requires LookedUp(env, rs[k].name) && IsPlace(env, rs[k].name, p)
    ensures var run := Steps(env, rs, st);
            && !run.aborted && InBounds(|m|, run.writes)
            && HoldsResolved(env, Patch(m, run.writes), rs, st, k, p)
  {
    RelocationIsSimultaneous(env, m, rs, st, k);
    ResolvesTo(env, Steps(env, rs[..k], st).st, rs[k], p);
    var val := EffectOf(env, Steps(env, rs[..k], st).st, rs[k]).ans.val;
    assert Word(Patch(m, Steps(env, rs, st).writes), rs[k].at, val);
  }

  lemma {:induction false} CounterGrows(env: Env, rs: seq<Reloc>, st: State)
    requires |st.main| == |env.main| && |st.aux| == |env.aux|
    ensures st.counter <= Steps(env, rs, st).st.counter <= st.counter + |rs|
  {
    if rs != [] {
      CounterGrows(env, rs[..|rs| - 1], st);
    }
  }

  lemma UnresolvedGetsSentinel(env: Env, rs: seq<Reloc>, st: State, i: nat)
    requires |st.main| == |env.main| && |st.aux| == |env.aux| && !Steps(env, rs, st).aborted
    requires i < |rs| && rs[i].kind == COPY && !IsData(env, rs[i].name)
    ensures Steps(env, rs, st).writes[i] == Some(Write(rs[i].at, Sentinel(Steps(env, rs[..i], st).st.counter)))
  {
    StepWrite(env, rs, st, i);
  }

  /** The counter in the high half, 0xdeadbeef in the low one. */
  lemma SentinelHalves(counter: nat)
    ensures Sentinel(counter) % 0x1_0000_0000 == 0xdead_beef
    ensures Sentinel(counter) / 0x1_0000_0000 == counter % 0x1_0000_0000
  {
  }

  lemma SentinelInjective(a: nat, b: nat)
    requires a < b < 0x1_0000_0000
    ensures Sentinel(a) != Sentinel(b)
  {
    assert a % 0x1_0000_0000 == a && b % 0x1_0000_0000 == b;
  }

  lemma {:induction false} AbortedPrefix(env: Env, rs: seq<Reloc>, st: State, n: nat)
    requires |st.main| == |env.main| && |st.aux| == |env.aux| && n <= |rs| && !Steps(env, rs, st).aborted
    ensures !Steps(env, rs[..n], st).aborted
  {
    if Steps(env, rs[..n], st).aborted {
      AbortStays(env, rs, st, n);
    }
  }

  /** Two data relocations without a symbol get different sentinels. */
  lemma SentinelsDiffer(env: Env, rs: seq<Reloc>, st: State, i: nat, j: nat)
    requires |st.main| == |env.main| && |st.aux| == |env.aux| && st.counter + |rs| < 0x1_0000_0000
    requires i < j < |rs| && rs[i].kind == rs[j].kind == COPY && !IsData(env, rs[i].name) && !IsData(env, rs[j].name)
    requires !Steps(env, rs, st).aborted
    ensures var ws := Steps(env, rs, st).writes;
            ws[i].Some? && ws[j].Some? && ws[i].value.val != ws[j].value.val
  {
    UnresolvedGetsSentinel(env, rs, st, i);
    UnresolvedGetsSentinel(env, rs, st, j);
    CounterGrows(env, rs[..j], st);
    AbortedPrefix(env, rs, st, j);
    CounterAhead(env, rs, st, i, j);
    SentinelInjective(Steps(env, rs[..i], st).st.counter, Steps(env, rs[..j], st).st.counter);
  }

  /** One relocation counts at most one sentinel: that of data without a symbol. */
  lemma CounterStep(env: Env, rs: seq<Reloc>, st: State, n: nat)
    requires |st.main| == |env.main| && |st.aux| == |env.aux|
    requires n < |rs| && !Steps(env, rs[..n + 1], st).aborted
    ensures !Steps(env, rs[..n], st).aborted
    ensures Steps(env, rs[..n + 1], st).st.counter
            == Steps(env, rs[..n], st).st.counter + if rs[n].kind == COPY && !IsData(env, rs[n].name) then 1 else 0
  {
    StepsGrow(env, rs, st, n);
  }

  /** The relocation asks for a function that no table has. */
  predicate WantsStub(env: Env, r: Reloc) {
    var p := PlaceOf(env, r.name);
    (r.kind == 7 || (r.kind == 6 && !r.plt)) && !(Found(env, p) && SymbolAt(env, p).isFn)
  }

  lemma StubStep(env: Env, rs: seq<Reloc>, st: State, n: nat)
    requires |st.main| == |env.main| && |st.aux| == |env.aux|
    requires n < |rs| && !Steps(env, rs[..n + 1], st).aborted
    ensures !Steps(env, rs[..n], st).aborted
    ensures Steps(env, rs[..n + 1], st).st.stubs
            == Steps(env, rs[..n], st).st.stubs + if WantsStub(env, rs[n]) then 1 else 0
  {
    StepsGrow(env, rs, st, n);
  }

  lemma {:induction false} StubsAhead(env: Env, rs: seq<Reloc>, st: State, i: nat, j: nat)
    requires |st.main| == |env.main| && |st.aux| == |env.aux|
    requires i < j <= |rs| && WantsStub(env, rs[i]) && !Steps(env, rs[..j], st).aborted
    ensures Steps(env, rs[..i], st).st.stubs < Steps(env, rs[..j], st).st.stubs
  {
    StubStep(env, rs, st, j - 1);
    if i < j - 1 {
      StubsAhead(env, rs, st, i, j - 1);
    }
  }

  /** Each function without a symbol gets a stub of its own: the next one made. */
  lemma StubsDiffer(env: Env, rs: seq<Reloc>, st: State, i: nat, j: nat)
    requires |st.main| == |env.main| && |st.aux| == |env.aux| && !Steps(env, rs, st).aborted
    requires i < j < |rs| && WantsStub(env, rs[i]) && WantsStub(env, rs[j])
    ensures var a, b := Steps(env, rs[..i], st).st.stubs, Steps(env, rs[..j], st).st.stubs;
            var ws := Steps(env, rs, st).writes;
            a < b && ws[i] == Some(Write(rs[i].at, env.stub(a))) && ws[j] == Some(Write(rs[j].at, env.stub(b)))
  {
    StepWrite(env, rs, st, i);
    StepWrite(env, rs, st, j);
    AbortedPrefix(env, rs, st, j);
    StubsAhead(env, rs, st, i, j);
  }

  /** A copy of a data symbol is recorded: asked for with target 0 afterwards, the symbol is where it was
      copied to, and no other symbol has moved. */
  lemma CopyIsRecorded(env: Env, st: State, name: CStr, tgt: U64, other: Place)
    requires |st.main| == |env.main| && |st.aux| == |env.aux| && IsData(env, name) && tgt > 1
    ensures var a := ResolveData(env, st, name, tgt);
            && a.val == env.hostWord(SymbolAt(env, PlaceOf(env, name)).value)
            && |a.st.main| == |env.main| && |a.st.aux| == |env.aux|
            && ResolveData(env, a.st, name, 0) == Answer(a.st, tgt)
            && (other != PlaceOf(env, name) ==> Copied(a.st, other) == Copied(st, other))
  {
  }

  /** Before any copy, the symbol is where it is defined. */
  lemma NoCopyYet(env: Env, st: State, name: CStr)
    requires |st.main| == |env.main| && |st.aux| == |env.aux| && IsData(env, name)
    requires Copied(st, PlaceOf(env, name)) == 0
    ensures ResolveData(env, st, name, 0) == Answer(st, SymbolAt(env, PlaceOf(env, name)).value)
  {
  }

  lemma {:induction false} CounterAhead(env: Env, rs: seq<Reloc>, st: State, i: nat, j: nat)
    requires |st.main| == |env.main| && |st.aux| == |env.aux|
    requires i < j <= |rs| && rs[i].kind == COPY && !IsData(env, rs[i].name) && !Steps(env, rs[..j], st).aborted
    ensures Steps(env, rs[..i], st).st.counter < Steps(env, rs[..j], st).st.counter
  {
    CounterStep(env, rs, st, j - 1);
    if i < j - 1 {
      CounterAhead(env, rs, st, i, j - 1);
    }
  }
}