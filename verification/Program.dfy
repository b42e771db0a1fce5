/**
 load_elf from end to end: the image is built, its dynamic section is read out of the image, and the
 tables found there are worked through.
 */
module Program {
  import opened Bytes
  import opened ElfLoader
  import opened Relocations

  const PT_DYNAMIC: U32 := 2

  // ---- The dynamic section ----

  function Key(m: seq<Byte>, d: nat, i: nat): U64
    requires d + 16 * (i + 1) <= |m|
  {
    Load64(m, d + 16 * i)
  }

  function Value(m: seq<Byte>, d: nat, i: nat): U64
    requires d + 16 * (i + 1) <= |m|
  {
    Load64(m, d + 16 * i + 8)
  }

  /** The value of the last of the first n entries with that key, or 0. */
  function LastValue(m: seq<Byte>, d: nat, n: nat, key: U64): U64
    requires d + 16 * n <= |m|
  {
    if n == 0 then 0
    else if Key(m, d, n - 1) == key then Value(m, d, n - 1)
    else LastValue(m, d, n - 1, key)
  }

  /** What the first n entries at position d say. */
  function TablesOf(m: seq<Byte>, base: U64, d: nat, n: nat): Tables
    requires d + 16 * n <= |m|
  {
    Tables(base, LastValue(m, d, n, 7), LastValue(m, d, n, 8), LastValue(m, d, n, 23), LastValue(m, d, n, 2),
           LastValue(m, d, n, 6), LastValue(m, d, n, 5))
  }

  lemma TablesGrow(m: seq<Byte>, base: U64, d: nat, n: nat)
    requires d + 16 * (n + 1) <= |m|
    ensures var t, value := TablesOf(m, base, d, n), Value(m, d, n);
            TablesOf(m, base, d, n + 1) ==
            match Key(m, d, n)
            case 7 => t.(reladyn := value)
            case 8 => t.(reladynSz := value)
            case 23 => t.(relaplt := value)
            case 2 => t.(relapltSz := value)
            case 6 => t.(symtab := value)
            case 5 => t.(strtab := value)
            case _ => t
  {
  }

  ghost predicate LastAt(m: seq<Byte>, d: nat, n: nat, key: U64, i: nat)
    requires d + 16 * n <= |m| && i < n
  {
    Key(m, d, i) == key && forall j {:trigger Key(m, d, j)} :: i < j < n ==> Key(m, d, j) != key
  }

  lemma {:induction false} LastValueAt(m: seq<Byte>, d: nat, n: nat, key: U64, i: nat)
    requires d + 16 * n <= |m| && i < n && LastAt(m, d, n, key, i)
    ensures LastValue(m, d, n, key) == Value(m, d, i)
  {
    if i < n - 1 {
      LastValueAt(m, d, n - 1, key, i);
    }
  }

  /** The order of the entries does not matter to a key that has no more than one. */
  lemma {:induction false} ValueOfOnlyEntry(m: seq<Byte>, d: nat, n: nat, key: U64, i: nat)
    requires d + 16 * n <= |m| && i < n && Key(m, d, i) == key
    requires forall j {:trigger Key(m, d, j)} :: 0 <= j < n && j != i ==> Key(m, d, j) != key
    ensures LastValue(m, d, n, key) == Value(m, d, i)
  {
    LastValueAt(m, d, n, key, i);
  }

  lemma {:induction false} AbsentIsZero(m: seq<Byte>, d: nat, n: nat, key: U64)
    requires d + 16 * n <= |m| && forall j {:trigger Key(m, d, j)} :: 0 <= j < n ==> Key(m, d, j) != key
    ensures LastValue(m, d, n, key) == 0
  {
    if n > 0 {
      AbsentIsZero(m, d, n - 1, key);
    }
  }

  /** Where the dynamic section lies, by the last program header that names one, and its size. */
  function DynAddr(phs: seq<Phdr>): U64 {
    if phs == [] then 0
    else if phs[|phs| - 1].kind == PT_DYNAMIC then phs[|phs| - 1].vaddr
    else DynAddr(phs[..|phs| - 1])
  }

  function DynSize(phs: seq<Phdr>): U64 {
    if phs == [] then 0
    else if phs[|phs| - 1].kind == PT_DYNAMIC then phs[|phs| - 1].memsz
    else DynSize(phs[..|phs| - 1])
  }

  /** The section is the one that the last PT_DYNAMIC header names. */
  lemma {:induction false} DynamicIs(phs: seq<Phdr>, i: nat)
    requires i < |phs| && phs[i].kind == 2 && forall j :: i < j < |phs| ==> phs[j].kind != 2
    ensures DynAddr(phs) == phs[i].vaddr && DynSize(phs) == phs[i].memsz
  {
    if i < |phs| - 1 {
      DynamicIs(phs[..|phs| - 1], i);
    }
  }

  lemma {:induction false} NoDynamic(phs: seq<Phdr>)
    requires forall j :: 0 <= j < |phs| ==> phs[j].kind != 2
    ensures DynAddr(phs) == 0 && DynSize(phs) == 0
  {
    if phs != [] {
      NoDynamic(phs[..|phs| - 1]);
    }
  }

  method FindDynamic(phs: seq<Phdr>) returns (addr: U64, size: U64)
    ensures addr == DynAddr(phs) && size == DynSize(phs)
  {
    addr, size := 0, 0;
    for i := 0 to |phs|
      invariant addr == DynAddr(phs[..i]) && size == DynSize(phs[..i])
    {
      assert phs[..i + 1][..i] == phs[..i];
      if phs[i].kind == PT_DYNAMIC {
        addr, size := phs[i].vaddr, phs[i].memsz;
      }
    }
    assert phs[..|phs|] == phs;
  }

  /** How many entries a loop `i += 16 while i < size` looks at. */
  function Entries(size: U64): nat { (size + 15) / 16 }

  /** The whole section is read, past its DT_NULL as well. */
  method ScanDynamic(mem: array<Byte>, base: U64, d: int, size: U64) returns (t: Tables)
    requires size > 0 ==> 0 <= d <= mem.Length - 16 * Entries(size)
    ensures size > 0 ==> t == TablesOf(mem[..], base, d, Entries(size))
    ensures size == 0 ==> t == Tables(base, 0, 0, 0, 0, 0, 0)
  {
    t := Tables(base, 0, 0, 0, 0, 0, 0);
    ghost var n := 0;
    var i := 0;
    while i < size
      invariant i == 16 * n && n <= Entries(size)
      invariant size > 0 ==> t == TablesOf(mem[..], base, d, n)
      invariant size == 0 ==> t == Tables(base, 0, 0, 0, 0, 0, 0)
      decreases size - i
    {
      assert n < Entries(size);
      var key, value := Load64(mem[..], d + i), Load64(mem[..], d + i + 8);
      TablesGrow(mem[..], base, d, n);
      if key == 7 {
        t := t.(reladyn := value);
      } else if key == 8 {
        t := t.(reladynSz := value);
      } else if key == 23 {
        t := t.(relaplt := value);
      } else if key == 2 {
        t := t.(relapltSz := value);
      } else if key == 6 {
        t := t.(symtab := value);
      } else if key == 5 {
        t := t.(strtab := value);
      }
      i, n := i + 16, n + 1;
    }
  }

  // ---- The whole loader ----

  /** The image mapped at low, up to high. */
  function Image(file: seq<Byte>, phs: seq<Phdr>, low: U64, high: U64): (m: seq<Byte>)
    requires InFile(file, phs) && low <= high
    ensures |m| == high - low && forall k :: 0 <= k < |m| ==> m[k] == ImageByte(file, phs, low + k)
  {
    seq<Byte>(high - low, k requires 0 <= k < high - low => ImageByte(file, phs, low + k))
  }

  /** low and high bound the smallest range of whole pages that covers every segment. */
  ghost predicate Smallest(low: int, high: int, phs: seq<Phdr>) {
    Covers(low, high, phs) && forall lo, hi :: 0 <= hi && Covers(lo, hi, phs) ==> lo <= low && high <= hi
  }

  ghost predicate DynFits(m: seq<Byte>, base: U64, phs: seq<Phdr>) {
    DynSize(phs) > 0 ==> 0 <= DynAddr(phs) - base <= |m| - 16 * Entries(DynSize(phs))
  }

  ghost function DynTables(m: seq<Byte>, base: U64, phs: seq<Phdr>): Tables
    requires DynFits(m, base, phs)
  {
    if DynSize(phs) == 0 then Tables(base, 0, 0, 0, 0, 0, 0)
    else TablesOf(m, base, DynAddr(phs) - base, Entries(DynSize(phs)))
  }

  /** Entry i of the section at d: its tag is its first word. */
  predicate EntryIs(m: seq<Byte>, d: int, i: nat, tag: U64)
  {
    0 <= d && d + 16 * i + 16 <= |m| && Load64(m, d + 16 * i) == tag
  }

  /** val is the second word of the last entry with that tag among those that begin below size; or it is 0,
      and there is no such entry. */
  ghost predicate FieldIs(m: seq<Byte>, d: int, size: U64, tag: U64, val: U64) {
    || (exists i: nat :: 16 * i < size && EntryIs(m, d, i, tag) && Load64(m, d + 16 * i + 8) == val
                         && forall j: nat :: i < j && 16 * j < size ==> !EntryIs(m, d, j, tag))
    || (val == 0 && forall j: nat :: 16 * j < size ==> !EntryIs(m, d, j, tag))
  }

  lemma {:induction false} LastValueIs(m: seq<Byte>, d: nat, n: nat, key: U64)
    requires d + 16 * n <= |m|
    ensures || (exists i: nat :: i < n && EntryIs(m, d, i, key) && Load64(m, d + 16 * i + 8) == LastValue(m, d, n, key)
                                 && forall j: nat :: i < j < n ==> !EntryIs(m, d, j, key))
            || (LastValue(m, d, n, key) == 0 && forall j: nat :: j < n ==> !EntryIs(m, d, j, key))
  {
    if n > 0 {
      assert EntryIs(m, d, n - 1, key) <==> Key(m, d, n - 1) == key;
      if Key(m, d, n - 1) != key {
        LastValueIs(m, d, n - 1, key);
      }
    }
  }

  lemma FieldOf(m: seq<Byte>, d: nat, size: U64, key: U64)
    requires size > 0 && d + 16 * Entries(size) <= |m|
    ensures FieldIs(m, d, size, key, LastValue(m, d, Entries(size), key))
  {
    LastValueIs(m, d, Entries(size), key);
    assert forall i: nat :: i < Entries(size) <==> 16 * i < size;
  }

  /** What a tag of the gABI stands for: DT_RELA, DT_RELASZ, DT_JMPREL, DT_PLTRELSZ, DT_SYMTAB, DT_STRTAB. */
  function Tagged(t: Tables, tag: U64): U64 {
    match tag
    case 7 => t.reladyn
    case 8 => t.reladynSz
    case 23 => t.relaplt
    case 2 => t.relapltSz
    case 6 => t.symtab
    case 5 => t.strtab
    case _ => 0
  }

  /** The tables are those that the dynamic section names. */
  lemma DynTableIs(m: seq<Byte>, base: U64, phs: seq<Phdr>, tag: U64)
    requires DynFits(m, base, phs) && tag in {7, 8, 23, 2, 6, 5}
    ensures var t := DynTables(m, base, phs);
            t.base == base && FieldIs(m, DynAddr(phs) - base, DynSize(phs), tag, Tagged(t, tag))
  {
    if DynSize(phs) > 0 {
      FieldOf(m, DynAddr(phs) - base, DynSize(phs), tag);
    } else {
      NoField(m, DynAddr(phs) - base, tag);
    }
  }

  lemma NoField(m: seq<Byte>, d: int, tag: U64)
    ensures FieldIs(m, d, 0, tag, 0)
  {
  }

  /** The dynamic section, the tables it names and all their targets lie in the image, and no target in
      what the passes read. */
  ghost predicate Linkable(m: seq<Byte>, base: U64, phs: seq<Phdr>) {
    DynFits(m, base, phs) && Patchable(m, DynTables(m, base, phs))
  }

  method Link(mem: array<Byte>, base: U64, phs: seq<Phdr>, loader: Loader) returns (ok: bool)
    requires loader.mem == mem && loader.Sized() && Linkable(mem[..], base, phs)
    modifies loader, mem
    ensures var m := old(mem[..]);
            var run := Steps(loader.env, Relocs(m, DynTables(m, base, phs)), old(loader.St()));
            ok == !run.aborted && loader.St() == run.st && InBounds(|m|, run.writes) && mem[..] == Patch(m, run.writes)
  {
    ghost var m := mem[..];
    var addr, size := FindDynamic(phs);
    var t := ScanDynamic(mem, base, addr - base, size);
    assert mem[..] == m && t == DynTables(m, base, phs);
    ok := loader.Relocate(t);
  }

  /** Whether the program starts, and where its image lies. */
  datatype Outcome = Failed | Aborted(low: U64, high: U64) | Started(low: U64, high: U64, entry: U64, mem: array<Byte>)

  /** What the loader takes for granted of a file whose parts are all there. */
  ghost predicate WellLinked(file: seq<Byte>)
    requires HeaderOk(file) && InFile(file, Phdrs(file))
  {
    && AnyLoads(Phdrs(file))
    && forall low: U64, high: U64 :: low <= high && Smallest(low, high, Phdrs(file)) ==>
         Linkable(Image(file, Phdrs(file), low, high), low, Phdrs(file))
  }

  /** No symbol copied yet, no sentinel handed out, no stub made. */
  function Unresolved(env: Env): State {
    State(seq(|env.main|, _ => 0), seq(|env.aux|, _ => 0), 1, 0)
  }

  /** The relocations of the file, as its image at low holds them. */
  ghost function RelocsOf(file: seq<Byte>, low: U64, high: U64): seq<Reloc>
    requires HeaderOk(file) && InFile(file, Phdrs(file)) && WellLinked(file)
    requires low <= high && Smallest(low, high, Phdrs(file))
  {
    var m := Image(file, Phdrs(file), low, high);
    Relocs(m, DynTables(m, low, Phdrs(file)))
  }

  /** The passes over the image of the file, as far as they come. */
  ghost function Passes(file: seq<Byte>, env: Env, low: U64, high: U64): Run
    requires HeaderOk(file) && InFile(file, Phdrs(file)) && WellLinked(file)
    requires low <= high && Smallest(low, high, Phdrs(file))
  {
    Steps(env, RelocsOf(file, low, high), Unresolved(env))
  }

  /** The memory that the passes leave. */
  ghost function Linked(file: seq<Byte>, env: Env, low: U64, high: U64): seq<Byte>
    requires HeaderOk(file) && InFile(file, Phdrs(file)) && WellLinked(file)
    requires low <= high && Smallest(low, high, Phdrs(file))
    requires InBounds(high - low, Passes(file, env, low, high).writes)
  {
    Patch(Image(file, Phdrs(file), low, high), Passes(file, env, low, high).writes)
  }

  ghost function TablesIn(file: seq<Byte>, low: U64, high: U64): Tables
    requires HeaderOk(file) && InFile(file, Phdrs(file)) && WellLinked(file)
    requires low <= high && Smallest(low, high, Phdrs(file))
  {
    DynTables(Image(file, Phdrs(file), low, high), low, Phdrs(file))
  }

  /** The relocations of a program are one for each row of 24 bytes that begins in a table, made of the
      bytes of the row, first those of the one table and then those of the other, and no more. */
  lemma RelocsOfRows(file: seq<Byte>, low: U64, high: U64) returns (n: nat)
    requires HeaderOk(file) && InFile(file, Phdrs(file)) && WellLinked(file)
    requires low <= high && Smallest(low, high, Phdrs(file))
    ensures RowsSay(Image(file, Phdrs(file), low, high), TablesIn(file, low, high), RelocsOf(file, low, high), n)
  {
    var m := Image(file, Phdrs(file), low, high);
    assert Linkable(m, low, Phdrs(file));
    RelocsAreSaid(m, TablesIn(file, low, high));
    n := Count(TablesIn(file, low, high).reladynSz);
  }

  /** In the memory of a program with disjoint targets and known kinds, the target of every row that begins in
      a table, but for the rows of kind 6 in the second, holds what the name of the row resolves to: a
      symbol, a stub or a sentinel; r is what the bytes of the row say, and p where its name stands in the
      symbol tables. */
  lemma NamedTarget(file: seq<Byte>, env: Env, low: U64, high: U64, i: nat, r: Reloc, p: Place) returns (k: nat)
    requires HeaderOk(file) && InFile(file, Phdrs(file)) && WellLinked(file)
    requires low <= high && Smallest(low, high, Phdrs(file))
    requires AllKnown(RelocsOf(file, low, high)) && TargetsApart(RelocsOf(file, low, high))
    requires var t := TablesIn(file, low, high);
             && 24 * i < (if r.plt then t.relapltSz else t.reladynSz)
             && SaidAt(Image(file, Phdrs(file), low, high), t, RowAt(t, r.plt, i), r)
    requires !(r.plt && r.kind == 6) && LookedUp(env, r.name) && IsPlace(env, r.name, p)
    ensures !Passes(file, env, low, high).aborted && InBounds(high - low, Passes(file, env, low, high).writes)
    ensures k < |RelocsOf(file, low, high)| && RelocsOf(file, low, high)[k] == r
    ensures HoldsResolved(env, Linked(file, env, low, high), RelocsOf(file, low, high), Unresolved(env), k, p)
  {
    k := RowReloc(file, low, high, i, r);
    TargetsInImage(file, low, high);
    NamedTargetHolds(env, Image(file, Phdrs(file), low, high), RelocsOf(file, low, high), Unresolved(env), k, p);
  }

  /** The relocation made of row i. */
  lemma RowReloc(file: seq<Byte>, low: U64, high: U64, i: nat, r: Reloc) returns (k: nat)
    requires HeaderOk(file) && InFile(file, Phdrs(file)) && WellLinked(file)
    requires low <= high && Smallest(low, high, Phdrs(file))
    requires var t := TablesIn(file, low, high);
             && 24 * i < (if r.plt then t.relapltSz else t.reladynSz)
             && SaidAt(Image(file, Phdrs(file), low, high), t, RowAt(t, r.plt, i), r)
    ensures k < |RelocsOf(file, low, high)| && RelocsOf(file, low, high)[k] == r
  {
    var n := RelocsOfRows(file, low, high);
    k := RowSaid(Image(file, Phdrs(file), low, high), TablesIn(file, low, high), RelocsOf(file, low, high), n, i, r);
  }

  /** And every byte that is in no target is still that of the image. */
  lemma RestOfImage(file: seq<Byte>, env: Env, low: U64, high: U64, x: nat)
    requires HeaderOk(file) && InFile(file, Phdrs(file)) && WellLinked(file)
    requires low <= high && Smallest(low, high, Phdrs(file)) && x < high - low
    requires var rs := RelocsOf(file, low, high);
             AllKnown(rs) && forall i :: 0 <= i < |rs| && !Skipped(rs[i]) ==> !(rs[i].at <= x < rs[i].at + 8)
    ensures InBounds(high - low, Passes(file, env, low, high).writes)
    ensures Linked(file, env, low, high)[x] == ImageByte(file, Phdrs(file), low + x)
  {
    var rs := RelocsOf(file, low, high);
    TargetsInImage(file, low, high);
    AbortsIff(env, rs, Unresolved(env));
    Untouched(env, Image(file, Phdrs(file), low, high), rs, Unresolved(env), x);
  }

  lemma TargetsInImage(file: seq<Byte>, low: U64, high: U64)
    requires HeaderOk(file) && InFile(file, Phdrs(file)) && WellLinked(file)
    requires low <= high && Smallest(low, high, Phdrs(file))
    ensures var rs := RelocsOf(file, low, high);
            forall i :: 0 <= i < |rs| && Writes(rs[i]) ==> 0 <= rs[i].at <= high - low - 8
  {
    assert Linkable(Image(file, Phdrs(file), low, high), low, Phdrs(file));
  }

  /** The memory of a program that starts is the image of its file with the relocations made. */
  method LoadProgram(f: File, mmapOk: bool, env: Env) returns (r: Outcome)
    requires f.pos == 0
    requires HeaderOk(f.content) ==> Loadable(Phdrs(f.content))
    requires HeaderOk(f.content) && InFile(f.content, Phdrs(f.content)) ==> WellLinked(f.content)
    modifies f
    ensures !r.Failed? ==>
              && HeaderOk(f.content) && InFile(f.content, Phdrs(f.content))
              && r.low <= r.high && Smallest(r.low, r.high, Phdrs(f.content))
              && var run := Passes(f.content, env, r.low, r.high);
              && (r.Aborted? <==> run.aborted)
              && InBounds(r.high - r.low, run.writes)
              && (r.Started? ==>
                    && r.entry == Load64(f.content, 24)
                    && r.mem[..] == Linked(f.content, env, r.low, r.high))
    ensures !r.Failed? <== f.NeverFails() && mmapOk && HeaderOk(f.content)
                           && InFile(f.content, Phdrs(f.content)) && SeekableOffsets(Phdrs(f.content))
  {
    var image, phs := LoadElf(f, mmapOk);
    if image.Error? {
      return Failed;
    }
    assert image.mem[..] == Image(f.content, phs, image.low, image.high);
    var loader := new Loader(image.mem, env);
    var ok := Link(image.mem, image.low, phs, loader);
    r := if ok then Started(image.low, image.high, image.entry, image.mem) else Aborted(image.low, image.high);
  }
}
