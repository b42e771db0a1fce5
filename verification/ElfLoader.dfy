/**
 Building the image of an executable: where it is mapped, and what each of its bytes is. The file is
 read through a descriptor whose reads may come back short at any point.
 */
module ElfLoader {
  import opened Bytes

  /** PAGE_SIZE as ldr/Makefile sets it. */
  const PAGE: int := 0x4000
  const WORD: int := 0x1_0000_0000_0000_0000
  const PT_LOAD: U32 := 1

  /** A program header: the fields the loader looks at. */
  datatype Phdr = Phdr(kind: U32, offset: U64, vaddr: U64, filesz: U64, memsz: U64)
  {
    predicate Loads() { kind == PT_LOAD }
    function End(): int { vaddr + memsz }
  }

  /** The program header at position i of the file. */
  function PhdrAt(file: seq<Byte>, i: nat): Phdr
    requires i + 56 <= |file|
  {
    Phdr(Load32(file, i), Load64(file, i + 8), Load64(file, i + 16), Load64(file, i + 32), Load64(file, i + 40))
  }

  /** A program header as the gABI lays it out is read field by field. */
  lemma PhdrDecodes(file: seq<Byte>, at: nat, kind: U32, flags: U32, offset: U64, vaddr: U64, paddr: U64, filesz: U64,
                    memsz: U64, align: U64)
    requires at + 56 <= |file|
    requires file[at..at + 56] == Le32(kind) + Le32(flags) + Le64(offset) + Le64(vaddr) + Le64(paddr)
                                  + Le64(filesz) + Le64(memsz) + Le64(align)
    ensures PhdrAt(file, at) == Phdr(kind, offset, vaddr, filesz, memsz)
  {
    var h := file[at..at + 56];
    PhdrFields(h, Le32(kind), Le32(flags), Le64(offset), Le64(vaddr), Le64(paddr), Le64(filesz), Le64(memsz),
               Le64(align));
    PhdrMoved(file, at, 56, 0);
    Load32At(h, 0, kind);
    Load64At(h, 8, offset);
    Load64At(h, 16, vaddr);
    Load64At(h, 32, filesz);
    Load64At(h, 40, memsz);
  }

  lemma PhdrFields(h: seq<Byte>, a: seq<Byte>, b: seq<Byte>, c: seq<Byte>, d: seq<Byte>, e: seq<Byte>, f: seq<Byte>,
                   g: seq<Byte>, k: seq<Byte>)
    requires |a| == |b| == 4 && |c| == |d| == |e| == |f| == |g| == |k| == 8 && h == a + b + c + d + e + f + g + k
    ensures h[0..4] == a && h[8..16] == c && h[16..24] == d && h[32..40] == f && h[40..48] == g
  {
    var back := e + (f + (g + k));
    RightToLeft(a + b + c + d + e, f, g, k);
    RightToLeft(a + b + c, d, e, f + (g + k));
    RightToLeft(a, b, c, d + back);
    assert h[0..] == a + (b + (c + (d + back)));
    Field(h, 0, a, b + (c + (d + back)));
    Field(h, 4, b, c + (d + back));
    Field(h, 8, c, d + back);
    Field(h, 16, d, back);
    Field(h, 24, e, f + (g + k));
    Field(h, 32, f, g + k);
    Field(h, 40, g, k);
  }

  // ---- Where the image lies ----

  /** What x & -PAGE and x | PAGE-1 are on the machine's words; MaskDown and MaskUp state them on
      numbers. */
  lemma PageMasks(x: bv64)
    ensures (x & 0xffff_ffff_ffff_c000) + (x & 0x3fff) == x && x & 0x3fff == x % 0x4000
    ensures x | 0x3fff == (x & 0xffff_ffff_ffff_c000) + 0x3fff
  {
  }

  function MaskDown(x: int): int { x - x % PAGE }
  function MaskUp(x: int): int { x - x % PAGE + (PAGE - 1) }

  ghost predicate Covers(lo: int, hi: int, phs: seq<Phdr>) {
    && lo % 0x4000 == 0 && hi % 0x4000 == 0
    && forall i :: 0 <= i < |phs| && phs[i].kind == 1 ==> lo <= phs[i].vaddr && phs[i].vaddr + phs[i].memsz <= hi
  }

  /** No segment, rounded up to whole pages, reaches the end of the address space. */
  ghost predicate NoWrap(phs: seq<Phdr>) {
    forall i :: 0 <= i < |phs| && phs[i].Loads() ==> phs[i].End() <= WORD - PAGE
  }

  /** Exactly then some range of whole pages within the address space covers the segments. */
  lemma NoWrapIff(phs: seq<Phdr>)
    ensures NoWrap(phs) <==> exists lo: U64, hi: U64 :: Covers(lo, hi, phs)
  {
    if NoWrap(phs) {
      var lo: U64, hi: U64 := 0, WORD - PAGE;
      assert Covers(lo, hi, phs);
    }
  }

  ghost predicate AnyLoads(phs: seq<Phdr>) {
    exists i :: 0 <= i < |phs| && phs[i].Loads()
  }

  /** Where a segment ends as the machine's words have it. */
  function WordEnd(p: Phdr): U64 { (p.vaddr + p.memsz) % WORD }

  /** low and high are the lowest start and the highest end of a loaded segment, as words. */
  ghost predicate Extent(phs: seq<Phdr>, low: int, high: int) {
    && (forall j :: 0 <= j < |phs| && phs[j].Loads() ==> low <= phs[j].vaddr && WordEnd(phs[j]) <= high)
    && (AnyLoads(phs) ==> exists j :: 0 <= j < |phs| && phs[j].Loads() && phs[j].vaddr == low)
    && (high > 0 ==> exists j :: 0 <= j < |phs| && phs[j].Loads() && WordEnd(phs[j]) == high)
  }

  method RawRange(phs: seq<Phdr>) returns (low: U64, high: U64)
    ensures Extent(phs, low, high) && (!AnyLoads(phs) ==> low == WORD - 1)
  {
    low, high := WORD - 1, 0;
    for i := 0 to |phs|
      invariant forall j :: 0 <= j < i && phs[j].Loads() ==> low <= phs[j].vaddr && WordEnd(phs[j]) <= high
      invariant low < WORD - 1 ==> exists j :: 0 <= j < i && phs[j].Loads() && phs[j].vaddr == low
      invariant high > 0 ==> exists j :: 0 <= j < i && phs[j].Loads() && WordEnd(phs[j]) == high
      invariant low == WORD - 1 ==> forall j :: 0 <= j < i && phs[j].Loads() ==> phs[j].vaddr == low
    {
      if phs[i].Loads() {
        if phs[i].vaddr < low {
          low := phs[i].vaddr;
        }
        var end := (phs[i].vaddr + phs[i].memsz) % WORD;
        if end > high {
          high := end;
        }
      }
    }
  }

  /** The range that is mapped covers every loaded segment exactly if some range of whole pages does, and
      then it is the smallest. */
  method AddressRange(phs: seq<Phdr>) returns (low: U64, high: U64)
    ensures AnyLoads(phs) ==> (Covers(low, high, phs) <==> NoWrap(phs))
    ensures AnyLoads(phs) && NoWrap(phs) ==>
              forall lo, hi :: 0 <= hi && Covers(lo, hi, phs) ==> lo <= low && high <= hi
    ensures !AnyLoads(phs) ==> low == WORD - PAGE && high == 0
  {
    low, high := RawRange(phs);
    ghost var lowest, highest := low, high;
    low := MaskDown(low);
    high := (MaskUp((high - 1) % WORD) + 1) % WORD;
    if NoWrap(phs) {
      RangeFits(phs, lowest, highest, low, high);
    } else {
      RangeCannotFit(phs, low, high);
    }
  }

  lemma RangeCannotFit(phs: seq<Phdr>, low: U64, high: U64)
    requires !NoWrap(phs)
    ensures AnyLoads(phs) && !Covers(low, high, phs)
  {
    NoWrapIff(phs);
    var i :| 0 <= i < |phs| && phs[i].Loads() && !(phs[i].End() <= WORD - PAGE);
  }

  lemma EndsAreWords(phs: seq<Phdr>)
    requires NoWrap(phs)
    ensures forall j :: 0 <= j < |phs| && phs[j].Loads() ==> WordEnd(phs[j]) == phs[j].End()
  {
  }

  lemma HighestFits(phs: seq<Phdr>, lowest: U64, highest: U64)
    requires NoWrap(phs) && Extent(phs, lowest, highest)
    ensures highest <= WORD - PAGE
  {
    EndsAreWords(phs);
  }

  lemma RangeFits(phs: seq<Phdr>, lowest: U64, highest: U64, low: U64, high: U64)
    requires NoWrap(phs) && Extent(phs, lowest, highest)
    requires !AnyLoads(phs) ==> lowest == WORD - 1
    requires low == MaskDown(lowest) && high == (MaskUp((highest - 1) % WORD) + 1) % WORD
    ensures AnyLoads(phs) ==>
              Covers(low, high, phs) && forall lo, hi :: 0 <= hi && Covers(lo, hi, phs) ==> lo <= low && high <= hi
    ensures !AnyLoads(phs) ==> low == WORD - PAGE && high == 0
  {
    EndsAreWords(phs);
    HighestFits(phs, lowest, highest);
    Rounded(lowest, highest, low, high);
    forall lo, hi | 0 <= hi && Covers(lo, hi, phs) && AnyLoads(phs)
      ensures lo <= low && high <= hi
    {
      AlignedBelow(lo, lowest);
      if highest > 0 {
        AlignedAbove(hi, highest);
      }
    }
  }

  lemma Rounded(lowest: U64, highest: U64, low: U64, high: U64)
    requires highest <= WORD - PAGE && low == MaskDown(lowest) && high == (MaskUp((highest - 1) % WORD) + 1) % WORD
    ensures low % PAGE == 0 && low <= lowest && high % PAGE == 0 && highest <= high
    ensures high == if highest == 0 then 0 else highest - 1 - (highest - 1) % PAGE + PAGE
  {
  }

  lemma AlignedBelow(a: int, x: int)
    requires a % PAGE == 0 && a <= x
    ensures a <= x - x % PAGE
  {
  }

  lemma AlignedAbove(a: int, x: int)
    requires a % PAGE == 0 && x <= a
    ensures x - 1 - (x - 1) % PAGE + PAGE <= a
  {
  }

  // ---- Reading ----

  /** Two pieces that arrived one behind the other. */
  lemma Joined(buf: seq<Byte>, at: nat, content: seq<Byte>, from: nat, done: nat, chk: nat)
    requires at + done + chk <= |buf| && from + done + chk <= |content|
    requires done > 0 ==> buf[at..at + done] == content[from..from + done]
    requires buf[at + done..at + done + chk] == content[from + done..from + done + chk]
    ensures buf[at..at + done + chk] == content[from..from + done + chk]
  {
    assert buf[at..at + done + chk] == buf[at..at + done] + buf[at + done..at + done + chk];
    assert content[from..from + done + chk] == content[from..from + done] + content[from + done..from + done + chk];
  }

  class File {
    const content: seq<Byte>
    /** What the k-th read() does: fail if negative, else deliver at most one byte more than this. */
    const schedule: nat -> int
    var pos: nat
    var calls: nat

    constructor (content: seq<Byte>, schedule: nat -> int)
      ensures this.content == content && this.schedule == schedule && pos == 0
    {
      this.content, this.schedule := content, schedule;
      pos, calls := 0, 0;
    }

    ghost predicate NeverFails() {
      forall k: nat :: schedule(k) >= 0
    }

    method Seek(offset: U64) returns (r: int)
      modifies `pos
      ensures if offset < 0x8000_0000_0000_0000 then r == offset && pos == offset else r == -1 && pos == old(pos)
    {
      if offset < 0x8000_0000_0000_0000 {
        pos := offset;
        return offset;
      }
      return -1;
    }

    method Read(buf: array<Byte>, at: nat, cnt: nat) returns (chk: int)
      requires at + cnt <= buf.Length && 0 < cnt
      modifies this, buf
      ensures chk <= cnt && (chk <= 0 ==> schedule(old(calls)) < 0 || old(pos) >= |content|)
      ensures pos == old(pos) + if chk > 0 then chk else 0
      ensures chk > 0 ==> pos <= |content| && buf[at..at + chk] == content[old(pos)..pos]
      ensures forall i :: 0 <= i < buf.Length && !(at <= i < at + chk) ==> buf[i] == old(buf[i])
    {
      var room := if pos < |content| then |content| - pos else 0;
      var want := 1 + schedule(calls);
      chk := if want <= 0 then -1 else if want < cnt then want else cnt;
      if chk > room {
        chk := room;
      }
      calls := calls + 1;
      if chk > 0 {
        for i := 0 to chk
          invariant pos == old(pos) && buf[at..at + i] == content[pos..pos + i]
          invariant forall k :: 0 <= k < buf.Length && !(at <= k < at + i) ==> buf[k] == old(buf[k])
        {
          buf[at + i] := content[pos + i];
        }
        pos := pos + chk;
      }
    }

    /** However the reads are cut up, the bytes arrive in one piece or the call fails. */
    method ReadAll(buf: array<Byte>, at: nat, cnt: nat) returns (rc: int)
      requires at + cnt <= buf.Length
      modifies this, buf
      ensures rc == 0 || rc == -1
      ensures rc == 0 ==>
                cnt == 0 || (old(pos) + cnt <= |content| && buf[at..at + cnt] == content[old(pos)..old(pos) + cnt])
      ensures NeverFails() && (cnt == 0 || old(pos) + cnt <= |content|) ==> rc == 0
      ensures forall i :: 0 <= i < buf.Length && !(at <= i < at + cnt) ==> buf[i] == old(buf[i])
    {
      var done := 0;
      var left := cnt;
      while left > 0
        invariant 0 <= left && done + left == cnt && pos == old(pos) + done
        invariant done > 0 ==> pos <= |content| && buf[at..at + done] == content[old(pos)..pos]
        invariant forall i :: 0 <= i < buf.Length && !(at <= i < at + done) ==> buf[i] == old(buf[i])
      {
        label before:
        var chk := Read(buf, at + done, left);
        if chk <= 0 {
          return -1;
        }
        assert buf[at..at + done] == old@before(buf[at..at + done]);
        Joined(buf[..], at, content, old(pos), done, chk);
        done := done + chk;
        left := left - chk;
      }
      return 0;
    }
  }

  // ---- The image ----

  /** The byte that the segments put at an address: the last one that covers it, or 0. */
  function ImageByte(file: seq<Byte>, phs: seq<Phdr>, a: int): Byte
    requires InFile(file, phs)
  {
    if phs == [] then 0
    else
      var p := phs[|phs| - 1];
      if p.Loads() && p.vaddr <= a < p.vaddr + p.filesz then file[p.offset + (a - p.vaddr)]
      else ImageByte(file, phs[..|phs| - 1], a)
  }

  predicate InFile(file: seq<Byte>, phs: seq<Phdr>) {
    forall i :: 0 <= i < |phs| && phs[i].Loads() ==> phs[i].filesz == 0 || phs[i].offset + phs[i].filesz <= |file|
  }

  /** What the loader takes for granted: sizes that fit its int, file parts inside the segments. */
  ghost predicate Loadable(phs: seq<Phdr>) {
    NoWrap(phs) && forall i :: 0 <= i < |phs| && phs[i].Loads() ==>
      phs[i].filesz < 0x8000_0000 && phs[i].filesz <= phs[i].memsz
  }

  ghost predicate SeekableOffsets(phs: seq<Phdr>) {
    forall i :: 0 <= i < |phs| && phs[i].Loads() ==> phs[i].offset < 0x8000_0000_0000_0000
  }

  /** mem holds what the first n segments say, from address low on. */
  ghost predicate Holds(file: seq<Byte>, phs: seq<Phdr>, n: nat, mem: seq<Byte>, low: int)
    requires n <= |phs|
  {
    InFile(file, phs[..n]) && forall k :: 0 <= k < |mem| ==> mem[k] == ImageByte(file, phs[..n], low + k)
  }

  /** What one segment more says of an address. */
  lemma OneSegmentMore(file: seq<Byte>, phs: seq<Phdr>, i: nat, a: int)
    requires i < |phs| && InFile(file, phs[..i + 1])
    ensures InFile(file, phs[..i])
    ensures var p := phs[i];
            ImageByte(file, phs[..i + 1], a) ==
            if p.Loads() && p.vaddr <= a < p.vaddr + p.filesz then file[p.offset + (a - p.vaddr)]
            else ImageByte(file, phs[..i], a)
  {
    assert phs[..i + 1][..i] == phs[..i];
  }

  lemma SegmentLoaded(file: seq<Byte>, phs: seq<Phdr>, i: nat, before: seq<Byte>, mem: seq<Byte>, low: U64)
    requires i < |phs| && phs[i].Loads() && low <= phs[i].vaddr && phs[i].vaddr + phs[i].filesz <= low + |mem|
    requires Holds(file, phs, i, before, low) && |before| == |mem|
    requires phs[i].filesz == 0 || phs[i].offset + phs[i].filesz <= |file|
    requires var p, at := phs[i], phs[i].vaddr - low;
             && (p.filesz > 0 ==> mem[at..at + p.filesz] == file[p.offset..p.offset + p.filesz])
             && forall k :: 0 <= k < |mem| && !(at <= k < at + p.filesz) ==> mem[k] == before[k]
    ensures Holds(file, phs, i + 1, mem, low)
  {
    var p, at := phs[i], phs[i].vaddr - low;
    assert InFile(file, phs[..i + 1]);
    forall k | 0 <= k < |mem|
      ensures mem[k] == ImageByte(file, phs[..i + 1], low + k)
    {
      OneSegmentMore(file, phs, i, low + k);
      if at <= k < at + p.filesz {
        assert mem[k] == mem[at..at + p.filesz][k - at] == file[p.offset..p.offset + p.filesz][k - at];
      }
    }
  }

  lemma NothingLoaded(file: seq<Byte>, phs: seq<Phdr>, i: nat, mem: seq<Byte>, low: int)
    requires i < |phs| && !phs[i].Loads() && Holds(file, phs, i, mem, low)
    ensures Holds(file, phs, i + 1, mem, low)
  {
    assert phs[..i + 1][..i] == phs[..i];
  }

  method LoadSegments(f: File, phs: seq<Phdr>, mem: array<Byte>, low: U64) returns (ok: bool)
    requires Loadable(phs)
    requires forall i :: 0 <= i < |phs| && phs[i].Loads() ==> low <= phs[i].vaddr && phs[i].End() <= low + mem.Length
    requires forall k :: 0 <= k < mem.Length ==> mem[k] == 0
    modifies f, mem
    ensures ok ==> && InFile(f.content, phs)
                   && forall k :: 0 <= k < mem.Length ==> mem[k] == ImageByte(f.content, phs, low + k)
    ensures f.NeverFails() && InFile(f.content, phs) && SeekableOffsets(phs) ==> ok
  {
    for i := 0 to |phs|
      invariant Holds(f.content, phs, i, mem[..], low)
    {
      var p := phs[i];
      ghost var before := mem[..];
      if p.Loads() {
        var at := f.Seek(p.offset);
        if at != p.offset {
          return false;
        }
        var rc := f.ReadAll(mem, p.vaddr - low, p.filesz);
        if rc != 0 {
          return false;
        }
        SegmentLoaded(f.content, phs, i, before, mem[..], low);
      } else {
        NothingLoaded(f.content, phs, i, before, low);
      }
    }
    assert phs[..|phs|] == phs;
    return true;
  }

  /** No two loaded segments overlap in memory. */
  ghost predicate Disjoint(phs: seq<Phdr>) {
    forall i, j :: 0 <= i < j < |phs| && phs[i].Loads() && phs[j].Loads() ==>
      phs[i].End() <= phs[j].vaddr || phs[j].End() <= phs[i].vaddr
  }

  /** The bytes of a segment below its file size are the file's. */
  lemma {:induction false} SegmentBytes(file: seq<Byte>, phs: seq<Phdr>, i: nat, k: nat)
    requires InFile(file, phs) && Loadable(phs) && Disjoint(phs)
    requires i < |phs| && phs[i].kind == 1 && k < phs[i].filesz
    ensures ImageByte(file, phs, phs[i].vaddr + k) == file[phs[i].offset + k]
  {
    var n := |phs| - 1;
    if i < n {
      assert phs[..n][i] == phs[i];
      SegmentBytes(file, phs[..n], i, k);
    }
  }

  /** Every other byte is 0, the tail of a segment behind its file size included. */
  lemma {:induction false} OtherBytes(file: seq<Byte>, phs: seq<Phdr>, a: int)
    requires InFile(file, phs)
    requires forall i :: 0 <= i < |phs| && phs[i].kind == 1 ==> !(phs[i].vaddr <= a < phs[i].vaddr + phs[i].filesz)
    ensures ImageByte(file, phs, a) == 0
  {
    if phs != [] {
      OtherBytes(file, phs[..|phs| - 1], a);
    }
  }

  // ---- The whole load ----

  ghost predicate HeaderOk(file: seq<Byte>) {
    && |file| >= 64 && Load16(file, 54) == 56
    && Load64(file, 32) < 0x8000_0000_0000_0000
    && (Load16(file, 56) > 0 ==> Load64(file, 32) + 56 * Load16(file, 56) <= |file|)
  }

  ghost function Phdrs(file: seq<Byte>): seq<Phdr>
    requires HeaderOk(file)
  {
    seq(Load16(file, 56) as nat, i requires 0 <= i < Load16(file, 56) => PhdrAt(file, Load64(file, 32) + 56 * i))
  }

  /** The file header as the gABI lays it out, up to the number of program headers: the fields used are the
      entry point, and where, how large and how many the program headers are. */
  lemma EhdrDecodes(file: seq<Byte>, ident: seq<Byte>, kind: U16, machine: U16, version: U32, entry: U64, phoff: U64,
                    shoff: U64, flags: U32, ehsize: U16, phentsize: U16, phnum: U16)
    requires 64 <= |file| && |ident| == 16
    requires file[..58] == ident + Le16(kind) + Le16(machine) + Le32(version) + Le64(entry) + Le64(phoff) + Le64(shoff)
                           + Le32(flags) + Le16(ehsize) + Le16(phentsize) + Le16(phnum)
    ensures Load64(file, 24) == entry
    ensures HeaderOk(file) <==> phentsize == 56 && (phoff < 0x8000_0000_0000_0000)
                                && (phnum > 0 ==> phoff + 56 * phnum <= |file|)
    ensures HeaderOk(file) ==>
              |Phdrs(file)| == phnum && forall i :: 0 <= i < phnum ==> Phdrs(file)[i] == PhdrAt(file, phoff + 56 * i)
  {
    var h := file[..58];
    var front := ident + Le16(kind) + Le16(machine) + Le32(version);
    var back := Le32(flags) + Le16(ehsize) + (Le16(phentsize) + Le16(phnum));
    RightToLeft(front, Le64(entry), Le64(phoff), Le64(shoff));
    EhdrBack(h, front + Le64(entry) + Le64(phoff) + Le64(shoff), Le32(flags), Le16(ehsize), Le16(phentsize),
             Le16(phnum));
    EhdrFront(h, front, Le64(entry), Le64(phoff), Le64(shoff),
              Le32(flags) + Le16(ehsize) + Le16(phentsize) + Le16(phnum));
    Load64At(h, 24, entry);
    Load64At(h, 32, phoff);
    Load16At(h, 54, phentsize);
    Load16At(h, 56, phnum);
    assert forall i :: 0 <= i < 58 ==> h[i] == file[i];
  }

  lemma EhdrBack(h: seq<Byte>, front: seq<Byte>, a: seq<Byte>, b: seq<Byte>, c: seq<Byte>, d: seq<Byte>)
    requires |front| == 48 && |a| == 4 && |b| == |c| == |d| == 2 && h == front + a + b + c + d
    ensures h[54..56] == c && h[56..58] == d
  {
    assert h[0..] == (front + a + b) + (c + d);
    Field(h, 0, front + a + b, c + d);
    Field(h, 54, c, d);
  }

  lemma EhdrFront(h: seq<Byte>, front: seq<Byte>, a: seq<Byte>, b: seq<Byte>, c: seq<Byte>, back: seq<Byte>)
    requires |front| == 24 && |a| == |b| == |c| == 8 && h == front + a + b + c + back
    ensures h[24..32] == a && h[32..40] == b
  {
    assert h[0..] == front + (a + (b + (c + back)));
    Field(h, 0, front, a + (b + (c + back)));
    Field(h, 24, a, b + (c + back));
    Field(h, 32, b, c + back);
  }

  datatype LoadResult = Error | Loaded(entry: U64, low: U64, high: U64, mem: array<Byte>)

  /** The program headers of a table at phoff. */
  ghost predicate TableAt(file: seq<Byte>, phoff: nat, phs: seq<Phdr>) {
    && (|phs| > 0 ==> phoff + 56 * |phs| <= |file|)
    && forall i :: 0 <= i < |phs| ==> phs[i] == PhdrAt(file, phoff + 56 * i)
  }

  method ReadTable(f: File, phoff: nat, phnum: nat) returns (ok: bool, phs: seq<Phdr>)
    requires f.pos == phoff
    modifies f
    ensures ok ==> |phs| == phnum && TableAt(f.content, phoff, phs)
    ensures f.NeverFails() && (phnum == 0 || phoff + 56 * phnum <= |f.content|) ==> ok
  {
    phs := [];
    var ph := new Byte[phnum * 56];
    var rc := f.ReadAll(ph, 0, phnum * 56);
    ok := rc == 0;
    if ok {
      assert ph[..] == ph[0..phnum * 56];
      phs := Rows(ph[..], phnum);
      if phnum > 0 {
        RowsAt(f.content, phoff, phnum);
      }
    }
  }

  /** The table as its rows. */
  function Rows(table: seq<Byte>, phnum: nat): seq<Phdr>
    requires |table| == 56 * phnum
  {
    seq(phnum, i requires 0 <= i < phnum => PhdrAt(table, 56 * i))
  }

  lemma RowsAt(file: seq<Byte>, phoff: nat, phnum: nat)
    requires phoff + 56 * phnum <= |file|
    ensures TableAt(file, phoff, Rows(file[phoff..phoff + 56 * phnum], phnum))
  {
    forall i | 0 <= i < phnum
      ensures PhdrAt(file[phoff..phoff + 56 * phnum], 56 * i) == PhdrAt(file, phoff + 56 * i)
    {
      PhdrMoved(file, phoff, 56 * phnum, 56 * i);
    }
  }

  lemma PhdrMoved(file: seq<Byte>, phoff: nat, len: nat, i: nat)
    requires phoff + len <= |file| && i + 56 <= len
    ensures PhdrAt(file[phoff..phoff + len], i) == PhdrAt(file, phoff + i)
  {
  }

  lemma HeaderLoads(file: seq<Byte>)
    requires 64 <= |file|
    ensures Load64(file[..64], 24) == Load64(file, 24) && Load64(file[..64], 32) == Load64(file, 32)
    ensures Load16(file[..64], 54) == Load16(file, 54) && Load16(file[..64], 56) == Load16(file, 56)
  {
  }

  method ReadPhdrs(f: File) returns (ok: bool, entry: U64, phs: seq<Phdr>)
    requires f.pos == 0
    modifies f
    ensures ok ==> HeaderOk(f.content) && entry == Load64(f.content, 24) && phs == Phdrs(f.content)
    ensures f.NeverFails() && HeaderOk(f.content) ==> ok
  {
    ok, entry, phs := false, 0, [];
    var data := new Byte[64];
    var rc := f.ReadAll(data, 0, 64);
    if rc != 0 {
      return;
    }
    assert data[..] == data[0..64] == f.content[..64];
    HeaderLoads(f.content);
    entry := Load64(data[..], 24);
    var phoff := Load64(data[..], 32);
    var phnum: nat := Load16(data[..], 56);
    if Load16(data[..], 54) != 56 {
      return;
    }
    var at := f.Seek(phoff);
    if at != phoff {
      return;
    }
    ok, phs := ReadTable(f, phoff, phnum);
  }

  /** Mapping and filling, once the headers are known. */
  method BuildImage(f: File, entry: U64, phs: seq<Phdr>, mmapOk: bool) returns (r: LoadResult)
    requires Loadable(phs)
    modifies f
    ensures r.Loaded? ==> fresh(r.mem) && r.entry == entry && InFile(f.content, phs)
    ensures r.Loaded? && AnyLoads(phs) ==>
              && Covers(r.low, r.high, phs) && r.mem.Length == r.high - r.low
              && (forall lo, hi :: 0 <= hi && Covers(lo, hi, phs) ==> lo <= r.low && r.high <= hi)
              && (forall k :: 0 <= k < r.mem.Length ==> r.mem[k] == ImageByte(f.content, phs, r.low + k))
    ensures r.Loaded? <== f.NeverFails() && mmapOk && InFile(f.content, phs) && SeekableOffsets(phs)
  {
    var low, high := AddressRange(phs);
    if !mmapOk {
      return Error;
    }
    assert AnyLoads(phs) ==> low <= high by {
      if AnyLoads(phs) {
        var i :| 0 <= i < |phs| && phs[i].Loads();
      }
    }
    var mem := new Byte[(high - low) % WORD](_ => 0);
    var ok := LoadSegments(f, phs, mem, low);
    if !ok {
      return Error;
    }
    return Loaded(entry, low, high, mem);
  }

  /** mmapOk says whether the mapping could be made where it is asked for. */
  method LoadElf(f: File, mmapOk: bool) returns (r: LoadResult, phs: seq<Phdr>)
    requires f.pos == 0
    requires HeaderOk(f.content) ==> Loadable(Phdrs(f.content))
    modifies f
    ensures r.Loaded? ==> fresh(r.mem) && HeaderOk(f.content) && r.entry == Load64(f.content, 24)
                          && phs == Phdrs(f.content) && InFile(f.content, phs)
    ensures r.Loaded? && AnyLoads(Phdrs(f.content)) ==>
              && Covers(r.low, r.high, Phdrs(f.content)) && r.mem.Length == r.high - r.low
              && (forall lo, hi :: 0 <= hi && Covers(lo, hi, Phdrs(f.content)) ==> lo <= r.low && r.high <= hi)
              && (forall k :: 0 <= k < r.mem.Length ==> r.mem[k] == ImageByte(f.content, Phdrs(f.content), r.low + k))
    ensures r.Loaded? <== f.NeverFails() && mmapOk && HeaderOk(f.content)
                          && InFile(f.content, Phdrs(f.content)) && SeekableOffsets(Phdrs(f.content))
  {
    var ok, entry;
    ok, entry, phs := ReadPhdrs(f);
    if !ok {
      return Error, phs;
    }
    r := BuildImage(f, entry, phs, mmapOk);
  }
}
