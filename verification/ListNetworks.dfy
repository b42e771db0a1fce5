/**
 list_networks: the text of `hamachi list` is cut into lines in place, and two passes over it, one
 that counts and one that fills, lay out the network names behind their pointers.
 */
module ListNetworks {
  import opened Options

  const NUL: char := '\0'
  const MARK: string := " * ["

  // ---- What the names are ----

  predicate IsEnd(c: char) { c == '\n' || c == NUL }

  /** Empty, or the last line is ended. */
  predicate Ended(s: string) { s == [] || IsEnd(s[|s| - 1]) }

  /** Where the line that starts at p ends. */
  function LineEnd(s: string, p: nat): (e: nat)
    requires p <= |s|
    ensures p <= e <= |s|
    decreases |s| - p
  {
    if p == |s| || IsEnd(s[p]) then p else LineEnd(s, p + 1)
  }

  /** The position of the first ']' from k on, or the length. */
  function Bracket(line: string, k: nat): (r: nat)
    requires k <= |line|
    ensures k <= r <= |line|
    decreases |line| - k
  {
    if k == |line| || line[k] == ']' then k else Bracket(line, k + 1)
  }

  /** The line carries the mark and a ']' behind it. */
  predicate IsNetwork(line: string) {
    MARK <= line && Bracket(line, 4) < |line|
  }

  /** The text after the mark up to the first ']'. */
  function NameOf(line: string): string
    requires IsNetwork(line)
  {
    line[4..Bracket(line, 4)]
  }

  function NameIn(line: string): seq<string> {
    if IsNetwork(line) then [NameOf(line)] else []
  }

  /** The network names on the lines from p on. */
  function Names(s: string, p: nat): seq<string>
    requires p <= |s| + 1
    decreases |s| + 1 - p
  {
    if p >= |s| then [] else NameIn(s[p..LineEnd(s, p)]) + Names(s, LineEnd(s, p) + 1)
  }

  /** The names one after the other, each with its NUL. */
  function Layout(names: seq<string>): string {
    if names == [] then [] else Layout(names[..|names| - 1]) + names[|names| - 1] + [NUL]
  }

  lemma {:induction false} LineEndIs(s: string, p: nat, e: nat)
    requires p <= e <= |s|
    ensures LineEnd(s, p) == e <==> (forall i :: p <= i < e ==> !IsEnd(s[i])) && (e < |s| ==> IsEnd(s[e]))
    decreases |s| - p
  {
    if p < |s| && !IsEnd(s[p]) && p < e {
      LineEndIs(s, p + 1, e);
    }
  }

  lemma {:induction false} BracketIs(line: string, k: nat, r: nat)
    requires k <= r <= |line|
    ensures Bracket(line, k) == r <==> (forall i :: k <= i < r ==> line[i] != ']') && (r < |line| ==> line[r] == ']')
    decreases |line| - k
  {
    if k < |line| && line[k] != ']' && k < r {
      BracketIs(line, k + 1, r);
    }
  }

  /** Name i stands, ended by a NUL, where the names before it end. */
  lemma {:induction false} LayoutAt(names: seq<string>, i: nat)
    requires i < |names|
    ensures Layout(names[..i]) + names[i] + [NUL] <= Layout(names)
  {
    var n := |names| - 1;
    if i < n {
      assert names[..n][..i] == names[..i];
      LayoutAt(names[..n], i);
    }
  }

  lemma NameIsString(s: string, p: nat)
    requires p <= |s| && IsNetwork(s[p..LineEnd(s, p)])
    ensures NUL !in NameOf(s[p..LineEnd(s, p)])
  {
    LineEndIs(s, p, LineEnd(s, p));
    var name := NameOf(s[p..LineEnd(s, p)]);
    forall i | 0 <= i < |name|
      ensures name[i] != NUL
    {
      assert name[i] == s[p + 4 + i];
    }
  }

  /** The names are strings: none contains the NUL that ends it. */
  lemma {:induction false} NamesAreStrings(s: string, p: nat)
    requires p <= |s| + 1
    ensures forall i :: 0 <= i < |Names(s, p)| ==> NUL !in Names(s, p)[i]
    decreases |s| + 1 - p
  {
    if p < |s| {
      NamesAreStrings(s, LineEnd(s, p) + 1);
      if IsNetwork(s[p..LineEnd(s, p)]) {
        NameIsString(s, p);
      }
    }
  }

  // ---- When the walk over the lines ends ----

  /** p += strlen(p) + 1 until p reaches the end of the data exactly; behind the data stands one NUL. */
  predicate WalkEnds(s: string, p: nat)
    requires p <= |s| + 1
    decreases |s| + 1 - p
  {
    p <= |s| && (p == |s| || WalkEnds(s, LineEnd(s, p) + 1))
  }

  /** The loops end, rather than run past the data, exactly when the data is empty or its last line is
      ended. */
  lemma {:induction false} WalkEndsIff(s: string, p: nat)
    requires p <= |s|
    ensures WalkEnds(s, p) <==> p == |s| || s[|s| - 1] == '\n' || s[|s| - 1] == '\0'
    decreases |s| - p
  {
    if p < |s| {
      var e := LineEnd(s, p);
      LineEndIs(s, p, e);
      if e < |s| {
        WalkEndsIff(s, e + 1);
      }
    }
  }

  /** An output without its last newline: the walk runs past the data. */
  lemma UnendedRunsOn()
    ensures !WalkEnds(" * [net]", 0)
  {
    WalkEndsIff(" * [net]", 0);
  }

  // ---- The code ----

  /** b is the data with its line ends cut to NULs, and one NUL more. */
  ghost predicate Split(b: seq<char>, s: string) {
    && |b| == |s| + 1 && b[|s|] == NUL
    && forall i :: 0 <= i < |s| ==> b[i] == if s[i] == '\n' then NUL else s[i]
  }

  method SplitLines(data: array<char>, sz: nat)
    requires sz <= data.Length
    modifies data
    ensures forall i :: 0 <= i < sz ==> data[i] == if old(data[i]) == '\n' then NUL else old(data[i])
    ensures forall i :: sz <= i < data.Length ==> data[i] == old(data[i])
  {
    for i := 0 to sz
      invariant forall k :: 0 <= k < i ==> data[k] == if old(data[k]) == '\n' then NUL else old(data[k])
      invariant forall k :: i <= k < data.Length ==> data[k] == old(data[k])
    {
      if data[i] == '\n' {
        data[i] := NUL;
      }
    }
  }

  /** p + strlen(p) */
  method StrEnd(b: array<char>, p: nat, ghost s: string) returns (e: nat)
    requires Split(b[..], s) && p <= |s|
    ensures e == LineEnd(s, p)
  {
    e := p;
    while b[e] != NUL
      invariant p <= e <= |s| && forall i :: p <= i < e ==> !IsEnd(s[i])
      decreases |s| - e
    {
      e := e + 1;
    }
    LineEndIs(s, p, e);
  }

  /** line stands at p, ended by a NUL. */
  ghost predicate StringAt(b: seq<char>, p: nat, line: string) {
    p + |line| < |b| && b[p..p + |line|] == line && b[p + |line|] == NUL && NUL !in line
  }

  lemma LineIsString(b: seq<char>, s: string, p: nat)
    requires Split(b, s) && p < |s|
    ensures StringAt(b, p, s[p..LineEnd(s, p)])
  {
    var e := LineEnd(s, p);
    LineEndIs(s, p, e);
    assert b[p..e] == s[p..e];
    forall i | 0 <= i < e - p
      ensures s[p..e][i] != NUL
    {
      assert !IsEnd(s[p + i]);
    }
  }

  /** !strncmp(p, " * [", 4) */
  method HasMark(b: array<char>, p: nat, ghost line: string) returns (r: bool)
    requires StringAt(b[..], p, line)
    ensures r <==> MARK <= line
  {
    for i := 0 to 4
      invariant i <= |line| && line[..i] == MARK[..i]
    {
      if i < |line| {
        assert b[p + i] == b[p..p + |line|][i];
      }
      if b[p + i] != MARK[i] {
        return false;
      }
    }
    assert line[..4] == MARK;
    return true;
  }

  /** strchr(p, ']'), as an offset from p, on a line with the mark; the mark has no ']'. */
  method StrChr(b: array<char>, p: nat, ghost line: string) returns (r: Option<nat>)
    requires StringAt(b[..], p, line) && MARK <= line
    ensures r == if IsNetwork(line) then Some(Bracket(line, 4)) else None
  {
    var k := 0;
    while b[p + k] != NUL && b[p + k] != ']'
      invariant k <= |line| && forall i :: 0 <= i < k ==> line[i] != ']'
      decreases |line| - k
    {
      assert b[p + k] == b[p..p + |line|][k];
      k := k + 1;
    }
    if k < |line| {
      assert b[p + k] == b[p..p + |line|][k];
    }
    assert line[0] == MARK[0] && line[1] == MARK[1] && line[2] == MARK[2] && line[3] == MARK[3];
    BracketIs(line, 4, k);
    r := if b[p + k] == ']' then Some(k) else None;
  }

  /** The network name, if any, on the line at p. */
  function NameHere(s: string, p: nat): (r: seq<string>)
    requires p <= |s|
    ensures |r| <= 1
  {
    NameIn(s[p..LineEnd(s, p)])
  }

  predicate LineStart(s: string, p: nat) {
    p < |s| && (p == 0 || IsEnd(s[p - 1]))
  }

  // ---- The names, character by character ----

  /** Where the line of a network starts, and where the first ']' is on it. */
  datatype Span = Span(from: nat, to: nat)

  predicate Network(s: string, n: Span) {
    && n.from + 3 < n.to < |s| && (n.from == 0 || s[n.from - 1] == '\n' || s[n.from - 1] == '\0')
    && s[n.from..n.from + 4] == " * [" && s[n.to] == ']'
    && forall k :: n.from + 4 <= k < n.to ==> s[k] != ']' && s[k] != '\n' && s[k] != '\0'
  }

  function Text(s: string, n: Span): string
    requires Network(s, n)
  {
    s[n.from + 4..n.to]
  }

  /** The spans are all the networks from p on, in their order. */
  ghost predicate Networks(s: string, p: nat, spans: seq<Span>) {
    && (forall i, j :: 0 <= i < j < |spans| ==> spans[i].from < spans[j].from)
    && (forall n :: n in spans <==> Network(s, n) && p <= n.from)
  }

  lemma SpanHere(s: string, p: nat, n: Span)
    requires LineStart(s, p) && IsNetwork(s[p..LineEnd(s, p)])
    requires n == Span(p, p + Bracket(s[p..LineEnd(s, p)], 4))
    ensures Network(s, n) && NameHere(s, p) == [Text(s, n)]
  {
    var e := LineEnd(s, p);
    var line := s[p..e];
    LineEndIs(s, p, e);
    BracketIs(line, 4, n.to - p);
    assert s[p..p + 4] == line[..4] == MARK;
    forall k | p + 4 <= k < n.to
      ensures s[k] != ']' && s[k] != '\n' && s[k] != '\0'
    {
      assert s[k] == line[k - p] && !IsEnd(s[k]);
    }
    Subslice(s, p, e, 4, n.to - p);
  }

  lemma Subslice(s: string, a: nat, b: nat, c: nat, d: nat)
    requires a <= b <= |s| && c <= d <= b - a
    ensures s[a..b][c..d] == s[a + c..a + d]
  {
    var t := s[a..b];
    assert forall k :: c <= k < d ==> t[k] == s[a + k];
    assert |t[c..d]| == |s[a + c..a + d]|;
    assert forall k :: 0 <= k < d - c ==> t[c..d][k] == s[a + c..a + d][k];
  }

  /** A network that starts at p is the one on the line there. */
  lemma OnlySpanHere(s: string, p: nat, n: Span)
    requires LineStart(s, p) && Network(s, n) && n.from == p
    ensures IsNetwork(s[p..LineEnd(s, p)]) && n.to == p + Bracket(s[p..LineEnd(s, p)], 4)
  {
    var e := LineEnd(s, p);
    LineEndIs(s, p, e);
    var mark := s[p..p + 4];
    assert mark[0] == s[p] && mark[1] == s[p + 1] && mark[2] == s[p + 2] && mark[3] == s[p + 3];
    assert n.to < e;
    var line := s[p..e];
    assert line[..4] == mark;
    BracketIs(line, 4, n.to - p);
  }

  /** No network starts within a line. */
  lemma NoneWithin(s: string, p: nat, n: Span)
    requires LineStart(s, p) && Network(s, n) && p < n.from
    ensures LineEnd(s, p) < n.from
  {
    var e := LineEnd(s, p);
    LineEndIs(s, p, e);
    forall q: nat | p < q <= e
      ensures !LineStart(s, q)
    {
      assert !IsEnd(s[q - 1]);
    }
    assert LineStart(s, n.from);
  }

  ghost predicate Texts(s: string, spans: seq<Span>, names: seq<string>) {
    |spans| == |names| && forall i :: 0 <= i < |spans| ==> Network(s, spans[i]) && names[i] == Text(s, spans[i])
  }

  /** The network that starts at p, if there is one. */
  lemma SpansHere(s: string, p: nat) returns (here: seq<Span>)
    requires LineStart(s, p)
    ensures |here| <= 1 && (forall n :: n in here <==> Network(s, n) && n.from == p) && Texts(s, here, NameHere(s, p))
  {
    var line := s[p..LineEnd(s, p)];
    here := [];
    if IsNetwork(line) {
      here := [Span(p, p + Bracket(line, 4))];
      SpanHere(s, p, here[0]);
    }
    forall n | Network(s, n) && n.from == p
      ensures n in here
    {
      OnlySpanHere(s, p, n);
    }
  }

  lemma WithFirst(s: string, p: nat, e: nat, here: seq<Span>, rest: seq<Span>)
    requires LineStart(s, p) && e == LineEnd(s, p) && Networks(s, e + 1, rest)
    requires |here| <= 1 && forall n :: n in here <==> Network(s, n) && n.from == p
    ensures Networks(s, p, here + rest)
  {
    var spans := here + rest;
    forall n
      ensures n in spans <==> Network(s, n) && p <= n.from
    {
      if Network(s, n) && p < n.from {
        NoneWithin(s, p, n);
      }
    }
    forall i, j | 0 <= i < j < |spans|
      ensures spans[i].from < spans[j].from
    {
      assert spans[j] in rest;
      if i < |here| {
        assert spans[i] in here;
      }
    }
  }

  /** Each name is the text of a network, in order, and there is no other network. */
  lemma {:induction false} NamesAreTexts(s: string, p: nat) returns (spans: seq<Span>)
    requires p <= |s| + 1 && (p < |s| ==> LineStart(s, p))
    ensures Networks(s, p, spans) && Texts(s, spans, Names(s, p))
    decreases |s| + 1 - p
  {
    if p >= |s| {
      spans := [];
    } else {
      var e := LineEnd(s, p);
      LineEndIs(s, p, e);
      var rest := NamesAreTexts(s, e + 1);
      var here := SpansHere(s, p);
      WithFirst(s, p, e, here, rest);
      spans := here + rest;
      TextsJoin(s, here, NameHere(s, p), rest, Names(s, e + 1));
      FirstNames(s, p, e);
    }
  }

  lemma TextsJoin(s: string, here: seq<Span>, names: seq<string>, rest: seq<Span>, more: seq<string>)
    requires Texts(s, here, names) && Texts(s, rest, more)
    ensures Texts(s, here + rest, names + more)
  {
  }

  lemma FirstNames(s: string, p: nat, e: nat)
    requires p < |s| && e == LineEnd(s, p)
    ensures Names(s, p) == NameHere(s, p) + Names(s, e + 1)
  {
  }

  /** A text is among the names exactly if it is that of a network. */
  lemma NamesOfLines(s: string, name: string)
    ensures name in Names(s, 0) <==> exists n :: Network(s, n) && name == Text(s, n)
  {
    var spans := NamesAreTexts(s, 0);
    if name in Names(s, 0) {
      var i :| 0 <= i < |Names(s, 0)| && Names(s, 0)[i] == name;
      assert Network(s, spans[i]) && name == Text(s, spans[i]);
    }
    if n :| Network(s, n) && name == Text(s, n) {
      assert n in spans;
      var i :| 0 <= i < |spans| && spans[i] == n;
      assert Names(s, 0)[i] == name;
    }
  }

  /** The test both passes make of the line at p: the offset of the ']' behind the name. */
  method FindName(b: array<char>, p: nat, ghost s: string) returns (r: Option<nat>)
    requires Split(b[..], s) && p < |s|
    ensures r.None? ==> NameHere(s, p) == []
    ensures r.Some? ==> 4 <= r.value && p + r.value <= b.Length && NameHere(s, p) == [b[p + 4..p + r.value]]
  {
    ghost var line := s[p..LineEnd(s, p)];
    LineIsString(b[..], s, p);
    var marked := HasMark(b, p, line);
    if !marked {
      return None;
    }
    r := StrChr(b, p, line);
    if r.Some? {
      assert b[p + 4..p + r.value] == b[p..p + |line|][4..r.value];
    }
  }

  // ---- The two passes ----

  /** The names found before position p, and those still ahead. */
  ghost function Whole(s: string, p: nat, done: seq<string>): seq<string>
    requires p <= |s|
  {
    done + Names(s, p)
  }

  ghost predicate Progress(s: string, p: nat, done: seq<string>, names: seq<string>) {
    p <= |s| && (p < |s| ==> IsEnd(s[|s| - 1])) && Whole(s, p, done) == names
  }

  lemma ProgressStarts(s: string)
    requires Ended(s)
    ensures Progress(s, 0, [], Names(s, 0))
  {
  }

  lemma ProgressEnds(s: string, done: seq<string>, names: seq<string>)
    requires Progress(s, |s|, done, names)
    ensures done == names
  {
  }

  /** One line further. */
  lemma Advance(s: string, p: nat, p': nat, done: seq<string>, names: seq<string>) returns (done': seq<string>)
    requires Progress(s, p, done, names) && p < |s| && p' == LineEnd(s, p) + 1
    ensures done' == done + NameHere(s, p) && done' <= names && Progress(s, p', done', names)
  {
    done' := done + NameHere(s, p);
    LineEndIs(s, p, LineEnd(s, p));
    WholeStays(s, p, done);
    WholeStarts(s, LineEnd(s, p) + 1, done + NameHere(s, p));
  }

  lemma WholeStays(s: string, p: nat, done: seq<string>)
    requires p < |s| && LineEnd(s, p) < |s|
    ensures Whole(s, LineEnd(s, p) + 1, done + NameHere(s, p)) == Whole(s, p, done)
  {
    var here := NameHere(s, p);
    var ahead := Names(s, LineEnd(s, p) + 1);
    assert Names(s, p) == here + ahead;
    assert (done + here) + ahead == done + (here + ahead);
  }

  lemma WholeStarts(s: string, p: nat, done: seq<string>)
    requires p <= |s|
    ensures done <= Whole(s, p, done)
  {
  }

  lemma LayoutGrows(names: seq<string>, name: string)
    ensures Layout(names + [name]) == Layout(names) + name + [NUL]
  {
    assert (names + [name])[..|names|] == names;
  }

  /** The counts of the names found before p. */
  ghost predicate Counted(nnets: nat, lnets: nat, done: seq<string>) {
    nnets == |done| && lnets == |Layout(done)|
  }

  /** One line: its name, if it has one, is counted. */
  method CountHere(b: array<char>, p: nat, nnets: nat, lnets: nat, ghost s: string, ghost done: seq<string>)
    returns (nnets': nat, lnets': nat)
    requires Split(b[..], s) && p < |s| && Counted(nnets, lnets, done)
    ensures Counted(nnets', lnets', done + NameHere(s, p))
  {
    nnets', lnets' := nnets, lnets;
    var ss := FindName(b, p, s);
    ghost var here := NameHere(s, p);
    if ss.Some? {
      LayoutGrows(done, here[0]);
      assert here == [here[0]];
      nnets' := nnets + 1;
      lnets' := lnets + (ss.value - 4) + 1;
    } else {
      assert done + here == done;
    }
  }

  method CountTurn(b: array<char>, p: nat, nnets: nat, lnets: nat,
                   ghost s: string, ghost done: seq<string>, ghost names: seq<string>)
    returns (nnets': nat, lnets': nat, p': nat, ghost done': seq<string>)
    requires Split(b[..], s) && p < |s| && Progress(s, p, done, names) && Counted(nnets, lnets, done)
    ensures p < p' && Progress(s, p', done', names) && Counted(nnets', lnets', done')
  {
    var e := StrEnd(b, p, s);
    p' := e + 1;
    done' := Advance(s, p, p', done, names);
    nnets', lnets' := CountHere(b, p, nnets, lnets, s, done);
  }

  method CountPass(b: array<char>, ghost s: string, ghost names: seq<string>) returns (nnets: nat, lnets: nat)
    requires Split(b[..], s) && Progress(s, 0, [], names)
    ensures Counted(nnets, lnets, names)
  {
    nnets, lnets := 0, 0;
    var p := 0;
    ghost var done: seq<string> := [];
    while p != b.Length - 1
      invariant Progress(s, p, done, names) && Counted(nnets, lnets, done)
      decreases |s| - p
    {
      nnets, lnets, p, done := CountTurn(b, p, nnets, lnets, s, done, names);
    }
    ProgressEnds(s, done, names);
  }

  /** done stand behind the first |done| pointers; the pointers are offsets into the area. */
  ghost predicate Filled(ptrs: seq<int>, area: string, at: nat, done: seq<string>) {
    && |done| <= |ptrs| && at == |Layout(done)| <= |area| && area[..at] == Layout(done)
    && forall i :: 0 <= i < |done| ==> ptrs[i] == |Layout(done[..i])|
  }

  /** There is room for the first of the names. */
  lemma {:induction false} RoomFor(some: seq<string>, names: seq<string>)
    requires some <= names
    ensures |Layout(some)| <= |Layout(names)|
    decreases |names|
  {
    if |some| < |names| {
      RoomFor(some, names[..|names| - 1]);
    } else {
      assert some == names;
    }
  }

  /** One name and its NUL, and the pointer to it. */
  method PutName(ptrs: array<int>, n: nat, area: array<char>, at: nat, b: array<char>, p: nat, len: nat,
                 ghost done: seq<string>)
    requires area != b && p + len <= b.Length
    requires n == |done| < ptrs.Length && at + len < area.Length
    requires Filled(ptrs[..], area[..], at, done)
    modifies ptrs, area
    ensures Filled(ptrs[..], area[..], at + len + 1, done + [b[p..p + len]])
  {
    ghost var name := b[p..p + len];
    ghost var before := ptrs[..];
    ptrs[n] := at;
    for i := 0 to len
      invariant ptrs[..] == before[n := at]
      invariant area[..at] == Layout(done) && area[at..at + i] == name[..i]
    {
      area[at + i] := b[p + i];
      assert area[at..at + i + 1] == area[at..at + i] + [name[i]];
    }
    area[at + len] := NUL;
    LayoutGrows(done, name);
    assert area[..at + len + 1] == area[..at] + area[at..at + len] + [NUL];
    forall i | 0 <= i < |done + [name]|
      ensures ptrs[i] == |Layout((done + [name])[..i])|
    {
      assert (done + [name])[..i] == done[..i];
      assert ptrs[i] == before[n := at][i];
      assert i == n ==> done[..i] == done;
    }
  }

  /** One line: the name on it, if it has one, is put behind those before it. */
  method FillHere(ptrs: array<int>, n: nat, area: array<char>, at: nat, b: array<char>, p: nat,
                  ghost s: string, ghost done: seq<string>)
    returns (n': nat, at': nat)
    requires Split(b[..], s) && p < |s| && area != b
    requires n == |done| && Filled(ptrs[..], area[..], at, done)
    requires |done + NameHere(s, p)| <= ptrs.Length && |Layout(done + NameHere(s, p))| <= area.Length
    modifies ptrs, area
    ensures n' == |done + NameHere(s, p)| && Filled(ptrs[..], area[..], at', done + NameHere(s, p))
  {
    n', at' := n, at;
    var ss := FindName(b, p, s);
    ghost var here := NameHere(s, p);
    if ss.Some? {
      assert here == [here[0]];
      LayoutGrows(done, here[0]);
      PutName(ptrs, n, area, at, b, p + 4, ss.value - 4, done);
      n' := n + 1;
      at' := at + (ss.value - 4) + 1;
    } else {
      assert done + here == done;
    }
  }

  method FillTurn(ptrs: array<int>, n: nat, area: array<char>, at: nat, b: array<char>, p: nat,
                  ghost s: string, ghost done: seq<string>, ghost names: seq<string>)
    returns (n': nat, at': nat, p': nat, ghost done': seq<string>)
    requires Split(b[..], s) && p < |s| && area != b
    requires Progress(s, p, done, names) && n == |done| && Filled(ptrs[..], area[..], at, done)
    requires |names| <= ptrs.Length && |Layout(names)| <= area.Length
    modifies ptrs, area
    ensures p < p' && Progress(s, p', done', names)
    ensures n' == |done'| && Filled(ptrs[..], area[..], at', done')
  {
    var e := StrEnd(b, p, s);
    p' := e + 1;
    done' := Advance(s, p, p', done, names);
    RoomFor(done', names);
    n', at' := FillHere(ptrs, n, area, at, b, p, s, done);
  }

  method FillPass(b: array<char>, ghost s: string, ghost names: seq<string>, ptrs: array<int>, area: array<char>)
    requires Split(b[..], s) && Progress(s, 0, [], names) && area != b
    requires ptrs.Length == |names| && area.Length == |Layout(names)|
    modifies ptrs, area
    ensures Filled(ptrs[..], area[..], area.Length, names)
  {
    var p: nat, n: nat, at: nat := 0, 0, 0;
    ghost var done: seq<string> := [];
    while p != b.Length - 1
      invariant Progress(s, p, done, names) && n == |done| && Filled(ptrs[..], area[..], at, done)
      decreases |s| - p
    {
      n, at, p, done := FillTurn(ptrs, n, area, at, b, p, s, done, names);
    }
    ProgressEnds(s, done, names);
  }

  /** Pointer i leads to name i as a string of its own. */
  lemma FilledAt(ptrs: seq<int>, area: string, names: seq<string>, i: nat)
    requires Filled(ptrs, area, |area|, names) && i < |names| && NUL !in names[i]
    ensures 0 <= ptrs[i] && StringAt(area, ptrs[i], names[i])
  {
    LayoutAt(names, i);
    var before := Layout(names[..i]);
    assert area[..|area|] == area;
    StandsThere(before, names[i], area);
  }

  lemma StandsThere(before: string, name: string, area: string)
    requires before + name + [NUL] <= area && NUL !in name
    ensures StringAt(area, |before|, name)
  {
    var all := before + name + [NUL];
    assert area[|before|..|before| + |name|] == all[|before|..|before| + |name|] == name;
    assert area[|before| + |name|] == all[|before| + |name|];
  }

  lemma FilledStrings(ptrs: seq<int>, area: string, names: seq<string>)
    requires Filled(ptrs, area, |area|, names) && forall i :: 0 <= i < |names| ==> NUL !in names[i]
    ensures area == Layout(names)
    ensures forall i :: 0 <= i < |names| ==> 0 <= ptrs[i] && StringAt(area, ptrs[i], names[i])
  {
    assert area == area[..|area|];
    forall i | 0 <= i < |names|
      ensures 0 <= ptrs[i] && StringAt(area, ptrs[i], names[i])
    {
      FilledAt(ptrs, area, names, i);
    }
  }

  /** The output with one byte more, and its lines split. */
  method Lines(output: array<char>) returns (buf: array<char>)
    ensures fresh(buf) && Split(buf[..], output[..])
  {
    var sz := output.Length;
    buf := new char[sz + 1];
    for i := 0 to sz
      invariant forall k :: 0 <= k < i ==> buf[k] == output[k]
    {
      buf[i] := output[i];
    }
    buf[sz] := NUL;
    SplitLines(buf, sz);
  }

  /** Strings of these lengths stand one behind the other, and fill the area. */
  ghost predicate Packed(ptrs: seq<int>, lens: seq<nat>, total: nat) {
    && |ptrs| == |lens| && (if lens == [] then total == 0 else ptrs[0] == 0)
    && forall i {:trigger lens[i]} :: 0 <= i < |lens| ==>
         ptrs[i] + lens[i] + 1 == if i + 1 < |lens| then ptrs[i + 1] else total
  }

  function Lengths(names: seq<string>): seq<nat> {
    seq(|names|, i requires 0 <= i < |names| => |names[i]|)
  }

  function SpanLengths(s: string, spans: seq<Span>): seq<nat>
    requires forall i :: 0 <= i < |spans| ==> Network(s, spans[i])
  {
    seq(|spans|, i requires 0 <= i < |spans| => |Text(s, spans[i])|)
  }

  lemma FilledPacked(ptrs: seq<int>, area: string, names: seq<string>)
    requires Filled(ptrs, area, |area|, names) && |ptrs| == |names|
    ensures Packed(ptrs, Lengths(names), |area|)
  {
    forall i | 0 <= i < |names|
      ensures ptrs[i] + |names[i]| + 1 == if i + 1 < |names| then ptrs[i + 1] else |area|
    {
      LayoutGrows(names[..i], names[i]);
      assert names[..i] + [names[i]] == names[..i + 1] && (i + 1 == |names| ==> names[..i + 1] == names);
    }
    assert names != [] ==> names[..0] == [];
  }

  /** The body of list_networks, the names still a parameter. */
  method TwoPasses(output: array<char>, ghost names: seq<string>)
    returns (cnt: nat, ptrs: array<int>, area: array<char>)
    requires Progress(output[..], 0, [], names)
    ensures cnt == ptrs.Length == |names| && Filled(ptrs[..], area[..], area.Length, names)
  {
    var buf := Lines(output);
    var lnets;
    cnt, lnets := CountPass(buf, output[..], names);
    ptrs := new int[cnt];
    area := new char[lnets];
    FillPass(buf, output[..], names, ptrs, area);
  }

  lemma TextsStand(s: string, spans: seq<Span>, names: seq<string>, ptrs: seq<int>, area: string)
    requires Texts(s, spans, names) && |ptrs| == |names| && Filled(ptrs, area, |area|, names)
    requires forall i :: 0 <= i < |names| ==> NUL !in names[i]
    ensures forall i :: 0 <= i < |spans| ==>
              0 <= ptrs[i] && Network(s, spans[i]) && StringAt(area, ptrs[i], Text(s, spans[i]))
    ensures Packed(ptrs, SpanLengths(s, spans), |area|)
  {
    FilledStrings(ptrs, area, names);
    FilledPacked(ptrs, area, names);
    assert Lengths(names) == SpanLengths(s, spans);
  }

  /** The same, the names given by the networks they stand in. */
  method TwoPassTexts(output: array<char>, ghost names: seq<string>, ghost spans: seq<Span>)
    returns (cnt: nat, ptrs: array<int>, area: array<char>)
    requires Progress(output[..], 0, [], names) && forall i :: 0 <= i < |names| ==> NUL !in names[i]
    requires Texts(output[..], spans, names)
    ensures cnt == ptrs.Length == |spans|
    ensures forall i :: 0 <= i < cnt ==>
              0 <= ptrs[i] && Network(output[..], spans[i]) && StringAt(area[..], ptrs[i], Text(output[..], spans[i]))
    ensures Packed(ptrs[..], SpanLengths(output[..], spans), area.Length)
  {
    ghost var s := output[..];
    cnt, ptrs, area := TwoPasses(output, names);
    assert output[..] == s;
    TextsStand(s, spans, names, ptrs[..], area[..]);
  }

  /** The results are the texts of all networks in the output, in order, each a string of its own. */
  method ListNetworks(output: array<char>)
    returns (cnt: nat, ptrs: array<int>, area: array<char>, ghost spans: seq<Span>)
    requires output.Length == 0 || output[output.Length - 1] == '\n' || output[output.Length - 1] == '\0'
    ensures cnt == ptrs.Length == |spans| && Networks(output[..], 0, spans)
    ensures forall i :: 0 <= i < cnt ==>
              0 <= ptrs[i] && Network(output[..], spans[i]) && StringAt(area[..], ptrs[i], Text(output[..], spans[i]))
    ensures Packed(ptrs[..], SpanLengths(output[..], spans), area.Length)
  {
    ProgressStarts(output[..]);
    NamesAreStrings(output[..], 0);
    spans := NamesAreTexts(output[..], 0);
    cnt, ptrs, area := TwoPassTexts(output, Names(output[..], 0), spans);
  }
}
