/**
 Reading an x86 object file. `full` selects between a reader that follows every flag of the
 format and the linker 8l, whose operand reader does not know T_OFFSET2. The assembler never
 sets that flag: only the format has it.
 */
module X86Link {
  import opened Wrappers
  import opened Bytes
  import opened SymbolCache
  import opened X86Object

  datatype Value = NoValue | Ieee(lo: int, hi: int) | Chars(sval: seq<byte>)

  datatype Adr = Adr(typ: int, index: int, scale: int, offset: int, offset2: int,
                     sym: Option<LinkSym>, value: Value)

  datatype Prog = Prog(opcode: int, line: int, from: Adr, to: Adr)

  // ----- reading -----

  /** Where each field of an operand starts, and where the operand ends. */
  datatype Layout = Layout(offset: nat, offset2: nat, sym: nat, tail: nat, typ: nat, end: nat)

  function LayoutOf(f: Flags, full: bool): Layout {
    var offset := 1 + if f.index then 2 else 0;
    var offset2 := offset + if f.offset then 4 else 0;
    var sym := offset2 + if full && f.offset2 then 4 else 0;
    var tail := sym + if f.sym then 1 else 0;
    var typ := tail + if f.fconst || f.sconst then 8 else 0;
    Layout(offset, offset2, sym, tail, typ, typ + if f.typ then 1 else 0)
  }

  /** A float or a string. */
  function ReadValue(p: seq<byte>, fconst: bool): Value
    requires |p| == 8
  {
    if fconst then Ieee(DecodeWord(p[..4]), DecodeWord(p[4..])) else Chars(p)
  }

  function ReadOpd(p: seq<byte>, tab: Table, full: bool): (r: Option<(Adr, nat)>)
    ensures r.Some? ==> 1 <= r.value.1 <= |p|
  {
    if p == [] then None
    else
      var f := UnpackFlags(p[0]);
      var at := LayoutOf(f, full);
      if |p| < at.end || (f.sym && p[at.sym] >= |tab|) then None
      else
        var typ: int := if f.typ then p[at.typ] else if f.fconst then D_FCONST else if f.sconst then D_SCONST
                        else if full && f.offset2 then D_CONST2 else D_NONE;
        var value := if f.fconst || f.sconst then ReadValue(p[at.tail..at.tail + 8], f.fconst) else NoValue;
        Some((Adr(typ,
                  if f.index then p[1] else D_NONE,
                  if f.index then p[2] else 0,
                  if f.offset then DecodeWord(p[at.offset..at.offset + 4]) else 0,
                  if full && f.offset2 then DecodeWord(p[at.offset2..at.offset2 + 4]) else 0,
                  if f.sym then tab[p[at.sym]] else None,
                  value), at.end))
  }

  function ReadProg(p: seq<byte>, tab: Table, full: bool): (r: Option<(Prog, nat)>)
    ensures r.Some? ==> 6 <= r.value.1 <= |p|
  {
    if |p| < 6 then None
    else
      var from := ReadOpd(p[6..], tab, full);
      if from.None? then None
      else
        var to := ReadOpd(p[6 + from.value.1..], tab, full);
        if to.None? then None
        else Some((Prog(Opcode(p), DecodeWord(p[2..6]), from.value.0, to.value.0), 6 + from.value.1 + to.value.1))
  }

  function Opcode(p: seq<byte>): int
    requires |p| >= 2
  {
    var lo: int, hi: int := p[0], p[1];
    lo + 256 * hi
  }

  function ReadName(p: seq<byte>): (r: Option<(Announce, nat)>)
    requires |p| >= 2
    ensures r.Some? ==> 0 < r.value.1 <= |p|
  {
    var at := if Opcode(p) == ASIGNAME then 4 else 0;
    if |p| < at + 4 then None
    else
      var stop := FindNul(p, at + 4);
      if stop.None? || p[at + 3] >= NSYM then None
      else Some((Announce(p[at + 4..stop.value], p[at + 2], p[at + 3]), stop.value + 1))
  }

  function Load(bs: seq<byte>, rd: Reader, tab: Table, full: bool): Loaded<Prog>
    requires |tab| == NSYM
    decreases |bs|
  {
    if |bs| < 2 || Opcode(bs) <= AXXX || Opcode(bs) >= ALAST then Bad
    else if Opcode(bs) == ANAME || Opcode(bs) == ASIGNAME then
      var n := ReadName(bs);
      if n.None? then Bad else Load(bs[n.value.1..], rd, rd.Enter(tab, n.value.0), full)
    else
      var p := ReadProg(bs, tab, full);
      if p.None? then Bad
      else
        var (prog, size) := p.value;
        if prog.opcode != AEND then Load(bs[size..], rd, tab, full).After(prog)
        else if size == |bs| then Ok([prog])
        else Load(bs[size..], rd.(version := rd.version + 1), EmptyTable(), full).After(prog)
  }

  // ----- what should be read -----

  function MeantValue(g: Gen): Value {
    if g.typ == D_FCONST then Ieee(Wrap32(g.lo), Wrap32(g.hi))
    else if g.typ == D_SCONST then Chars(g.sval)
    else NoValue
  }

  function MeantOpd(g: Gen, sym: Option<LinkSym>): Adr {
    Adr(g.typ, Low(g.index), Low(g.scale), Wrap32(g.offset),
        if g.typ == D_CONST2 then Wrap32(g.offset2) else 0, sym, MeantValue(g))
  }

  function MeantProg(i: Instr, from: Option<LinkSym>, to: Option<LinkSym>): Prog {
    Prog(i.opcode, Wrap32(i.line), MeantOpd(i.from, from), MeantOpd(i.to, to))
  }

  function Inline(prog: seq<Instr>, rd: Reader): seq<Prog> {
    if prog == [] then []
    else
      [MeantProg(prog[0], rd.Meant(prog[0].from.Ref()), rd.Meant(prog[0].to.Ref()))]
      + Inline(prog[1..], if prog[0].opcode == AEND then rd.(version := rd.version + 1) else rd)
  }

  /** The reader follows every flag that occurs. */
  predicate Legible(i: Instr, full: bool) {
    full || (i.from.typ != D_CONST2 && i.to.typ != D_CONST2)
  }

  predicate AllLegible(prog: seq<Instr>, full: bool) {
    forall k :: 0 <= k < |prog| ==> Legible(prog[k], full)
  }

  lemma AllLegibleCons(prog: seq<Instr>, full: bool)
    requires prog != []
    ensures AllLegible(prog, full) <==> Legible(prog[0], full) && AllLegible(prog[1..], full)
  {
    if Legible(prog[0], full) && AllLegible(prog[1..], full) {
      forall k | 0 < k < |prog|
        ensures Legible(prog[k], full)
      {
        assert prog[k] == prog[1..][k - 1];
      }
    }
  }

  // ----- records round trip -----

  lemma OpdRoundTrip(g: Gen, idx: nat, rest: seq<byte>, tab: Table, full: bool)
    requires idx < |tab| == NSYM && tab[0] == None && (full || g.typ != D_CONST2)
    ensures var e := EncodeOpd(g, idx);
            ReadOpd(e + rest, tab, full) == Some((MeantOpd(g, tab[idx]), |e|))
  {
    hide PackFlags, UnpackFlags, DecodeWord, EncodeWord;
    var f := FlagsOf(g, idx);
    var at := LayoutOf(f, full);
    var e := EncodeOpd(g, idx);
    var p := e + rest;
    OpdFields(g, idx, rest, full);
    if f.fconst {
      Halves(p, at.tail);
    }
    WordRoundTrip(g.offset);
    WordRoundTrip(g.offset2);
    WordRoundTrip(g.lo);
    WordRoundTrip(g.hi);
  }

  lemma Halves(p: seq<byte>, at: nat)
    requires at + 8 <= |p|
    ensures p[at..at + 8][..4] == p[at..at + 4] && p[at..at + 8][4..] == p[at + 4..at + 8]
  {
  }

  /** Each field of an encoded operand is where the flags say it is. */
  lemma OpdFields(g: Gen, idx: nat, rest: seq<byte>, full: bool)
    requires idx < NSYM && (full || g.typ != D_CONST2)
    ensures var f := FlagsOf(g, idx);
            var at := LayoutOf(f, full);
            var e := EncodeOpd(g, idx);
            var p := e + rest;
            && |e| == at.end && UnpackFlags(p[0]) == f
            && (f.index ==> p[1] == Low(g.index) && p[2] == Low(g.scale))
            && (f.offset ==> p[at.offset..at.offset + 4] == EncodeWord(g.offset))
            && (f.offset2 ==> p[at.offset2..at.offset2 + 4] == EncodeWord(g.offset2))
            && (f.sym ==> p[at.sym] == idx)
            && (f.typ ==> p[at.typ] == g.typ)
            && (f.sconst ==> p[at.tail..at.tail + 8] == g.sval)
            && (f.fconst ==> p[at.tail..at.tail + 4] == EncodeWord(g.lo))
            && (f.fconst ==> p[at.tail + 4..at.tail + 8] == EncodeWord(g.hi))
  {
    hide PackFlags, UnpackFlags, EncodeWord, Tail, Low, FlagsOf;
    var f := FlagsOf(g, idx);
    var at := LayoutOf(f, full);
    var p := EncodeOpd(g, idx) + rest;
    FlagFacts(g, idx);
    CutOpd(f, g, idx, rest, full);
    SmallLow(idx);
    TailFields(g, p, at.tail, rest);
  }

  /** What the last field depends on. */
  lemma FlagFacts(g: Gen, idx: nat)
    ensures var f := FlagsOf(g, idx);
            && (f.fconst <==> g.typ == D_FCONST) && (f.sconst <==> g.typ == D_SCONST) && (f.offset2 <==> g.typ == D_CONST2)
            && (f.typ <==> g.typ !in {D_FCONST, D_SCONST, D_NONE, D_CONST2})
  {
  }

  /** The fields in front of the last one. */
  lemma CutOpd(f: Flags, g: Gen, idx: nat, rest: seq<byte>, full: bool)
    requires f == FlagsOf(g, idx) && (full || !f.offset2)
    ensures var at := LayoutOf(f, full);
            var p := EncodeOpd(g, idx) + rest;
            && |EncodeOpd(g, idx)| == at.tail + |Tail(g)| && p[at.tail..] == Tail(g) + rest
            && UnpackFlags(p[0]) == f
            && (f.index ==> p[1] == Low(g.index) && p[2] == Low(g.scale))
            && (f.offset ==> p[at.offset..at.offset + 4] == EncodeWord(g.offset))
            && (f.offset2 ==> p[at.offset2..at.offset2 + 4] == EncodeWord(g.offset2))
            && (f.sym ==> p[at.sym] == Low(idx))
  {
    hide PackFlags, UnpackFlags, EncodeWord, Tail, Low, FlagsOf, EncodeOpd, When;
    var p := EncodeOpd(g, idx) + rest;
    var at := LayoutOf(f, full);
    var b, c := When(f.index, [Low(g.index), Low(g.scale)]), When(f.offset, EncodeWord(g.offset));
    var d, e := When(f.offset2, EncodeWord(g.offset2)), When(f.sym, [Low(idx)]);
    assert EncodeOpd(g, idx) == [PackFlags(f)] + (b + (c + (d + (e + Tail(g))))) by { OpdParts(f, g, idx); }
    WhenSize(f.index, [Low(g.index), Low(g.scale)]);
    WhenSize(f.offset, EncodeWord(g.offset));
    WhenSize(f.offset2, EncodeWord(g.offset2));
    WhenSize(f.sym, [Low(idx)]);
    CutSix([PackFlags(f)], b, c, d, e, Tail(g), rest);
    FieldAt(p, 0, [PackFlags(f)]);
    FieldAt(p, 1, b);
    FieldAt(p, at.sym, e);
  }

  lemma OpdParts(f: Flags, g: Gen, idx: nat)
    requires f == FlagsOf(g, idx)
    ensures EncodeOpd(g, idx) == [PackFlags(f)] + (When(f.index, [Low(g.index), Low(g.scale)])
                                 + (When(f.offset, EncodeWord(g.offset)) + (When(f.offset2, EncodeWord(g.offset2))
                                 + (When(f.sym, [Low(idx)]) + Tail(g)))))
  {
  }

  lemma WhenSize(b: bool, s: seq<byte>)
    ensures |When(b, s)| == (if b then |s| else 0) && (b ==> When(b, s) == s)
  {
  }

  lemma FieldAt(p: seq<byte>, at: nat, x: seq<byte>)
    requires at + |x| <= |p| && p[at..at + |x|] == x
    ensures |x| == 2 ==> p[at] == x[0] && p[at + 1] == x[1]
    ensures |x| == 1 ==> p[at] == x[0]
  {
    var y := p[at..at + |x|];
    assert forall i :: 0 <= i < |x| ==> y[i] == p[at + i];
  }

  lemma SmallLow(x: nat)
    requires x < 256
    ensures Low(x) == x
  {
  }

  /** The last field, by the operand's type. */
  lemma TailFields(g: Gen, p: seq<byte>, at: nat, rest: seq<byte>)
    requires at <= |p| && p[at..] == Tail(g) + rest
    ensures g.typ == D_FCONST ==>
              |Tail(g)| == 8 && p[at..at + 4] == EncodeWord(g.lo) && p[at + 4..at + 8] == EncodeWord(g.hi)
    ensures g.typ == D_SCONST ==> |Tail(g)| == 8 && p[at..at + 8] == g.sval
    ensures g.typ == D_NONE || g.typ == D_CONST2 ==> Tail(g) == []
    ensures g.typ !in {D_FCONST, D_SCONST, D_NONE, D_CONST2} ==> |Tail(g)| == 1 && p[at] == g.typ
  {
    hide EncodeWord;
    SliceOf(p, at, Tail(g), rest);
    if g.typ == D_FCONST {
      var lo, hi := EncodeWord(g.lo), EncodeWord(g.hi);
      assert lo + hi + rest == lo + (hi + rest);
      SliceOf(p, at, lo, hi + rest);
      SliceOf(p, at + 4, hi, rest);
    }
  }

  /** Six fields and what follows them, cut at every boundary. */
  lemma CutSix(a: seq<byte>, b: seq<byte>, c: seq<byte>, d: seq<byte>, e: seq<byte>, f: seq<byte>, g: seq<byte>)
    ensures var x := a + (b + (c + (d + (e + f))));
            var p := x + g;
            var (i, j, k, l, m) := (|a|, |a| + |b|, |a| + |b| + |c|, |a| + |b| + |c| + |d|, |a| + |b| + |c| + |d| + |e|);
            && |x| == m + |f|
            && p[..i] == a && p[i..j] == b && p[j..k] == c && p[k..l] == d && p[l..m] == e
            && p[m..m + |f|] == f && p[m..] == f + g
  {
  }

  lemma SliceOf(p: seq<byte>, from: nat, x: seq<byte>, rest: seq<byte>)
    requires from <= |p| && p[from..] == x + rest
    ensures p[from..from + |x|] == x && p[from + |x|..] == rest
  {
    assert p[from..from + |x|] == p[from..][..|x|];
    assert p[from + |x|..] == p[from..][|x|..];
  }

  lemma InstrRoundTrip(i: Instr, sf: nat, st: nat, rest: seq<byte>, tab: Table, full: bool)
    requires i.WellFormed() && sf < NSYM && st < NSYM && |tab| == NSYM && tab[0] == None && Legible(i, full)
    ensures var e := EncodeInstr(i, sf, st);
            ReadProg(e + rest, tab, full) == Some((MeantProg(i, tab[sf], tab[st]), |e|))
  {
    hide EncodeOpd, ReadOpd, MeantOpd;
    var f, t := EncodeOpd(i.from, sf), EncodeOpd(i.to, st);
    var p := EncodeInstr(i, sf, st) + rest;
    CutFour([Low(i.opcode), Low(i.opcode / 256)], EncodeWord(i.line), f, t, rest);
    OpdRoundTrip(i.from, sf, t + rest, tab, full);
    OpdRoundTrip(i.to, st, rest, tab, full);
    WordRoundTrip(i.line);
  }

  /** 8l takes a D_CONST2 operand for one without a type, if it reads it at all. */
  lemma Const2Misread(i: Instr, sf: nat, st: nat, rest: seq<byte>, tab: Table)
    requires sf < NSYM && st < NSYM && |tab| == NSYM && tab[0] == None && !Legible(i, false)
    ensures var r := ReadProg(EncodeInstr(i, sf, st) + rest, tab, false);
            r.Some? ==> (i.from.typ == D_CONST2 && r.value.0.from.typ == D_NONE)
                        || (i.to.typ == D_CONST2 && r.value.0.to.typ == D_NONE)
  {
    hide EncodeOpd, ReadOpd, MeantOpd;
    var f, t := EncodeOpd(i.from, sf), EncodeOpd(i.to, st);
    var p := EncodeInstr(i, sf, st) + rest;
    CutFour([Low(i.opcode), Low(i.opcode / 256)], EncodeWord(i.line), f, t, rest);
    if i.from.typ == D_CONST2 {
      Const2Type(i.from, sf, t + rest, tab);
    } else {
      OpdRoundTrip(i.from, sf, t + rest, tab, false);
      Const2Type(i.to, st, rest, tab);
    }
  }

  lemma Const2Type(g: Gen, idx: nat, rest: seq<byte>, tab: Table)
    requires g.typ == D_CONST2
    ensures var r := ReadOpd(EncodeOpd(g, idx) + rest, tab, false);
            r.Some? ==> r.value.0.typ == D_NONE
  {
    hide PackFlags, UnpackFlags, DecodeWord, EncodeWord;
    assert (EncodeOpd(g, idx) + rest)[0] == PackFlags(FlagsOf(g, idx));
  }

  lemma LoadName(a: Announce, rest: seq<byte>, rd: Reader, tab: Table, full: bool)
    requires a.idx < NSYM && |tab| == NSYM
    ensures Load(EncodeName(NAMEHEAD, a) + rest, rd, tab, full) == Load(rest, rd, rd.Enter(tab, a), full)
  {
    hide ReadProg;
    var e := EncodeName(NAMEHEAD, a);
    var p := e + rest;
    FindNulAt(p, 4, 4 + |a.name|);
    assert p[4..4 + |a.name|] == a.name;
    assert ReadName(p) == Some((a.(kind := Low(a.kind)), |e|));
    assert p[|e|..] == rest;
    assert rd.Enter(tab, a.(kind := Low(a.kind))) == rd.Enter(tab, a);
  }

  lemma {:induction false} NamesRoundTrip(names: seq<Announce>, rest: seq<byte>, rd: Reader, tab: Table, full: bool)
    requires |tab| == NSYM && forall a :: a in names ==> a.idx < NSYM
    ensures Load(EncodeNames(NAMEHEAD, names) + rest, rd, tab, full) == Load(rest, rd, rd.Replay(tab, names), full)
    decreases names
  {
    hide Load, EncodeName;
    if names == [] {
      assert EncodeNames(NAMEHEAD, names) + rest == rest;
    } else {
      var a := names[0];
      var more := EncodeNames(NAMEHEAD, names[1..]) + rest;
      assert EncodeNames(NAMEHEAD, names) + rest == EncodeName(NAMEHEAD, a) + more;
      LoadName(a, more, rd, tab, full);
      NamesRoundTrip(names[1..], rest, rd, rd.Enter(tab, a), full);
    }
  }

  // ----- the round trip of a file -----

  lemma InstrHead(i: Instr, sf: nat, st: nat)
    requires i.WellFormed()
    ensures |EncodeInstr(i, sf, st)| >= 2 && Opcode(EncodeInstr(i, sf, st)) == i.opcode
  {
  }

  /** An instruction read rightly is prepended; one read wrongly spoils the result. */
  lemma LoadInstr(i: Instr, sf: nat, st: nat, rest: seq<byte>, rd: Reader, tab: Table, full: bool)
    requires i.WellFormed() && sf < NSYM && st < NSYM && |tab| == NSYM && tab[0] == None
    ensures var got := MeantProg(i, tab[sf], tab[st]);
            var r := Load(EncodeInstr(i, sf, st) + rest, rd, tab, full);
            if Legible(i, full) then
              r == if i.opcode != AEND then Load(rest, rd, tab, full).After(got)
                   else if rest == [] then Ok([got])
                   else Load(rest, rd.(version := rd.version + 1), EmptyTable(), full).After(got)
            else r.Bad? || (r.progs != [] && r.progs[0].from.typ != i.from.typ)
                        || (r.progs != [] && r.progs[0].to.typ != i.to.typ)
  {
    hide EncodeInstr, ReadProg, MeantOpd, ReadName;
    var e := EncodeInstr(i, sf, st);
    InstrHead(i, sf, st);
    assert Opcode(e + rest) == i.opcode && (e + rest)[|e|..] == rest;
    if Legible(i, full) {
      InstrRoundTrip(i, sf, st, rest, tab, full);
    } else {
      Const2Misread(i, sf, st, rest, tab);
    }
  }

  lemma EmitNonEmpty(c: Cache, prog: seq<Instr>)
    requires c.Valid() && prog != [] && AllWellFormed(prog)
    ensures Emit(c, prog) != []
  {
    hide Settle, EncodeNames;
    var p := Settle(c, prog[0].from.Ref(), prog[0].to.Ref());
    InstrHead(prog[0], p.sf, p.st);
  }

  lemma MeantInjective(i: Instr, f: Option<LinkSym>, t: Option<LinkSym>, f': Option<LinkSym>, t': Option<LinkSym>)
    ensures MeantProg(i, f, t) == MeantProg(i, f', t') <==> f == f' && t == t'
    ensures MeantProg(i, f, t).from.typ == i.from.typ && MeantProg(i, f, t).to.typ == i.to.typ
  {
  }

  /**
   The round trip. A reader of the x86 assembler's bytes recovers the program with its
   symbols inline if and only if no operand hits a slot announced before an END and,
   for the linker 8l, no operand is a D_CONST2.
   */
  lemma {:induction false} ReaderRecovers(c: Cache, live: set<nat>, prog: seq<Instr>, rd: Reader, tab: Table, full: bool)
    requires Agrees(c, live, rd, tab)
    requires AllWellFormed(prog)
    requires prog != [] && prog[|prog| - 1].opcode == AEND
    ensures Load(Emit(c, prog), rd, tab, full) == Ok(Inline(prog, rd))
            <==> StaleFree(c, live, Uses(prog)) && AllLegible(prog, full)
    decreases prog
  {
    hide Settle, EncodeInstr, EncodeNames, Load, NotStale, MeantProg;
    var i := prog[0];
    var f, t := i.from.Ref(), i.to.Ref();
    var p := Settle(c, f, t);
    SettleResolves(c, live, rd, tab, f, t);
    var tab' := rd.Replay(tab, p.names);
    var got, want := MeantProg(i, tab'[p.sf], tab'[p.st]), MeantProg(i, rd.Meant(f), rd.Meant(t));
    MeantInjective(i, tab'[p.sf], tab'[p.st], rd.Meant(f), rd.Meant(t));
    MeantInjective(i, rd.Meant(f), rd.Meant(t), rd.Meant(f), rd.Meant(t));
    var bytes := Emit(p.cache, prog[1..]);
    assert Emit(c, prog) == EncodeNames(NAMEHEAD, p.names) + (EncodeInstr(i, p.sf, p.st) + bytes);
    NamesRoundTrip(p.names, EncodeInstr(i, p.sf, p.st) + bytes, rd, tab, full);
    LoadInstr(i, p.sf, p.st, bytes, rd, tab', full);
    var rd' := if i.opcode == AEND then rd.(version := rd.version + 1) else rd;
    var rest := Inline(prog[1..], rd');
    assert Inline(prog, rd) == [want] + rest;
    AllLegibleCons(prog, full);
    if !Legible(i, full) {
      assert Inline(prog, rd)[0] == want;
    } else if |prog| == 1 {
      assert bytes == [] && Inline(prog, rd) == [want];
      assert [got] == [want] <==> got == want by { ConsInjective(got, [], want, []); }
    } else {
      RecoverRest(c, live, prog, rd, tab', got, want, full);
    }
  }

  lemma RecoverRest(c: Cache, live: set<nat>, prog: seq<Instr>, rd: Reader, tab': Table, got: Prog, want: Prog, full: bool)
    requires c.Valid() && AllWellFormed(prog) && |tab'| == NSYM
    requires |prog| > 1 && prog[|prog| - 1].opcode == AEND && Legible(prog[0], full)
    requires var i := prog[0];
             var p := Settle(c, i.from.Ref(), i.to.Ref());
             && Agrees(p.cache, live + Announced(p.names), rd, tab')
             && (got == want <==> NotStale(p, live, i.from.Ref(), i.to.Ref()))
    ensures var i := prog[0];
            var p := Settle(c, i.from.Ref(), i.to.Ref());
            var bytes := Emit(p.cache, prog[1..]);
            var rd' := if i.opcode == AEND then rd.(version := rd.version + 1) else rd;
            var r := if i.opcode == AEND then Load(bytes, rd', EmptyTable(), full) else Load(bytes, rd, tab', full);
            && bytes != []
            && (r.After(got) == Ok([want] + Inline(prog[1..], rd')) <==> StaleFree(c, live, Uses(prog)) && AllLegible(prog, full))
    decreases prog, 0
  {
    hide Settle, EncodeInstr, EncodeNames, Load, NotStale, MeantProg, Emit;
    var i := prog[0];
    var p := Settle(c, i.from.Ref(), i.to.Ref());
    var last := prog[1..];
    AllLegibleCons(prog, full);
    assert last[|last| - 1] == prog[|prog| - 1];
    var rd' := if i.opcode == AEND then rd.(version := rd.version + 1) else rd;
    var (l, tb) := if i.opcode == AEND then ({}, EmptyTable()) else (live + Announced(p.names), tab');
    EmitNonEmpty(p.cache, last);
    ReaderRecovers(p.cache, l, last, rd', tb, full);
    var more := Load(Emit(p.cache, last), rd', tb, full);
    if more.Ok? {
      ConsInjective(got, more.progs, want, Inline(last, rd'));
    }
  }

  lemma BuildableIsLegible(prog: seq<Instr>)
    requires AllBuildable(prog)
    ensures AllWellFormed(prog) && AllLegible(prog, false)
  {
    assert forall k :: 0 <= k < |prog| ==> prog[k].Buildable();
  }

  /** For every program the assembler can be given: 8l recovers it if and only if no operand is stale. */
  lemma LinkerRecovers(c: Cache, live: set<nat>, prog: seq<Instr>, rd: Reader, tab: Table)
    requires Agrees(c, live, rd, tab) && AllBuildable(prog)
    requires prog != [] && prog[|prog| - 1].opcode == AEND
    ensures Load(Emit(c, prog), rd, tab, false) == Ok(Inline(prog, rd)) <==> StaleFree(c, live, Uses(prog))
  {
    hide Load, Emit, Inline, StaleFree, AllBuildable, AllWellFormed, AllLegible;
    BuildableIsLegible(prog);
    ReaderRecovers(c, live, prog, rd, tab, false);
  }

  /** So 8l recovers every program the assembler finishes with its one END, from any table. */
  lemma RoundTrip(earlier: map<Name, int>, prog: seq<Instr>, rd: Reader, tab: Table)
    requires AllBuildable(prog) && |tab| == NSYM && tab[0] == None
    requires prog != [] && prog[|prog| - 1].opcode == AEND
    requires forall k :: 0 <= k < |prog| - 1 ==> prog[k].opcode != AEND
    ensures Load(Emit(Reset(earlier), prog), rd, tab, false) == Ok(Inline(prog, rd))
  {
    hide Load, Emit, Inline, StaleFree, AllBuildable;
    LinkerRecovers(Reset(earlier), {}, prog, rd, tab);
    UsesEnd(prog);
    EndLastIsStaleFree(Reset(earlier), {}, Uses(prog));
  }

  lemma {:induction false} UsesEnd(prog: seq<Instr>)
    ensures forall k :: 0 <= k < |prog| ==> Uses(prog)[k].end == (prog[k].opcode == AEND)
  {
    if prog != [] {
      UsesEnd(prog[1..]);
    }
  }

  // ----- what a loaded operand means, said of the operand as it was written -----

  /** A symbol is private to the file if its operand, or the address it is taken of, is static. */
  predicate IsPrivate(g: Gen) {
    g.typ == D_STATIC || (g.typ == D_ADDR && Low(g.index) == D_STATIC)
  }

  predicate SameOperand(g: Gen, a: Adr, version: nat) {
    && a.typ == g.typ && a.index == Low(g.index) && a.scale == Low(g.scale) && a.offset == Wrap32(g.offset)
    && a.offset2 == (if g.typ == D_CONST2 then Wrap32(g.offset2) else 0)
    && a.value == (if g.typ == D_FCONST then Ieee(Wrap32(g.lo), Wrap32(g.hi))
                   else if g.typ == D_SCONST then Chars(g.sval) else NoValue)
    && a.sym == (match g.sym
                 case None => None
                 case Some(name) => Some(LinkSym(name, if IsPrivate(g) then version else 0)))
  }

  predicate SameInstr(i: Instr, p: Prog, version: nat) {
    && p.opcode == i.opcode && p.line == Wrap32(i.line)
    && SameOperand(i.from, p.from, version) && SameOperand(i.to, p.to, version)
  }

  lemma MeantSameOperand(g: Gen, rd: Reader)
    requires rd.privateKind == D_STATIC
    ensures SameOperand(g, MeantOpd(g, rd.Meant(g.Ref())), rd.version)
  {
    assert Low(g.typ) == g.typ;
    hide Wrap32;
  }

  /** Each END in front of an instruction starts a new version of private symbols. */
  function EndsBefore(prog: seq<Instr>, k: nat): nat
    requires k <= |prog|
  {
    if k == 0 then 0 else (if prog[0].opcode == AEND then 1 else 0) + EndsBefore(prog[1..], k - 1)
  }

  lemma {:induction false} NoEndBefore(prog: seq<Instr>, k: nat)
    requires k <= |prog| && forall j :: 0 <= j < k ==> prog[j].opcode != AEND
    ensures EndsBefore(prog, k) == 0
  {
    if k > 0 {
      NoEndBefore(prog[1..], k - 1);
    }
  }

  /** The simple encoding says what was written, instruction by instruction. */
  lemma {:induction false} InlineSame(prog: seq<Instr>, rd: Reader)
    requires rd.privateKind == D_STATIC
    ensures |Inline(prog, rd)| == |prog|
    ensures forall k :: 0 <= k < |prog| ==> SameInstr(prog[k], Inline(prog, rd)[k], rd.version + EndsBefore(prog, k))
    decreases prog
  {
    hide SameOperand, MeantOpd, Reader.Meant, Low;
    if prog != [] {
      MeantSameOperand(prog[0].from, rd);
      MeantSameOperand(prog[0].to, rd);
      var rd' := if prog[0].opcode == AEND then rd.(version := rd.version + 1) else rd;
      InlineSame(prog[1..], rd');
      forall k | 0 < k < |prog|
        ensures SameInstr(prog[k], Inline(prog, rd)[k], rd.version + EndsBefore(prog, k))
      {
        assert prog[k] == prog[1..][k - 1] && Inline(prog, rd)[k] == Inline(prog[1..], rd')[k - 1];
      }
    }
  }

  const NULLGEN := Gen(D_NONE, D_NONE, 0, None, 0, 0, 0, 0, [0, 0, 0, 0, 0, 0, 0, 0])
  const END := Instr(AEND, NULLGEN, NULLGEN, 1)

  lemma {:induction false} NoSymbolsStaleFree(c: Cache, live: set<nat>, uses: seq<Use>)
    requires c.Valid() && forall k :: 0 <= k < |uses| ==> uses[k].from.None? && uses[k].to.None?
    ensures StaleFree(c, live, uses)
    decreases uses
  {
    if uses != [] {
      var l := if uses[0].end then {} else live + Announced([]);
      NoSymbolsStaleFree(c, l, uses[1..]);
    }
  }

  /**
   The operand type that tells the two readers apart. The format can carry it, but the assembler
   cannot be made to write it: the program here is not buildable.
   */
  lemma Const2NeedsFullReader(earlier: map<Name, int>, rd: Reader)
    ensures var prog := [END.(opcode := 1, to := NULLGEN.(typ := D_CONST2, offset := 16, offset2 := 8)), END];
            && AllWellFormed(prog) && !AllBuildable(prog)
            && Load(Emit(Reset(earlier), prog), rd, EmptyTable(), true) == Ok(Inline(prog, rd))
            && Load(Emit(Reset(earlier), prog), rd, EmptyTable(), false) != Ok(Inline(prog, rd))
  {
    hide Load, Emit, Inline;
    var prog := [END.(opcode := 1, to := NULLGEN.(typ := D_CONST2, offset := 16, offset2 := 8)), END];
    assert AllLegible(prog, true);
    assert !Legible(prog[0], false) && !prog[0].Buildable();
    assert prog[1..] == [END] && [END][1..] == [] && Uses([END]) == [END.Use()];
    assert Uses(prog) == [prog[0].Use(), END.Use()];
    NoSymbolsStaleFree(Reset(earlier), {}, Uses(prog));
    ReaderRecovers(Reset(earlier), {}, prog, rd, EmptyTable(), true);
    ReaderRecovers(Reset(earlier), {}, prog, rd, EmptyTable(), false);
  }

  /** The second pass over a source without END statements, closed by `cclean`: 8l reads the program back. */
  method Assemble(earlier: map<Name, int>, prog: seq<Instr>, ghost rd: Reader) returns (out: seq<byte>)
    requires AllBuildable(prog) && forall k :: 0 <= k < |prog| ==> prog[k].opcode != AEND
    ensures forall tab: Table :: |tab| == NSYM && tab[0] == None ==>
              Load(out, rd, tab, false) == Ok(Inline(prog + [END], rd))
    ensures rd.privateKind == D_STATIC ==>
              forall tab: Table :: |tab| == NSYM && tab[0] == None ==>
                var r := Load(out, rd, tab, false);
                && r.Ok? && |r.progs| == |prog| + 1 && SameInstr(END, r.progs[|prog|], rd.version)
                && forall k :: 0 <= k < |prog| ==> SameInstr(prog[k], r.progs[k], rd.version)
  {
    hide Load, Emit, Inline, CacheAfter, AllBuildable, Uses, SameInstr, EndsBefore;
    var asm := new Assembler(earlier);
    AssembleNothing(earlier, prog[..0]);
    for n := 0 to |prog|
      invariant asm.Valid() && asm.State() == CacheAfter(Reset(earlier), Uses(prog[..n]))
      invariant asm.obuf == Emit(Reset(earlier), prog[..n])
    {
      assert prog[..n + 1] == prog[..n] + [prog[n]];
      EmitAppend(Reset(earlier), prog[..n], prog[n]);
      asm.OutCode(prog[n]);
    }
    assert prog[..|prog|] == prog;
    EmitAppend(Reset(earlier), prog, END);
    asm.OutCode(END);
    out := asm.obuf;
    forall tab: Table | |tab| == NSYM && tab[0] == None
      ensures Load(out, rd, tab, false) == Ok(Inline(prog + [END], rd))
    {
      FinishedRoundTrip(earlier, prog, rd, tab);
    }
    if rd.privateKind == D_STATIC {
      var all := prog + [END];
      InlineSame(all, rd);
      forall k | 0 <= k < |all| ensures EndsBefore(all, k) == 0 {
        NoEndBefore(all, k);
      }
      assert forall k :: 0 <= k < |prog| ==> all[k] == prog[k];
    }
  }

  lemma AssembleNothing(earlier: map<Name, int>, prog: seq<Instr>)
    requires prog == []
    ensures Emit(Reset(earlier), prog) == [] && CacheAfter(Reset(earlier), Uses(prog)) == Reset(earlier)
  {
  }

  lemma FinishedRoundTrip(earlier: map<Name, int>, prog: seq<Instr>, rd: Reader, tab: Table)
    requires AllBuildable(prog) && |tab| == NSYM && tab[0] == None
    requires forall k :: 0 <= k < |prog| ==> prog[k].opcode != AEND
    ensures Load(Emit(Reset(earlier), prog + [END]), rd, tab, false) == Ok(Inline(prog + [END], rd))
  {
    hide Load, Emit, Inline;
    RoundTrip(earlier, prog + [END], rd, tab);
  }
}
