/**
 The ARM linker's loader, and the round trip of a whole object file: for every
 program, the linker recovers every instruction with both of its symbols exactly
 when no operand hits a slot that was announced before an END.
 */
module ArmLink {
  import opened Wrappers
  import opened Bytes
  import opened SymbolCache
  import opened ArmObject

  datatype Value = NoValue | Offset(offset: int) | Ieee(lo: int, hi: int) | Chars(sval: seq<byte>)

  /** An operand as the linker holds it. */
  datatype Adr = Adr(typ: int, reg: int, sym: Option<LinkSym>, symkind: int, value: Value)

  datatype Prog = Prog(opcode: int, scond: int, reg: int, line: int, from: Adr, to: Adr)

  // ----- reading -----

  /** `D_CONST` with a symbol kind is read as `D_ADDR`. */
  function ReadType(typ: int, symkind: int): int {
    if typ == D_CONST && symkind != N_NONE then D_ADDR else typ
  }

  function ReadOpd(p: seq<byte>, tab: Table): (r: Option<(Adr, nat)>)
    ensures r.Some? ==> 4 <= r.value.1 <= |p|
  {
    if |p| < 4 || p[1] > NREG || p[2] >= |tab| then None
    else
      var typ := ReadType(p[0], p[3]);
      var a := Adr(typ, p[1], tab[p[2]], p[3], NoValue);
      if typ in {D_NONE, D_REG, D_PSR, D_FREG, D_FPCR} then Some((a, 4))
      else if typ == D_REGREG then
        if |p| < 5 then None else Some((a.(value := Offset(p[4])), 5))
      else if typ in {D_CONST, D_ADDR, D_SHIFT, D_OREG, D_BRANCH} then
        if |p| < 8 then None else Some((a.(value := Offset(DecodeWord(p[4..8]))), 8))
      else if |p| < 12 then None
      else if typ == D_SCONST then Some((a.(value := Chars(p[4..12])), 12))
      else if typ == D_FCONST then
        Some((a.(value := Ieee(DecodeWord(p[4..8]), DecodeWord(p[8..12]))), 12))
      else None
  }

  function ReadProg(p: seq<byte>, tab: Table): (r: Option<(Prog, nat)>)
    ensures r.Some? ==> 7 <= r.value.1 <= |p|
  {
    if |p| < 7 || p[2] > NREG then None
    else
      var from := ReadOpd(p[7..], tab);
      if from.None? then None
      else
        var to := ReadOpd(p[7 + from.value.1..], tab);
        if to.None? then None
        else Some((Prog(p[0], p[1], p[2], DecodeWord(p[3..7]), from.value.0, to.value.0),
                   7 + from.value.1 + to.value.1))
  }

  /** An ANAME or ASIGNAME record: what it announces and its length. */
  function ReadName(p: seq<byte>): (r: Option<(Announce, nat)>)
    requires p != []
    ensures r.Some? ==> 0 < r.value.1 <= |p|
  {
    var at := if p[0] == ASIGNAME then 4 else 0;
    if |p| < at + 3 then None
    else
      var stop := FindNul(p, at + 3);
      if stop.None? || p[at + 2] >= NSYM then None
      else Some((Announce(p[at + 3..stop.value], p[at + 1], p[at + 2]), stop.value + 1))
  }

  /** `ldobj`: END clears the table and starts a new version. */
  function Load(bs: seq<byte>, rd: Reader, tab: Table): Loaded<Prog>
    requires |tab| == NSYM
    decreases |bs|
  {
    if bs == [] || bs[0] <= AXXX || bs[0] >= ALAST then Bad
    else if bs[0] == ANAME || bs[0] == ASIGNAME then
      var n := ReadName(bs);
      if n.None? then Bad else Load(bs[n.value.1..], rd, rd.Enter(tab, n.value.0))
    else
      var p := ReadProg(bs, tab);
      if p.None? then Bad
      else
        var (prog, size) := p.value;
        if prog.opcode != AEND then Load(bs[size..], rd, tab).After(prog)
        else if size == |bs| then Ok([prog])
        else Load(bs[size..], rd.(version := rd.version + 1), EmptyTable()).After(prog)
  }

  // ----- what should be read -----

  function MeantValue(g: Gen): Value {
    if g.typ in {D_CONST, D_ADDR, D_OREG, D_BRANCH, D_SHIFT} then Offset(Wrap32(g.offset))
    else if g.typ == D_REGREG then Offset(Low(g.offset))
    else if g.typ == D_SCONST then Chars(g.sval)
    else if g.typ == D_FCONST then Ieee(Wrap32(g.lo), Wrap32(g.hi))
    else NoValue
  }

  /** The operand with its symbol written inline. */
  function MeantOpd(g: Gen, sym: Option<LinkSym>): Adr {
    Adr(ReadType(g.typ, Low(g.symkind)), Low(g.reg), sym, Low(g.symkind), MeantValue(g))
  }

  function MeantProg(i: Instr, from: Option<LinkSym>, to: Option<LinkSym>): Prog {
    Prog(i.opcode, i.scond, Low(i.reg), Wrap32(i.line), MeantOpd(i.from, from), MeantOpd(i.to, to))
  }

  /** The program with every symbol inline: the simple encoding the cache must agree with. */
  function Inline(prog: seq<Instr>, rd: Reader): seq<Prog> {
    if prog == [] then []
    else
      var i := prog[0].Adjusted();
      [MeantProg(i, rd.Meant(i.from.Ref()), rd.Meant(i.to.Ref()))]
      + Inline(prog[1..], if i.opcode == AEND then rd.(version := rd.version + 1) else rd)
  }

  // ----- records round trip -----

  lemma OpdRoundTrip(g: Gen, idx: nat, rest: seq<byte>, tab: Table)
    requires g.Known() && Low(g.reg) <= NREG && idx < |tab| == NSYM
    ensures var e := EncodeOpd(g, idx);
            ReadOpd(e + rest, tab) == Some((MeantOpd(g, tab[idx]), |e|))
  {
    var e := EncodeOpd(g, idx);
    var p := e + rest;
    assert p[0] == g.typ && p[1] == Low(g.reg) && p[2] == idx && p[3] == Low(g.symkind);
    if g.typ in {D_CONST, D_ADDR, D_OREG, D_BRANCH, D_SHIFT} {
      assert p[4..8] == EncodeWord(g.offset);
      WordRoundTrip(g.offset);
    } else if g.typ == D_SCONST {
      assert p[4..12] == g.sval;
    } else if g.typ == D_FCONST {
      assert p[4..8] == EncodeWord(g.lo);
      assert p[8..12] == EncodeWord(g.hi);
      WordRoundTrip(g.lo);
      WordRoundTrip(g.hi);
    }
  }

  lemma InstrRoundTrip(i: Instr, sf: nat, st: nat, rest: seq<byte>, tab: Table)
    requires i.WellFormed() && sf < NSYM && st < NSYM && |tab| == NSYM
    ensures var e := EncodeInstr(i, sf, st);
            ReadProg(e + rest, tab) == Some((MeantProg(i, tab[sf], tab[st]), |e|))
  {
    hide EncodeOpd, ReadOpd, MeantOpd;
    var e := EncodeInstr(i, sf, st);
    var f, t := EncodeOpd(i.from, sf), EncodeOpd(i.to, st);
    var p := e + rest;
    CutFour([Low(i.opcode), i.scond, Low(i.reg)], EncodeWord(i.line), f, t, rest);
    OpdRoundTrip(i.from, sf, t + rest, tab);
    OpdRoundTrip(i.to, st, rest, tab);
    WordRoundTrip(i.line);
  }

  /** Low bytes of kinds are all a linker sees, and all it needs. */
  lemma NameRoundTrip(a: Announce, rest: seq<byte>)
    requires a.idx < NSYM
    ensures var e := EncodeName(NAMEHEAD, a);
            ReadName(e + rest) == Some((a.(kind := Low(a.kind)), |e|))
  {
    var e := EncodeName(NAMEHEAD, a);
    var p := e + rest;
    FindNulAt(p, 3, 3 + |a.name|);
    assert p[3..3 + |a.name|] == a.name;
  }

  lemma LoadName(a: Announce, rest: seq<byte>, rd: Reader, tab: Table)
    requires a.idx < NSYM && |tab| == NSYM
    ensures Load(EncodeName(NAMEHEAD, a) + rest, rd, tab) == Load(rest, rd, rd.Enter(tab, a))
  {
    hide ReadProg, ReadName;
    NameRoundTrip(a, rest);
    var e := EncodeName(NAMEHEAD, a);
    assert (e + rest)[|e|..] == rest;
    assert rd.Enter(tab, a.(kind := Low(a.kind))) == rd.Enter(tab, a);
  }

  lemma {:induction false} NamesRoundTrip(names: seq<Announce>, rest: seq<byte>, rd: Reader, tab: Table)
    requires |tab| == NSYM && forall a :: a in names ==> a.idx < NSYM
    ensures Load(EncodeNames(NAMEHEAD, names) + rest, rd, tab) == Load(rest, rd, rd.Replay(tab, names))
    decreases names
  {
    hide Load, EncodeName;
    if names == [] {
      assert EncodeNames(NAMEHEAD, names) + rest == rest;
    } else {
      var a := names[0];
      var more := EncodeNames(NAMEHEAD, names[1..]) + rest;
      assert EncodeNames(NAMEHEAD, names) + rest == EncodeName(NAMEHEAD, a) + more;
      LoadName(a, more, rd, tab);
      NamesRoundTrip(names[1..], rest, rd, rd.Enter(tab, a));
    }
  }

  // ----- the round trip of a file -----

  /** What the linker makes of the first instruction, and where it continues. */
  lemma LoadFirst(c: Cache, live: set<nat>, prog: seq<Instr>, rd: Reader, tab: Table)
    requires Agrees(c, live, rd, tab) && prog != []
    requires AllWellFormed(prog)
    ensures var i := prog[0].Adjusted();
            var p := Settle(c, i.from.Ref(), i.to.Ref());
            && (forall a :: a in p.names ==> a.idx < NSYM)
            && var tab' := rd.Replay(tab, p.names);
            var got := MeantProg(i, tab'[p.sf], tab'[p.st]);
            var rest := Emit(p.cache, prog[1..]);
            Load(Emit(c, prog), rd, tab) ==
              if i.opcode != AEND then Load(rest, rd, tab').After(got)
              else if rest == [] then Ok([got])
              else Load(rest, rd.(version := rd.version + 1), EmptyTable()).After(got)
  {
    hide Settle, EncodeNames, EncodeInstr, ReadProg, MeantProg, StaleFree;
    var i := prog[0].Adjusted();
    var p := Settle(c, i.from.Ref(), i.to.Ref());
    var e := EncodeInstr(i, p.sf, p.st);
    var rest := Emit(p.cache, prog[1..]);
    SettleAgrees(c, live, rd, tab, i.from.Ref(), i.to.Ref());
    var tab' := rd.Replay(tab, p.names);
    assert Emit(c, prog) == EncodeNames(NAMEHEAD, p.names) + (e + rest);
    NamesRoundTrip(p.names, e + rest, rd, tab);
    InstrRoundTrip(i, p.sf, p.st, rest, tab');
    assert (e + rest)[0] == i.opcode && (e + rest)[|e|..] == rest by { InstrHead(i, p.sf, p.st); }
    assert MeantProg(i, tab'[p.sf], tab'[p.st]).opcode == i.opcode by { MeantHead(i, tab'[p.sf], tab'[p.st]); }
  }

  lemma InstrHead(i: Instr, sf: nat, st: nat)
    requires i.WellFormed()
    ensures EncodeInstr(i, sf, st) != [] && EncodeInstr(i, sf, st)[0] == i.opcode
  {
  }

  lemma MeantHead(i: Instr, from: Option<LinkSym>, to: Option<LinkSym>)
    ensures MeantProg(i, from, to).opcode == i.opcode
  {
  }

  lemma EmitNonEmpty(c: Cache, prog: seq<Instr>)
    requires c.Valid() && prog != [] && AllWellFormed(prog)
    ensures Emit(c, prog) != []
  {
    hide Settle, EncodeNames;
    var i := prog[0].Adjusted();
    var p := Settle(c, i.from.Ref(), i.to.Ref());
    InstrHead(i, p.sf, p.st);
  }

  /**
   The round trip. Programs end in END, as the assembler always appends one. The
   linker's reading of the assembler's bytes is the program with its symbols inline
   if and only if no operand refers to a slot announced before an END.
   */
  lemma {:induction false} LinkerRecovers(c: Cache, live: set<nat>, prog: seq<Instr>, rd: Reader, tab: Table)
    requires Agrees(c, live, rd, tab)
    requires AllWellFormed(prog)
    requires prog != [] && prog[|prog| - 1].opcode == AEND
    ensures Load(Emit(c, prog), rd, tab) == Ok(Inline(prog, rd)) <==> StaleFree(c, live, Uses(prog))
    decreases prog
  {
    hide Settle, EncodeInstr, EncodeNames, Emit, Load, NotStale, MeantProg, Inline, StaleFree, Uses, Instr.Adjusted, AllWellFormed;
    var i := prog[0].Adjusted();
    var f, t := i.from.Ref(), i.to.Ref();
    var p := Settle(c, f, t);
    LoadFirst(c, live, prog, rd, tab);
    SettleResolves(c, live, rd, tab, f, t);
    var tab' := rd.Replay(tab, p.names);
    var got, want := MeantProg(i, tab'[p.sf], tab'[p.st]), MeantProg(i, rd.Meant(f), rd.Meant(t));
    MeantInjective(i, tab'[p.sf], tab'[p.st], rd.Meant(f), rd.Meant(t));
    InlineFirst(c, live, prog, rd);
    var rd' := if i.opcode == AEND then rd.(version := rd.version + 1) else rd;
    var last := prog[1..];
    var rest := Inline(last, rd');
    if |prog| == 1 {
      EmitNothing(p.cache, last);
      InlineNothing(p.cache, live, last, rd');
      ConsInjective(got, [], want, []);
      EndsInEnd(prog);
    } else {
      assert last[|last| - 1] == prog[|prog| - 1];
      var (l, tb) := if i.opcode == AEND then ({}, EmptyTable()) else (live + Announced(p.names), tab');
      WellFormedTail(prog);
      EmitNonEmpty(p.cache, last);
      LinkerRecovers(p.cache, l, last, rd', tb);
      var more := Load(Emit(p.cache, last), rd', tb);
      if more.Ok? {
        ConsInjective(got, more.progs, want, rest);
      }
    }
  }

  lemma WellFormedTail(prog: seq<Instr>)
    requires prog != [] && AllWellFormed(prog)
    ensures AllWellFormed(prog[1..])
  {
  }

  lemma EndsInEnd(prog: seq<Instr>)
    requires |prog| == 1 && prog[0].opcode == AEND
    ensures prog[0].Adjusted().opcode == AEND
  {
  }

  /** The first instruction of a program inline, and whether its references are stale. */
  lemma InlineFirst(c: Cache, live: set<nat>, prog: seq<Instr>, rd: Reader)
    requires c.Valid() && prog != []
    ensures var i := prog[0].Adjusted();
            var (f, t) := (i.from.Ref(), i.to.Ref());
            var p := Settle(c, f, t);
            var rd' := if i.opcode == AEND then rd.(version := rd.version + 1) else rd;
            && Inline(prog, rd) == [MeantProg(i, rd.Meant(f), rd.Meant(t))] + Inline(prog[1..], rd')
            && (StaleFree(c, live, Uses(prog)) <==>
                  && NotStale(p, live, f, t)
                  && StaleFree(p.cache, if i.opcode == AEND then {} else live + Announced(p.names), Uses(prog[1..])))
  {
    hide Settle, NotStale, MeantProg;
    assert Uses(prog)[1..] == Uses(prog[1..]);
  }

  lemma InlineNothing(c: Cache, live: set<nat>, prog: seq<Instr>, rd: Reader)
    requires c.Valid() && prog == []
    ensures Inline(prog, rd) == [] && forall l: set<nat> :: StaleFree(c, l, Uses(prog))
  {
  }

  lemma MeantInjective(i: Instr, f: Option<LinkSym>, t: Option<LinkSym>, f': Option<LinkSym>, t': Option<LinkSym>)
    ensures MeantProg(i, f, t) == MeantProg(i, f', t') <==> f == f' && t == t'
  {
  }

  lemma EmitNothing(c: Cache, prog: seq<Instr>)
    requires c.Valid() && prog == []
    ensures Emit(c, prog) == []
  {
  }

  /**
   So the linker recovers every program the assembler finishes with its one END, whatever the
   records in front of it, such as those of the line history, have left in its table.
   */
  lemma RoundTrip(earlier: map<Name, int>, prog: seq<Instr>, rd: Reader, tab: Table)
    requires AllWellFormed(prog) && |tab| == NSYM && tab[0] == None
    requires prog != [] && prog[|prog| - 1].opcode == AEND
    requires forall k :: 0 <= k < |prog| - 1 ==> prog[k].opcode != AEND
    ensures Load(Emit(Reset(earlier), prog), rd, tab) == Ok(Inline(prog, rd))
  {
    hide Load, Emit, Inline, StaleFree;
    LinkerRecovers(Reset(earlier), {}, prog, rd, tab);
    UsesEnd(prog);
    EndLastIsStaleFree(Reset(earlier), {}, Uses(prog));
  }

  lemma {:induction false} UsesEnd(prog: seq<Instr>)
    ensures forall k :: 0 <= k < |prog| ==> Uses(prog)[k].end == (prog[k].opcode == AEND)
  {
    if prog != [] {
      UsesEnd(prog[1..]);
    }
  }

  // ----- what a loaded instruction means, said of the operands as they were written -----

  /** `opbra`: the condition field of the branch that 5l generates; None is its `bad bra`. */
  function BranchCondition(opcode: int): Option<nat> {
    if opcode == ABEQ then Some(0x0) else if opcode == ABNE then Some(0x1)
    else if opcode == ABHS then Some(0x2) else if opcode == ABLO then Some(0x3)
    else if opcode == ABMI then Some(0x4) else if opcode == ABPL then Some(0x5)
    else if opcode == ABVS then Some(0x6) else if opcode == ABVC then Some(0x7)
    else if opcode == ABHI then Some(0x8) else if opcode == ABLS then Some(0x9)
    else if opcode == ABGE then Some(0xa) else if opcode == ABLT then Some(0xb)
    else if opcode == ABGT then Some(0xc) else if opcode == ABLE then Some(0xd)
    else if opcode == AB then Some(0xe) else None
  }

  /** A branch runs under the condition it was written with, or never; the other bits stay. */
  predicate SameAction(i: Instr, p: Prog) {
    if i.opcode != AB then p.opcode == i.opcode && p.scond == i.scond
    else
      && p.scond / 16 == i.scond / 16 && p.scond % 16 == ALWAYS
      && (if i.scond % 16 < 15 then BranchCondition(p.opcode) == Some(i.scond % 16) else p.opcode == ANOP)
  }

  /** A symbol of kind N_INTERN is private to the file, any other is global. */
  predicate SameOperand(g: Gen, a: Adr, version: nat) {
    && a.typ == (if g.typ == D_CONST && Low(g.symkind) != N_NONE then D_ADDR else g.typ)
    && a.reg == Low(g.reg) && a.symkind == Low(g.symkind) && a.value == MeantValue(g)
    && a.sym == (match g.sym
                 case None => None
                 case Some(name) => Some(LinkSym(name, if Low(g.symkind) == N_INTERN then version else 0)))
  }

  predicate SameInstr(i: Instr, p: Prog, version: nat) {
    && SameAction(i, p) && p.reg == Low(i.reg) && p.line == Wrap32(i.line)
    && SameOperand(i.from, p.from, version) && SameOperand(i.to, p.to, version)
  }

  lemma AdjustedSameAction(i: Instr, p: Prog)
    requires p.opcode == i.Adjusted().opcode && p.scond == i.Adjusted().scond
    ensures SameAction(i, p)
  {
    var c: nat := i.scond % 16;
    if i.opcode == AB && c < 15 {
      assert p.opcode == bcode[c];
    }
  }

  lemma MeantSameOperand(g: Gen, rd: Reader)
    requires rd.privateKind == N_INTERN
    ensures SameOperand(g, MeantOpd(g, rd.Meant(g.Ref())), rd.version)
  {
    hide Low, MeantValue;
  }

  /** Each END in front of an instruction starts a new version of private symbols. */
  function EndsBefore(prog: seq<Instr>, k: nat): nat
    requires k <= |prog|
  {
    if k == 0 then 0 else (if prog[0].opcode == AEND then 1 else 0) + EndsBefore(prog[1..], k - 1)
  }

  lemma {:induction false} NoEndBefore(prog: seq<Instr>, k: nat)
    requires k <= |prog| && forall j :: 0 <= j < k ==> prog[j].opcode != AEND
    ensures EndsBefore(prog, k) == 0
  {
    if k > 0 {
      NoEndBefore(prog[1..], k - 1);
    }
  }

  /** The simple encoding says what was written, instruction by instruction. */
  lemma {:induction false} InlineSame(prog: seq<Instr>, rd: Reader)
    requires rd.privateKind == N_INTERN
    ensures |Inline(prog, rd)| == |prog|
    ensures forall k :: 0 <= k < |prog| ==> SameInstr(prog[k], Inline(prog, rd)[k], rd.version + EndsBefore(prog, k))
    decreases prog
  {
    hide SameAction, SameOperand, MeantOpd, Reader.Meant, Instr.Adjusted, Low;
    if prog != [] {
      AdjustedFields(prog[0]);
      AdjustedSameAction(prog[0], Inline(prog, rd)[0]);
      MeantSameOperand(prog[0].from, rd);
      MeantSameOperand(prog[0].to, rd);
      var rd' := if prog[0].opcode == AEND then rd.(version := rd.version + 1) else rd;
      InlineSame(prog[1..], rd');
      forall k | 0 < k < |prog|
        ensures SameInstr(prog[k], Inline(prog, rd)[k], rd.version + EndsBefore(prog, k))
      {
        assert prog[k] == prog[1..][k - 1] && Inline(prog, rd)[k] == Inline(prog[1..], rd')[k - 1];
      }
    }
  }

  lemma AdjustedFields(i: Instr)
    ensures var j := i.Adjusted();
            && j.from == i.from && j.to == i.to && j.reg == i.reg && j.line == i.line
            && (j.opcode == AEND <==> i.opcode == AEND)
  {
  }

  const NULLGEN := Gen(D_NONE, NREG, None, N_NONE, 0, 0, 0, [0, 0, 0, 0, 0, 0, 0, 0])
  const END := Instr(AEND, ALWAYS, NULLGEN, NREG, NULLGEN, 1)

  /** `BL main(SB)` before and after an END in the source. */
  function CallAcrossEnd(main: Name): seq<Instr> {
    var call := Instr(54, ALWAYS, NULLGEN, NREG,
                      NULLGEN.(typ := D_BRANCH, sym := Some(main), symkind := 1), 1);
    [call, END, call, END]
  }

  /**
   An END in the middle of a source loses symbols: the linker clears its table there,
   the assembler does not, so the second call is read without its symbol.
   */
  lemma EndLosesSymbol(main: Name, rd: Reader)
    ensures var prog := CallAcrossEnd(main);
            && AllWellFormed(prog)
            && Load(Emit(Reset(map[]), prog), rd, EmptyTable()) != Ok(Inline(prog, rd))
  {
    hide Load, Emit, Inline;
    var prog := CallAcrossEnd(main);
    var c := Reset(map[]);
    LinkerRecovers(c, {}, prog, rd, EmptyTable());
    var live := CallOnce(main);
    var p := Settle(c, None, Some((main, 1)));
    var none, use := Use(None, None, true), Use(None, Some((main, 1)), false);
    assert Settle(p.cache, None, None) == Placement(p.cache, 0, 0, []);
    var uses := [use, none, use, none];
    assert Uses(prog) == uses by { FourUses(prog); }
    assert !StaleFree(p.cache, {}, uses[2..]);
    assert uses[1..][1..] == uses[2..];
    assert !StaleFree(p.cache, live, uses[1..]);
  }

  lemma FourUses(prog: seq<Instr>)
    requires |prog| == 4
    ensures Uses(prog) == [prog[0].Use(), prog[1].Use(), prog[2].Use(), prog[3].Use()]
  {
    assert prog[1..][1..] == prog[2..] && prog[2..][1..] == prog[3..] && prog[3..][1..] == [];
    assert Uses(prog[3..]) == [prog[3].Use()];
    assert Uses(prog[2..]) == [prog[2].Use()] + Uses(prog[3..]);
    assert Uses(prog[1..]) == [prog[1].Use()] + Uses(prog[2..]);
  }

  lemma CallOnce(main: Name) returns (live: set<nat>)
    ensures var p := Settle(Reset(map[]), None, Some((main, 1)));
            && live == {} + Announced(p.names)
            && p.cache.Valid() && p.cache.Hit(main, 1)
            && Settle(p.cache, None, Some((main, 1))) == Placement(p.cache, 0, p.st, [])
  {
    live := {} + Announced(Settle(Reset(map[]), None, Some((main, 1))).names);
  }

  /**
   The second pass over a source without END statements, closed by `cclean`. It fails
   exactly on an operand of unknown type; otherwise the linker reads the program back, from
   any table that earlier records leave.
   */
  method Assemble(earlier: map<Name, int>, prog: seq<Instr>, ghost rd: Reader) returns (ok: bool, out: seq<byte>)
    requires forall k :: 0 <= k < |prog| ==> prog[k].opcode != AEND
    ensures ok <==> forall k :: 0 <= k < |prog| ==> prog[k].from.Known() && prog[k].to.Known()
    ensures ok && AllWellFormed(prog) ==>
              forall tab: Table :: |tab| == NSYM && tab[0] == None ==> Load(out, rd, tab) == Ok(Inline(prog + [END], rd))
    ensures ok && AllWellFormed(prog) && rd.privateKind == N_INTERN ==>
              forall tab: Table :: |tab| == NSYM && tab[0] == None ==>
                var r := Load(out, rd, tab);
                && r.Ok? && |r.progs| == |prog| + 1 && SameInstr(END, r.progs[|prog|], rd.version)
                && forall k :: 0 <= k < |prog| ==> SameInstr(prog[k], r.progs[k], rd.version)
  {
    hide Load, Emit, Inline, CacheAfter, AllWellFormed, Uses, SameInstr, EndsBefore;
    var asm := new Assembler(earlier);
    AssembleNothing(earlier, prog[..0]);
    for n := 0 to |prog|
      invariant asm.Valid() && asm.State() == CacheAfter(Reset(earlier), Uses(prog[..n]))
      invariant asm.obuf == Emit(Reset(earlier), prog[..n])
      invariant forall k :: 0 <= k < n ==> prog[k].from.Known() && prog[k].to.Known()
    {
      assert prog[..n + 1] == prog[..n] + [prog[n]];
      EmitAppend(Reset(earlier), prog[..n], prog[n]);
      ok := asm.OutCode(prog[n]);
      if !ok {
        return false, [];
      }
    }
    assert prog[..|prog|] == prog;
    EmitAppend(Reset(earlier), prog, END);
    ok := asm.OutCode(END);
    out := asm.obuf;
    forall tab: Table | |tab| == NSYM && tab[0] == None && AllWellFormed(prog)
      ensures Load(out, rd, tab) == Ok(Inline(prog + [END], rd))
    {
      FinishedRoundTrip(earlier, prog, rd, tab);
    }
    if rd.privateKind == N_INTERN {
      var all := prog + [END];
      InlineSame(all, rd);
      forall k | 0 <= k < |all| ensures EndsBefore(all, k) == 0 {
        NoEndBefore(all, k);
      }
      assert forall k :: 0 <= k < |prog| ==> all[k] == prog[k];
    }
  }

  lemma AssembleNothing(earlier: map<Name, int>, prog: seq<Instr>)
    requires prog == []
    ensures Emit(Reset(earlier), prog) == [] && CacheAfter(Reset(earlier), Uses(prog)) == Reset(earlier)
  {
  }

  lemma FinishedRoundTrip(earlier: map<Name, int>, prog: seq<Instr>, rd: Reader, tab: Table)
    requires AllWellFormed(prog) && |tab| == NSYM && tab[0] == None
    requires forall k :: 0 <= k < |prog| ==> prog[k].opcode != AEND
    ensures Load(Emit(Reset(earlier), prog + [END]), rd, tab) == Ok(Inline(prog + [END], rd))
  {
    hide Load, Emit, Inline;
    RoundTrip(earlier, prog + [END], rd, tab);
  }
}
