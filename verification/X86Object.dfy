/**
 The x86 object file written by 8a: a flag byte says which fields of an operand
 follow. The symbol cache is the one of `SymbolCache`, with another retry test.
 */
module X86Object {
  import opened Wrappers
  import opened Bytes
  import opened SymbolCache

  // Operand kinds that the encoding treats specially.
  const D_NONE := 59
  const D_STATIC := 62
  const D_FCONST := 66
  const D_SCONST := 67
  const D_ADDR := 68
  const D_CONST2 := 142

  const NSNAME := 8

  const AXXX := 0
  const ADATA := 45
  const AGLOBL := 53
  const ANAME := 126
  const AEND := 329
  const ASIGNAME := 332
  const ALAST := 380

  /** `char sval[8]`. */
  type Chars8 = s: seq<byte> | |s| == NSNAME witness [0, 0, 0, 0, 0, 0, 0, 0]

  datatype Gen = Gen(typ: byte, index: int, scale: int, sym: Option<Name>,
                     offset: int, offset2: int, lo: int, hi: int, sval: Chars8)
  {
    /** The kind announced for the symbol: an address keeps it in `index`. */
    function Ref(): Ref {
      if sym.None? then None else Some((sym.value, if typ == D_ADDR then index else typ))
    }
  }

  datatype Instr = Instr(opcode: int, from: Gen, to: Gen, line: int) {
    /** What the opcode table of the assembler can produce. */
    predicate WellFormed() {
      AXXX < opcode < ALAST && opcode != ANAME && opcode != ASIGNAME
    }

    /** What the grammar can build: no rule makes a D_CONST2, so that case of the writer is dead. */
    predicate Buildable() {
      WellFormed() && from.typ != D_CONST2 && to.typ != D_CONST2
    }

    /** What the symbol cache sees. */
    function Use(): Use {
      SymbolCache.Use(from.Ref(), to.Ref(), opcode == AEND)
    }
  }

  predicate AllWellFormed(prog: seq<Instr>) {
    forall k :: 0 <= k < |prog| ==> prog[k].WellFormed()
  }

  predicate AllBuildable(prog: seq<Instr>) {
    forall k :: 0 <= k < |prog| ==> prog[k].Buildable()
  }

  /** The flag byte, bit by bit: T_TYPE, T_INDEX, T_OFFSET, T_FCONST, T_SYM, T_SCONST, T_OFFSET2. */
  datatype Flags = Flags(typ: bool, index: bool, offset: bool, fconst: bool, sym: bool, sconst: bool, offset2: bool)

  function Shift(b: bool, rest: nat): (r: nat)
    ensures r % 2 == (if b then 1 else 0) && r / 2 == rest
  {
    (if b then 1 else 0) + 2 * rest
  }

  /** The flags in order of their weights 1, 2, 4, 8, 16, 32, 64. */
  function PackFlags(f: Flags): (b: byte)
    ensures UnpackFlags(b) == f
  {
    Shift(f.typ, Shift(f.index, Shift(f.offset, Shift(f.fconst, Shift(f.sym, Shift(f.sconst, Shift(f.offset2, 0)))))))
  }

  function UnpackFlags(b: byte): Flags {
    var (b1, b2, b3) := (b / 2, b / 2 / 2, b / 2 / 2 / 2);
    var (b4, b5, b6) := (b3 / 2, b3 / 2 / 2, b3 / 2 / 2 / 2);
    Flags(b % 2 == 1, b1 % 2 == 1, b2 % 2 == 1, b3 % 2 == 1, b4 % 2 == 1, b5 % 2 == 1, b6 % 2 == 1)
  }

  // ----- writing -----

  function FlagsOf(g: Gen, idx: nat): Flags {
    Flags(g.typ !in {D_NONE, D_FCONST, D_CONST2, D_SCONST},
          g.index != D_NONE || g.scale != 0,
          g.offset != 0 || g.typ == D_CONST2,
          g.typ == D_FCONST,
          idx != 0,
          g.typ == D_SCONST,
          g.typ == D_CONST2)
  }

  function When(b: bool, s: seq<byte>): seq<byte> {
    if b then s else []
  }

  /** The last field: a float, a string, or the type. */
  function Tail(g: Gen): seq<byte> {
    if g.typ == D_FCONST then EncodeWord(g.lo) + EncodeWord(g.hi)
    else if g.typ == D_SCONST then g.sval
    else if g.typ == D_NONE || g.typ == D_CONST2 then []
    else [g.typ]
  }

  function EncodeOpd(g: Gen, idx: nat): seq<byte> {
    var f := FlagsOf(g, idx);
    [PackFlags(f)] + (When(f.index, [Low(g.index), Low(g.scale)]) + (When(f.offset, EncodeWord(g.offset))
    + (When(f.offset2, EncodeWord(g.offset2)) + (When(f.sym, [Low(idx)]) + Tail(g)))))
  }

  function EncodeInstr(i: Instr, sf: nat, st: nat): seq<byte> {
    [Low(i.opcode), Low(i.opcode / 256)] + EncodeWord(i.line) + EncodeOpd(i.from, sf) + EncodeOpd(i.to, st)
  }

  /** The opcode bytes of an ANAME record. */
  const NAMEHEAD: seq<byte> := [ANAME, 0]

  function Emit(c: Cache, prog: seq<Instr>): seq<byte>
    requires c.Valid()
    decreases prog
  {
    if prog == [] then []
    else
      var p := Settle(c, prog[0].from.Ref(), prog[0].to.Ref());
      EncodeNames(NAMEHEAD, p.names) + EncodeInstr(prog[0], p.sf, p.st) + Emit(p.cache, prog[1..])
  }

  function Uses(prog: seq<Instr>): (u: seq<Use>)
    ensures |u| == |prog|
  {
    if prog == [] then [] else [prog[0].Use()] + Uses(prog[1..])
  }

  /** The bytes of the first instruction, with its names. */
  function First(c: Cache, i: Instr): seq<byte>
    requires c.Valid()
  {
    var p := Settle(c, i.Use().from, i.Use().to);
    EncodeNames(NAMEHEAD, p.names) + EncodeInstr(i, p.sf, p.st)
  }

  lemma EmitCons(c: Cache, i: Instr, more: seq<Instr>)
    requires c.Valid()
    ensures var p := Settle(c, i.Use().from, i.Use().to);
            && Emit(c, [i] + more) == First(c, i) + Emit(p.cache, more)
            && CacheAfter(c, Uses([i] + more)) == CacheAfter(p.cache, Uses(more))
  {
    hide Settle, EncodeNames, EncodeInstr;
    assert ([i] + more)[1..] == more;
    assert Uses([i] + more)[1..] == Uses(more);
  }

  lemma {:induction false} EmitAppend(c: Cache, a: seq<Instr>, i: Instr)
    requires c.Valid()
    ensures Emit(c, a + [i]) == Emit(c, a) + Emit(CacheAfter(c, Uses(a)), [i])
    ensures CacheAfter(c, Uses(a + [i])) == CacheAfter(CacheAfter(c, Uses(a)), [i.Use()])
    decreases a
  {
    hide Settle, EncodeNames, EncodeInstr;
    if a == [] {
      assert a + [i] == [i] && Uses([i]) == [i.Use()];
    } else {
      EmitCons(c, a[0], a[1..] + [i]);
      EmitCons(c, a[0], a[1..]);
      assert a + [i] == [a[0]] + (a[1..] + [i]) && a == [a[0]] + a[1..];
      var p := Settle(c, a[0].Use().from, a[0].Use().to);
      EmitAppend(p.cache, a[1..], i);
      Assoc(First(c, a[0]), Emit(p.cache, a[1..]), Emit(CacheAfter(c, Uses(a)), [i]));
    }
  }

  class Assembler {
    const h: array<Slot>
    var symcounter: nat
    var symidx: map<Name, int>
    var obuf: seq<byte>
    var pc: int

    ghost predicate Valid()
      reads this, h
    {
      State().Valid()
    }

    ghost function State(): Cache
      reads this, h
    {
      Cache(h[..], symcounter, symidx)
    }

    constructor (earlier: map<Name, int>)
      ensures Valid() && State() == Reset(earlier) && obuf == [] && pc == 0 && fresh(h)
    {
      h := new Slot[NSYM](_ => Free);
      symcounter := 1;
      symidx := earlier;
      obuf := [];
      pc := 0;
      new;
      assert h[..] == seq(NSYM, _ => Free);
    }

    /** One `while(s != S)` block; `written` is whether it wrote a name. */
    method Find(r: Ref) returns (idx: nat, written: bool)
      requires Valid()
      modifies this`symcounter, this`symidx, this`obuf, h
      ensures Valid()
      ensures var t := Touch(old(State()), r);
              && State() == t.cache && idx == t.idx && obuf == old(obuf) + EncodeNames(NAMEHEAD, t.names)
              && written == (t.names != [])
    {
      idx := 0;
      written := false;
      if r.Some? {
        var (name, kind) := r.value;
        idx := if name in symidx && 0 <= symidx[name] < NSYM then symidx[name] else 0;
        if h[idx] != Slot(name, kind) {
          ghost var a := Announce(name, kind, symcounter);
          obuf := obuf + [ANAME, 0, Low(kind), Low(symcounter)] + name + [0];
          symidx := symidx[name := symcounter];
          h[symcounter] := Slot(name, kind);
          idx := symcounter;
          symcounter := if symcounter + 1 >= NSYM then 1 else symcounter + 1;
          written := true;
          EncodeOneName(NAMEHEAD, a);
        }
      }
    }

    /** Both blocks once; `jackpot` is the test at the end of the second one. */
    method TryBoth(f: Ref, t: Ref) returns (sf: nat, st: nat, jackpot: bool)
      requires Valid()
      modifies this`symcounter, this`symidx, this`obuf, h
      ensures Valid()
      ensures var p := Attempt(old(State()), f, t);
              State() == p.cache && sf == p.sf && st == p.st && obuf == old(obuf) + EncodeNames(NAMEHEAD, p.names)
      ensures jackpot == X86Jackpot(old(State()), f, t)
    {
      hide Touch, EncodeNames, SymbolCache.Cache.Valid;
      ghost var a := Touch(State(), f);
      EncodeNamesAppend(NAMEHEAD, a.names, Touch(a.cache, t).names);
      var w;
      sf, w := Find(f);
      st, w := Find(t);
      jackpot := w && st == sf;
    }

    /** The `jackpot:` loop of 8a reaches the state that the one of 5a reaches. */
    method PlaceBoth(f: Ref, t: Ref) returns (sf: nat, st: nat)
      requires Valid()
      modifies this`symcounter, this`symidx, this`obuf, h
      ensures Valid()
      ensures var p := Settle(old(State()), f, t);
              State() == p.cache && sf == p.sf && st == p.st && obuf == old(obuf) + EncodeNames(NAMEHEAD, p.names)
    {
      hide Touch, EncodeNames, Attempt, X86Jackpot;
      ghost var c0 := State();
      ghost var p := Attempt(c0, f, t);
      ghost var q := Attempt(p.cache, f, t);
      EncodeNamesAppend(NAMEHEAD, p.names, q.names);
      SettleHolds(c0, f, t);
      RetryTestsAgree(c0, f, t);
      RetryTestsAgree(p.cache, f, t);
      var jackpot;
      sf, st, jackpot := TryBoth(f, t);
      ghost var retries := 0;
      while jackpot
        invariant Valid()
        invariant retries <= 1
        invariant retries == 0 ==> jackpot == X86Jackpot(c0, f, t) && State() == p.cache && sf == p.sf && st == p.st
        invariant retries == 0 ==> obuf == old(obuf) + EncodeNames(NAMEHEAD, p.names)
        invariant retries == 1 ==> !jackpot && State() == q.cache && sf == q.sf && st == q.st
        invariant retries == 1 ==> X86Jackpot(c0, f, t) && obuf == old(obuf) + EncodeNames(NAMEHEAD, p.names + q.names)
        decreases 1 - retries
      {
        sf, st, jackpot := TryBoth(f, t);
        retries := retries + 1;
      }
    }

    method OutCode(i: Instr)
      requires Valid()
      modifies this`symcounter, this`symidx, this`obuf, this`pc, h
      ensures Valid()
      ensures obuf == old(obuf) + Emit(old(State()), [i])
      ensures State() == CacheAfter(old(State()), [i.Use()])
      ensures pc == old(pc) + if i.opcode == AGLOBL || i.opcode == ADATA then 0 else 1
    {
      hide Settle, EncodeNames, EncodeInstr;
      var sf, st := PlaceBoth(i.from.Ref(), i.to.Ref());
      obuf := obuf + EncodeInstr(i, sf, st);
      if i.opcode != AGLOBL && i.opcode != ADATA {
        pc := pc + 1;
      }
      assert [i][1..] == [];
    }
  }
}
