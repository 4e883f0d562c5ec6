/**
 The ARM object file: the assembler that writes it (5a) and the linker that reads it
 (5l). The writer names a symbol only when its cache has lost it; the reader replays
 the names. The main theorem is the round trip of a whole file.
 */
module ArmObject {
  import opened Wrappers
  import opened Bytes
  import opened SymbolCache

  // Operand kinds.
  const D_NONE := 0
  const D_CONST := 1
  const D_SCONST := 2
  const D_FCONST := 3
  const D_REG := 4
  const D_OREG := 5
  const D_ADDR := 6
  const D_SHIFT := 7
  const D_BRANCH := 8
  const D_FREG := 9
  const D_FPCR := 10
  const D_REGREG := 11
  const D_PSR := 12

  // Symbol kinds.
  const N_NONE := 0
  const N_INTERN := 4

  const NREG := 16
  const NSNAME := 8
  const ALWAYS := 14

  // Opcodes with a meaning of their own here.
  const AXXX := 0
  const ANOP := 1
  const AB := 39
  const ABEQ := 40
  const ABNE := 41
  const ABHS := 42
  const ABLO := 43
  const ABMI := 44
  const ABPL := 45
  const ABVS := 46
  const ABVC := 47
  const ABHI := 48
  const ABLS := 49
  const ABGE := 50
  const ABLT := 51
  const ABGT := 52
  const ABLE := 53
  const AGLOBL := 79
  const ADATA := 80
  const AEND := 82
  const ANAME := 83
  const ASIGNAME := 87
  const ALAST := 89

  /** `char sval[NSNAME]`. */
  type Chars8 = s: seq<byte> | |s| == NSNAME witness [0, 0, 0, 0, 0, 0, 0, 0]

  /** An operand as the parser builds it; `offset`, `lo`/`hi` and `sval` share a union. */
  datatype Gen = Gen(typ: int, reg: int, sym: Option<Name>, symkind: int,
                     offset: int, lo: int, hi: int, sval: Chars8)
  {
    predicate Known() {
      D_NONE <= typ <= D_PSR
    }

    function Ref(): Ref {
      if sym.None? then None else Some((sym.value, symkind))
    }
  }

  datatype Instr = Instr(opcode: int, scond: byte, from: Gen, reg: int, to: Gen, line: int) {
    /** `B.NE` and the like become the conditional branch opcode. */
    function Adjusted(): Instr {
      if opcode == AB then
        this.(opcode := BranchCode(scond % 16), scond := scond - scond % 16 + ALWAYS)
      else this
    }

    /** What the symbol cache sees; adjusting a branch does not change that. */
    function Use(): Use {
      SymbolCache.Use(from.Ref(), to.Ref(), opcode == AEND)
    }

    /** What the opcode table and the register names of the assembler can produce. */
    predicate WellFormed() {
      && AXXX < opcode < ALAST && opcode != ANAME && opcode != ASIGNAME
      && from.Known() && to.Known()
      && Low(reg) <= NREG && Low(from.reg) <= NREG && Low(to.reg) <= NREG
    }
  }

  predicate AllWellFormed(prog: seq<Instr>) {
    forall k :: 0 <= k < |prog| ==> prog[k].WellFormed()
  }

  /** The branch for each condition code. */
  const bcode: seq<int> := [ABEQ, ABNE, ABHS, ABLO, ABMI, ABPL, ABVS, ABVC, ABHI, ABLS, ABGE, ABLT, ABGT, ABLE, AB, ANOP]

  function BranchCode(cond: nat): (op: int)
    requires cond < 16
    ensures op == AB <==> cond == ALWAYS
  {
    bcode[cond]
  }

  /** No condition is lost: an adjusted branch still tells which one it had. */
  lemma AdjustedBranchesDiffer(i: Instr, j: Instr)
    requires i.opcode == AB && j == i.(scond := j.scond)
    ensures i.Adjusted() == j.Adjusted() <==> i == j
  {
  }

  // ----- writing -----

  /** The opcode byte of an ANAME record. */
  const NAMEHEAD: seq<byte> := [ANAME]

  function Payload(g: Gen): seq<byte>
  {
    if g.typ in {D_CONST, D_ADDR, D_OREG, D_BRANCH, D_SHIFT} then EncodeWord(g.offset)
    else if g.typ == D_SCONST then g.sval
    else if g.typ == D_FCONST then EncodeWord(g.lo) + EncodeWord(g.hi)
    else if g.typ == D_REGREG then [Low(g.offset)]
    else []
  }

  function EncodeOpd(g: Gen, idx: nat): seq<byte>
  {
    [Low(g.typ), Low(g.reg), Low(idx), Low(g.symkind)] + Payload(g)
  }

  function EncodeInstr(i: Instr, sf: nat, st: nat): seq<byte>
  {
    [Low(i.opcode), i.scond, Low(i.reg)] + EncodeWord(i.line) + EncodeOpd(i.from, sf) + EncodeOpd(i.to, st)
  }

  /** The bytes of a program assembled from cache state `c`. */
  function Emit(c: Cache, prog: seq<Instr>): seq<byte>
    requires c.Valid()
    decreases prog
  {
    if prog == [] then []
    else
      var i := prog[0].Adjusted();
      var p := Settle(c, i.from.Ref(), i.to.Ref());
      EncodeNames(NAMEHEAD, p.names) + EncodeInstr(i, p.sf, p.st) + Emit(p.cache, prog[1..])
  }

  function Uses(prog: seq<Instr>): (u: seq<Use>)
    ensures |u| == |prog|
  {
    if prog == [] then [] else [prog[0].Use()] + Uses(prog[1..])
  }

  lemma {:induction false} EmitAppend(c: Cache, a: seq<Instr>, i: Instr)
    requires c.Valid()
    ensures Emit(c, a + [i]) == Emit(c, a) + Emit(CacheAfter(c, Uses(a)), [i])
    ensures CacheAfter(c, Uses(a + [i])) == CacheAfter(CacheAfter(c, Uses(a)), [i.Use()])
    decreases a
  {
    hide Settle, EncodeNames, EncodeInstr, Instr.Adjusted;
    if a == [] {
      assert a + [i] == [i] && Uses([i]) == [i.Use()];
    } else {
      EmitCons(c, a[0], a[1..] + [i]);
      EmitCons(c, a[0], a[1..]);
      assert a + [i] == [a[0]] + (a[1..] + [i]) && a == [a[0]] + a[1..];
      var p := Settle(c, a[0].Use().from, a[0].Use().to);
      EmitAppend(p.cache, a[1..], i);
      Assoc(First(c, a[0]), Emit(p.cache, a[1..]), Emit(CacheAfter(c, Uses(a)), [i]));
    }
  }

  /** The bytes of the first instruction, with its names. */
  function First(c: Cache, i: Instr): seq<byte>
    requires c.Valid()
  {
    var p := Settle(c, i.Use().from, i.Use().to);
    EncodeNames(NAMEHEAD, p.names) + EncodeInstr(i.Adjusted(), p.sf, p.st)
  }

  lemma EmitCons(c: Cache, i: Instr, more: seq<Instr>)
    requires c.Valid()
    ensures var p := Settle(c, i.Use().from, i.Use().to);
            && Emit(c, [i] + more) == First(c, i) + Emit(p.cache, more)
            && CacheAfter(c, Uses([i] + more)) == CacheAfter(p.cache, Uses(more))
  {
    hide Settle, EncodeNames, EncodeInstr;
    assert ([i] + more)[1..] == more;
    assert Uses([i] + more)[1..] == Uses(more);
  }

  /** The state of a running assembler. */
  class Assembler {
    const h: array<Slot>
    var symcounter: nat
    var symidx: map<Name, int>
    var obuf: seq<byte>
    var pc: int

    ghost predicate Valid()
      reads this, h
    {
      State().Valid()
    }

    ghost function State(): Cache
      reads this, h
    {
      Cache(h[..], symcounter, symidx)
    }

    /** The second pass starts from a cleared table but keeps every `symidx`. */
    constructor (earlier: map<Name, int>)
      ensures Valid() && State() == Reset(earlier) && obuf == [] && pc == 0 && fresh(h)
    {
      h := new Slot[NSYM](_ => Free);
      symcounter := 1;
      symidx := earlier;
      obuf := [];
      pc := 0;
      new;
      assert h[..] == seq(NSYM, _ => Free);
    }

    method SymIdxOfSymOpt(r: Ref) returns (idx: nat)
      requires Valid()
      modifies this`symcounter, this`symidx, this`obuf, h
      ensures Valid()
      ensures var t := Touch(old(State()), r);
              State() == t.cache && idx == t.idx && obuf == old(obuf) + EncodeNames(NAMEHEAD, t.names)
    {
      idx := 0;
      if r.Some? {
        var (name, kind) := r.value;
        idx := if name in symidx && 0 <= symidx[name] < NSYM then symidx[name] else 0;
        if h[idx] != Slot(name, kind) {
          ghost var a := Announce(name, kind, symcounter);
          symidx := symidx[name := symcounter];
          h[symcounter] := Slot(name, kind);
          idx := symcounter;
          obuf := obuf + [ANAME, Low(kind), Low(symcounter)] + name + [0];
          symcounter := if symcounter + 1 >= NSYM then 1 else symcounter + 1;
          EncodeOneName(NAMEHEAD, a);
        }
      }
    }

    method TryBoth(f: Ref, t: Ref) returns (sf: nat, st: nat)
      requires Valid()
      modifies this`symcounter, this`symidx, this`obuf, h
      ensures Valid()
      ensures var p := Attempt(old(State()), f, t);
              State() == p.cache && sf == p.sf && st == p.st && obuf == old(obuf) + EncodeNames(NAMEHEAD, p.names)
    {
      hide Touch, EncodeNames, SymbolCache.Cache.Valid;
      ghost var a := Touch(State(), f);
      EncodeNamesAppend(NAMEHEAD, a.names, Touch(a.cache, t).names);
      sf := SymIdxOfSymOpt(f);
      st := SymIdxOfSymOpt(t);
    }

    /** The `jackpot:` loop. Its measure is the proof that one retry suffices. */
    method PlaceBoth(f: Ref, t: Ref) returns (sf: nat, st: nat)
      requires Valid()
      modifies this`symcounter, this`symidx, this`obuf, h
      ensures Valid()
      ensures var p := Settle(old(State()), f, t);
              State() == p.cache && sf == p.sf && st == p.st && obuf == old(obuf) + EncodeNames(NAMEHEAD, p.names)
    {
      hide Touch, EncodeNames, Attempt;
      ghost var c0 := State();
      ghost var p := Attempt(c0, f, t);
      ghost var q := Attempt(p.cache, f, t);
      EncodeNamesAppend(NAMEHEAD, p.names, q.names);
      SettleHolds(c0, f, t);
      var oldsymcounter := symcounter;
      sf, st := TryBoth(f, t);
      ghost var retries := 0;
      while sf == st && sf != 0 && symcounter != oldsymcounter
        invariant Valid()
        invariant retries <= 1
        invariant retries == 0 ==> oldsymcounter == c0.counter && State() == p.cache && sf == p.sf && st == p.st
        invariant retries == 0 ==> obuf == old(obuf) + EncodeNames(NAMEHEAD, p.names)
        invariant retries == 1 ==> oldsymcounter == p.cache.counter && State() == q.cache && sf == q.sf && st == q.st
        invariant retries == 1 ==> ArmJackpot(c0, p) && obuf == old(obuf) + EncodeNames(NAMEHEAD, p.names + q.names)
        decreases 1 - retries
      {
        oldsymcounter := symcounter;
        sf, st := TryBoth(f, t);
        retries := retries + 1;
      }
    }

    /** One instruction of the second pass; `ok` is false when the assembler exits. */
    method OutCode(instr: Instr) returns (ok: bool)
      requires Valid()
      modifies this`symcounter, this`symidx, this`obuf, this`pc, h
      ensures Valid()
      ensures ok <==> instr.from.Known() && instr.to.Known()
      ensures ok ==> obuf == old(obuf) + Emit(old(State()), [instr])
      ensures ok ==> State() == CacheAfter(old(State()), [instr.Use()])
      ensures ok ==> pc == old(pc) + if instr.opcode == AGLOBL || instr.opcode == ADATA then 0 else 1
    {
      hide Settle, EncodeNames, EncodeInstr;
      var i := instr.Adjusted();
      var sf, st := PlaceBoth(i.from.Ref(), i.to.Ref());
      if !(i.from.Known() && i.to.Known()) {
        return false;
      }
      obuf := obuf + EncodeInstr(i, sf, st);
      if i.opcode != AGLOBL && i.opcode != ADATA {
        pc := pc + 1;
      }
      ok := true;
      assert [instr][1..] == [];
    }
  }
}
