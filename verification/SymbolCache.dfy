/**
 The circular table `h[NSYM]` that the assemblers keep while they write an object
 file, and the table that a linker rebuilds from the ANAME records alone.
 Symbols are interned by name, so a symbol is identified by its name here, and the
 `symidx` field of every `Sym` is one entry of a map (absent means 0).
 */
module SymbolCache {
  import opened Wrappers
  import opened Bytes

  const NSYM: nat := 50

  datatype Slot = Free | Slot(name: Name, kind: int)

  /** The symbol an operand mentions, if any. */
  type Ref = Option<(Name, int)>

  datatype Cache = Cache(h: seq<Slot>, counter: nat, symidx: map<Name, int>) {
    predicate Valid() {
      && |h| == NSYM
      && 1 <= counter < NSYM
      && h[0].Free?
    }

    /** `sym->symidx`, forced to 0 when it is not an index of the table. */
    function Hint(name: Name): (i: nat)
      ensures i < NSYM
    {
      var i := if name in symidx then symidx[name] else 0;
      if i < 0 || i >= NSYM then 0 else i
    }

    predicate Hit(name: Name, kind: int)
      requires Valid()
    {
      h[Hint(name)] == Slot(name, kind)
    }

    function Next(): nat {
      if counter + 1 >= NSYM then 1 else counter + 1
    }
  }

  /** What `pinit` leaves behind; `symidx` keeps whatever an earlier pass stored. */
  function Reset(symidx: map<Name, int>): (c: Cache)
    ensures c.Valid()
  {
    Cache(seq(NSYM, _ => Free), 1, symidx)
  }

  /** An ANAME record: slot `idx` now stands for `name` of kind `kind`. */
  datatype Announce = Announce(name: Name, kind: int, idx: nat)

  /** An ANAME record: `head` is the opcode as the machine writes it. */
  function EncodeName(head: seq<byte>, a: Announce): seq<byte> {
    head + [Low(a.kind), Low(a.idx)] + a.name + [0]
  }

  function EncodeNames(head: seq<byte>, names: seq<Announce>): seq<byte> {
    if names == [] then [] else EncodeName(head, names[0]) + EncodeNames(head, names[1..])
  }

  lemma {:induction false} EncodeNamesAppend(head: seq<byte>, a: seq<Announce>, b: seq<Announce>)
    ensures EncodeNames(head, a + b) == EncodeNames(head, a) + EncodeNames(head, b)
  {
    hide EncodeName;
    if a == [] {
      assert a + b == b;
    } else {
      assert (a + b)[1..] == a[1..] + b;
      EncodeNamesAppend(head, a[1..], b);
      Assoc(EncodeName(head, a[0]), EncodeNames(head, a[1..]), EncodeNames(head, b));
    }
  }

  lemma EncodeOneName(head: seq<byte>, a: Announce)
    ensures EncodeNames(head, [a]) == head + [Low(a.kind), Low(a.idx)] + a.name + [0]
  {
    assert [a][1..] == [];
  }

  datatype Touched = Touched(cache: Cache, idx: nat, names: seq<Announce>)

  /** One symbol reference (`symidx_of_symopt`, or one `while(s != S)` block of 8a). */
  function Touch(c: Cache, r: Ref): (t: Touched)
    requires c.Valid()
    ensures t.cache.Valid() && t.idx < NSYM
  {
    if r.None? then Touched(c, 0, [])
    else
      var (name, kind) := r.value;
      if c.Hit(name, kind) then Touched(c, c.Hint(name), [])
      else
        Touched(Cache(c.h[c.counter := Slot(name, kind)], c.Next(), c.symidx[name := c.counter]),
                c.counter, [Announce(name, kind, c.counter)])
  }

  datatype Placement = Placement(cache: Cache, sf: nat, st: nat, names: seq<Announce>)

  /** Both operands, without any retry. */
  function Attempt(c: Cache, f: Ref, t: Ref): (p: Placement)
    requires c.Valid()
    ensures p.cache.Valid() && p.sf < NSYM && p.st < NSYM
  {
    var a := Touch(c, f);
    var b := Touch(a.cache, t);
    Placement(b.cache, a.idx, b.idx, a.names + b.names)
  }

  /** The ARM assembler's retry test: equal indices while the counter moved. */
  predicate ArmJackpot(c: Cache, p: Placement) {
    p.sf == p.st && p.sf != 0 && p.cache.counter != c.counter
  }

  /** The x86 assembler's retry test: the second operand took the first one's slot. */
  predicate X86Jackpot(c: Cache, f: Ref, t: Ref)
    requires c.Valid()
  {
    var a := Touch(c, f);
    var b := Touch(a.cache, t);
    b.names != [] && b.idx == a.idx
  }

  /** Both operands after at most one retry. */
  function Settle(c: Cache, f: Ref, t: Ref): (p: Placement)
    requires c.Valid()
    ensures p.cache.Valid() && p.sf < NSYM && p.st < NSYM
  {
    var p := Attempt(c, f, t);
    if ArmJackpot(c, p) then
      var q := Attempt(p.cache, f, t);
      q.(names := p.names + q.names)
    else p
  }

  /** The slot that a reference settles on holds that reference. */
  ghost predicate Holds(c: Cache, r: Ref, idx: nat) {
    && idx < |c.h|
    && (if r.None? then idx == 0 else idx != 0 && c.h[idx] == Slot(r.value.0, r.value.1))
  }

  /**
   Jackpot correctness: whatever the cache holds and however often it has wrapped,
   both operands hold their slots at the same time, and two operands share an index
   exactly when they mention the same symbol with the same kind (or none at all).
   A retry never has to be retried.
   */
  lemma SettleHolds(c: Cache, f: Ref, t: Ref)
    requires c.Valid()
    ensures var p := Settle(c, f, t);
            Holds(p.cache, f, p.sf) && Holds(p.cache, t, p.st) && (p.sf == p.st <==> f == t)
    ensures var p := Attempt(c, f, t);
            ArmJackpot(c, p) ==> !ArmJackpot(p.cache, Attempt(p.cache, f, t))
  {
    var p := Settle(c, f, t);
    if p.sf == p.st && f.Some? {
      assert f == Some((f.value.0, f.value.1)) && t == Some((t.value.0, t.value.1));
    }
  }

  /** The two retry tests differ, but both assemblers end in the same state. */
  lemma RetryTestsAgree(c: Cache, f: Ref, t: Ref)
    requires c.Valid()
    ensures X86Jackpot(c, f, t) ==> ArmJackpot(c, Attempt(c, f, t))
    ensures !X86Jackpot(c, f, t) ==> Settle(c, f, t) == Attempt(c, f, t)
  {
  }

  // ----- the linker's side -----

  /** A linker symbol: private symbols are told apart by the object's version. */
  datatype LinkSym = LinkSym(name: Name, version: nat)

  /** The linker's own `Sym *h[NSYM]`. */
  type Table = seq<Option<LinkSym>>

  /** How one linker interprets an ANAME: which kind byte is private to the object. */
  datatype Reader = Reader(privateKind: byte, version: nat) {
    function Resolve(name: Name, kind: int): LinkSym {
      LinkSym(name, if Low(kind) == privateKind then version else 0)
    }

    function Enter(tab: Table, a: Announce): Table
      requires a.idx < |tab|
    {
      tab[a.idx := Some(Resolve(a.name, a.kind))]
    }

    function Replay(tab: Table, names: seq<Announce>): (r: Table)
      requires forall a :: a in names ==> a.idx < |tab|
      ensures |r| == |tab|
      decreases names
    {
      if names == [] then tab else Replay(Enter(tab, names[0]), names[1..])
    }

    /** The symbol the program means by `r`. */
    function Meant(r: Ref): Option<LinkSym> {
      if r.None? then None else Some(Resolve(r.value.0, r.value.1))
    }
  }

  function EmptyTable(): (tab: Table)
    ensures |tab| == NSYM
  {
    seq(NSYM, _ => None)
  }

  /** Slots announced so far among `names`. */
  function Announced(names: seq<Announce>): set<nat> {
    set a | a in names :: a.idx
  }

  /**
   Writer and reader agree: a slot announced since the last END means the same
   symbol on both sides; a slot the writer still remembers from before is empty
   in the reader.
   */
  ghost predicate Agrees(c: Cache, live: set<nat>, rd: Reader, tab: Table) {
    && c.Valid()
    && |tab| == NSYM && tab[0] == None
    && (forall i :: i in live ==> i < NSYM && c.h[i].Slot?)
    && (forall i :: 0 <= i < NSYM && c.h[i].Slot? ==>
          tab[i] == if i in live then Some(rd.Resolve(c.h[i].name, c.h[i].kind)) else None)
  }

  lemma TouchAgrees(c: Cache, live: set<nat>, rd: Reader, tab: Table, r: Ref)
    requires Agrees(c, live, rd, tab)
    ensures var t := Touch(c, r);
            && (forall a :: a in t.names ==> a.idx < NSYM)
            && Agrees(t.cache, live + Announced(t.names), rd, rd.Replay(tab, t.names))
  {
    var t := Touch(c, r);
    if t.names != [] {
      var a := t.names[0];
      assert t.names[1..] == [];
      assert rd.Replay(tab, t.names) == rd.Enter(tab, a);
      assert Announced(t.names) == {a.idx};
    }
  }

  lemma {:induction false} ReplayAppend(rd: Reader, tab: Table, a: seq<Announce>, b: seq<Announce>)
    requires forall x :: x in a || x in b ==> x.idx < |tab|
    ensures rd.Replay(tab, a + b) == rd.Replay(rd.Replay(tab, a), b)
    decreases a
  {
    if a == [] {
      assert a + b == b;
    } else {
      assert (a + b)[1..] == a[1..] + b;
      ReplayAppend(rd, rd.Enter(tab, a[0]), a[1..], b);
    }
  }

  lemma AttemptAgrees(c: Cache, live: set<nat>, rd: Reader, tab: Table, f: Ref, t: Ref)
    requires Agrees(c, live, rd, tab)
    ensures var p := Attempt(c, f, t);
            && (forall a :: a in p.names ==> a.idx < NSYM)
            && Agrees(p.cache, live + Announced(p.names), rd, rd.Replay(tab, p.names))
  {
    var a := Touch(c, f);
    var b := Touch(a.cache, t);
    TouchAgrees(c, live, rd, tab, f);
    TouchAgrees(a.cache, live + Announced(a.names), rd, rd.Replay(tab, a.names), t);
    ReplayAppend(rd, tab, a.names, b.names);
    assert live + Announced(a.names) + Announced(b.names) == live + Announced(a.names + b.names);
  }

  /** The symbols are the ones announced since the last END. */
  predicate NotStale(p: Placement, live: set<nat>, f: Ref, t: Ref) {
    && (f.Some? ==> p.sf in live + Announced(p.names))
    && (t.Some? ==> p.st in live + Announced(p.names))
  }

  lemma SettleAgrees(c: Cache, live: set<nat>, rd: Reader, tab: Table, f: Ref, t: Ref)
    requires Agrees(c, live, rd, tab)
    ensures var p := Settle(c, f, t);
            && (forall a :: a in p.names ==> a.idx < NSYM)
            && Agrees(p.cache, live + Announced(p.names), rd, rd.Replay(tab, p.names))
  {
    hide Attempt, Reader.Replay;
    var p := Attempt(c, f, t);
    AttemptAgrees(c, live, rd, tab, f, t);
    if ArmJackpot(c, p) {
      var q := Attempt(p.cache, f, t);
      AttemptAgrees(p.cache, live + Announced(p.names), rd, rd.Replay(tab, p.names), f, t);
      ReplayAppend(rd, tab, p.names, q.names);
      assert live + Announced(p.names) + Announced(q.names) == live + Announced(p.names + q.names);
    }
  }

  /** A held slot resolves to the meant symbol if and only if it is live. */
  lemma ResolvedIffLive(c: Cache, live: set<nat>, rd: Reader, tab: Table, r: Ref, idx: nat)
    requires Agrees(c, live, rd, tab) && Holds(c, r, idx)
    ensures tab[idx] == rd.Meant(r) <==> (r.Some? ==> idx in live)
    ensures tab[idx] == if r.Some? && idx in live then rd.Meant(r) else None
  {
  }

  /**
   One instruction: replaying its ANAME records keeps writer and reader in agreement,
   and the reader resolves both operands to the symbols the program means if and only
   if neither operand hits a slot announced before the last END.
   */
  lemma SettleResolves(c: Cache, live: set<nat>, rd: Reader, tab: Table, f: Ref, t: Ref)
    requires Agrees(c, live, rd, tab)
    ensures var p := Settle(c, f, t);
            && (forall a :: a in p.names ==> a.idx < NSYM)
            && var tab' := rd.Replay(tab, p.names);
            && Agrees(p.cache, live + Announced(p.names), rd, tab')
            && ((tab'[p.sf] == rd.Meant(f) && tab'[p.st] == rd.Meant(t)) <==> NotStale(p, live, f, t))
  {
    SettleAgrees(c, live, rd, tab, f, t);
    SettleHolds(c, f, t);
    var p := Settle(c, f, t);
    ResolvedIffLive(p.cache, live + Announced(p.names), rd, rd.Replay(tab, p.names), f, p.sf);
    ResolvedIffLive(p.cache, live + Announced(p.names), rd, rd.Replay(tab, p.names), t, p.st);
  }

  // ----- whole programs -----

  /** What the cache sees of an instruction: its two references, and whether it is an END. */
  datatype Use = Use(from: Ref, to: Ref, end: bool)

  /** The cache after a program. */
  function CacheAfter(c: Cache, uses: seq<Use>): (r: Cache)
    requires c.Valid()
    ensures r.Valid()
    decreases uses
  {
    if uses == [] then c else CacheAfter(Settle(c, uses[0].from, uses[0].to).cache, uses[1..])
  }

  /** No operand hits a slot announced before the last END. */
  predicate StaleFree(c: Cache, live: set<nat>, uses: seq<Use>)
    requires c.Valid()
    decreases uses
  {
    uses == [] ||
    var u := uses[0];
    var p := Settle(c, u.from, u.to);
    && NotStale(p, live, u.from, u.to)
    && StaleFree(p.cache, if u.end then {} else live + Announced(p.names), uses[1..])
  }

  /** Every slot in use was announced since the last END. */
  ghost predicate AllFresh(c: Cache, live: set<nat>) {
    |c.h| == NSYM && forall i :: 0 <= i < NSYM && c.h[i].Slot? ==> i in live
  }

  lemma FreshStep(c: Cache, live: set<nat>, f: Ref, t: Ref)
    requires c.Valid() && AllFresh(c, live)
    ensures var p := Settle(c, f, t);
            NotStale(p, live, f, t) && AllFresh(p.cache, live + Announced(p.names))
  {
    hide Settle, Announced;
    var p := Settle(c, f, t);
    SlotsAreAnnounced(c, f, t);
    SettleHolds(c, f, t);
    assert f.Some? ==> p.cache.h[p.sf].Slot?;
    assert t.Some? ==> p.cache.h[p.st].Slot?;
  }

  /** With END only at the end, as the assemblers write it, nothing is ever stale. */
  lemma {:induction false} EndLastIsStaleFree(c: Cache, live: set<nat>, uses: seq<Use>)
    requires c.Valid() && AllFresh(c, live)
    requires forall k :: 0 <= k < |uses| - 1 ==> !uses[k].end
    ensures StaleFree(c, live, uses)
    decreases uses
  {
    hide Settle, AllFresh, NotStale;
    if uses != [] {
      var u := uses[0];
      var p := Settle(c, u.from, u.to);
      FreshStep(c, live, u.from, u.to);
      assert forall k :: 0 <= k < |uses[1..]| ==> uses[1..][k] == uses[k + 1];
      if |uses| > 1 {
        EndLastIsStaleFree(p.cache, live + Announced(p.names), uses[1..]);
      }
    }
  }

  lemma TouchAnnounces(c: Cache, r: Ref)
    requires c.Valid()
    ensures var t := Touch(c, r);
            forall i :: 0 <= i < NSYM && t.cache.h[i].Slot? ==> c.h[i].Slot? || i in Announced(t.names)
  {
    var t := Touch(c, r);
    if t.names != [] {
      assert t.names[0] in t.names;
    }
  }

  lemma AttemptAnnounces(c: Cache, f: Ref, t: Ref)
    requires c.Valid()
    ensures var p := Attempt(c, f, t);
            forall i :: 0 <= i < NSYM && p.cache.h[i].Slot? ==> c.h[i].Slot? || i in Announced(p.names)
  {
    hide Touch;
    TouchAnnounces(c, f);
    TouchAnnounces(Touch(c, f).cache, t);
  }

  lemma SlotsAreAnnounced(c: Cache, f: Ref, t: Ref)
    requires c.Valid()
    ensures var p := Settle(c, f, t);
            forall i :: 0 <= i < NSYM && p.cache.h[i].Slot? ==> c.h[i].Slot? || i in Announced(p.names)
  {
    hide Touch, Attempt;
    var p := Attempt(c, f, t);
    AttemptAnnounces(c, f, t);
    if ArmJackpot(c, p) {
      AttemptAnnounces(p.cache, f, t);
    }
  }

  /** What a linker makes of a file. */
  datatype Loaded<P> = Bad | Ok(progs: seq<P>) {
    function After(p: P): Loaded<P> {
      if Bad? then Bad else Ok([p] + progs)
    }
  }
}
