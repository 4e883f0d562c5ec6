/**
 The line history of an assembly: `linehist` records where files are opened and closed
 in a global line count, and `prfile` replays the record to find, for a global line,
 the open files and a line number for each of them.
 */
module LineHistory {
  import opened Wrappers

  const HISTSZ: nat := 20

  /** `file` is None for a pop; `local` is 0 for an include and positive for a `#line`. */
  datatype Hist = Hist(file: Option<string>, global: int, local: int)

  // ----- replaying -----

  /** The array `a[HISTSZ]` and the depth, which may leave the range of the array. */
  datatype Replay = Replay(a: seq<Hist>, n: int)

  function Later(h: Hist, d: int): Hist {
    Hist(h.file, h.global + d, h.local)
  }

  function Shifted(a: seq<Hist>, n: nat, d: int): (r: seq<Hist>)
    requires n <= |a|
    ensures |r| == |a|
    ensures forall i :: 0 <= i < |a| ==> r[i] == if i < n then Later(a[i], d) else a[i]
  {
    seq(|a|, i requires 0 <= i < |a| => if i < n then Later(a[i], d) else a[i])
  }

  /** One entry of the history. */
  function Apply(r: Replay, h: Hist): (r': Replay)
    requires |r.a| == HISTSZ
    ensures |r'.a| == HISTSZ
  {
    var (a, n) := (r.a, r.n);
    if h.file.Some? && h.local == 0 then
      Replay(if 0 <= n < HISTSZ then a[n := h] else a, n + 1)
    else if h.file.Some? then
      if 0 < n < HISTSZ then
        if a[n - 1].local == 0 then Replay(a[n := h], n + 1) else Replay(a[n - 1 := h], n)
      else r
    else
      Replay(if 0 <= n - 1 < HISTSZ then Shifted(a, n - 1, h.global - a[n - 1].global) else a, n - 1)
  }

  function Nothing(): (r: Replay)
    ensures |r.a| == HISTSZ && r.n == 0
  {
    Replay(seq(HISTSZ, _ => Hist(None, 0, 0)), 0)
  }

  /** The entries up to global line `l`, replayed. */
  function Replayed(hist: seq<Hist>, l: int): (r: Replay)
    ensures |r.a| == HISTSZ
  {
    if hist == [] then Nothing()
    else
      var r := Replayed(hist[..|hist| - 1], l);
      var h := hist[|hist| - 1];
      if l >= h.global then Apply(r, h) else r
  }

  lemma ReplayNothing(hist: seq<Hist>, l: int)
    requires hist == []
    ensures Replayed(hist, l) == Nothing()
  {
  }

  lemma ReplayNext(hist: seq<Hist>, k: nat, l: int)
    requires k < |hist|
    ensures Replayed(hist[..k + 1], l) ==
              if l >= hist[k].global then Apply(Replayed(hist[..k], l), hist[k]) else Replayed(hist[..k], l)
  {
    assert hist[..k + 1][..k] == hist[..k];
  }

  /** The line printed for the open file at depth `i`. */
  function PrintedLine(r: Replay, i: nat, l: int): int
    requires i < |r.a|
  {
    l - r.a[i].global + r.a[i].local + 1
  }

  /** An entry of the list, and the next one. */
  class Entry {
    const h: Hist
    var link: Entry?

    constructor (h: Hist)
      ensures this.h == h && link == null
    {
      this.h := h;
      link := null;
    }
  }

  ghost function Records(nodes: seq<Entry>): (s: seq<Hist>)
    ensures |s| == |nodes| && forall i :: 0 <= i < |nodes| ==> s[i] == nodes[i].h
  {
    seq(|nodes|, i requires 0 <= i < |nodes| => nodes[i].h)
  }

  /** The list from `hist` to `ehist`. */
  class History {
    var hist: Entry?
    var ehist: Entry?
    ghost var nodes: seq<Entry>

    /** Every entry links to the next one, and no entry occurs twice. */
    ghost predicate Valid()
      reads this, nodes
    {
      && (forall i :: 0 <= i < |nodes| ==> nodes[i].link == At(i + 1))
      && (forall i, j :: 0 <= i < j < |nodes| ==> nodes[i] != nodes[j])
      && hist == At(0) && ehist == At(|nodes| - 1)
    }

    ghost function At(i: int): Entry?
      reads this`nodes
    {
      if 0 <= i < |nodes| then nodes[i] else null
    }

    /** What has been recorded, oldest first. */
    ghost function Contents(): seq<Hist>
      reads this`nodes
    {
      Records(nodes)
    }

    lemma Linked(k: nat)
      requires Valid() && k < |nodes|
      ensures At(k) == nodes[k] && nodes[k].link == At(k + 1) && Contents()[k] == nodes[k].h
    {
    }

    lemma Ends()
      requires Valid()
      ensures hist == At(0) && |Contents()| == |nodes|
    {
    }

    constructor ()
      ensures Valid() && Contents() == [] && nodes == []
    {
      hist, ehist := null, null;
      nodes := [];
    }

    method LineHist(file: Option<string>, lineno: int, local: int)
      requires Valid()
      modifies this, ehist
      ensures Valid() && Contents() == old(Contents()) + [Hist(file, lineno, local)]
      ensures fresh(set n | n in nodes && n !in old(nodes))
    {
      var h := new Entry(Hist(file, lineno, local));
      ghost var before := nodes;
      assert h !in nodes;
      nodes := nodes + [h];
      assert Records(nodes) == Records(before) + [h.h];
      if ehist == null {
        assert before == [];
        hist := h;
        ehist := h;
        return;
      }
      ehist.link := h;
      ehist := h;
      assert forall i :: 0 <= i < |before| ==> nodes[i] == before[i];
    }

    /** The files and lines that `prfile` prints, outermost first. */
    method PrFile(l: int) returns (printed: seq<(Option<string>, int)>)
      requires Valid()
      ensures var r := Replayed(Contents(), l);
              && |printed| == (if r.n < 0 then 0 else if r.n > HISTSZ then HISTSZ else r.n)
              && forall i :: 0 <= i < |printed| ==> printed[i] == (r.a[i].file, PrintedLine(r, i, l))
    {
      hide Apply, Replayed, Valid;
      var a := new Hist[HISTSZ](_ => Hist(None, 0, 0));
      var n := 0;
      var h := hist;
      ghost var k := 0;
      ghost var all := Contents();
      ReplayNothing(all[..0], l);
      assert a[..] == Nothing().a;
      Ends();
      while h != null
        invariant 0 <= k <= |nodes| && h == At(k) && Valid()
        invariant Replayed(all[..k], l) == Replay(a[..], n)
        decreases |nodes| - k
      {
        Linked(k);
        ReplayNext(all, k, l);
        if l >= h.h.global {
          n := ApplyEntry(a, n, h.h);
        }
        h := h.link;
        k := k + 1;
      }
      assert all[..|all|] == all;
      if n > HISTSZ {
        n := HISTSZ;
      }
      printed := PrintOpen(a, n, l);
    }
  }

  /** The body of the replay loop. */
  method ApplyEntry(a: array<Hist>, n: int, h: Hist) returns (n': int)
    requires a.Length == HISTSZ
    modifies a
    ensures Replay(a[..], n') == Apply(old(Replay(a[..], n)), h)
  {
    n' := n;
    if h.file.Some? {
      if h.local == 0 {
        if 0 <= n < HISTSZ {
          a[n] := h;
        }
        n' := n + 1;
      } else if 0 < n < HISTSZ {
        if a[n - 1].local == 0 {
          a[n] := h;
          n' := n + 1;
        } else {
          a[n - 1] := h;
        }
      }
    } else {
      n' := n - 1;
      if 0 <= n' < HISTSZ {
        AddToParents(a, n', h.global - a[n'].global);
      }
    }
  }

  method PrintOpen(a: array<Hist>, n: int, l: int) returns (printed: seq<(Option<string>, int)>)
    requires n <= a.Length
    ensures |printed| == if n < 0 then 0 else n
    ensures forall i :: 0 <= i < |printed| ==> printed[i] == (a[i].file, l - a[i].global + a[i].local + 1)
  {
    printed := [];
    var i := 0;
    while i < n
      invariant 0 <= i && (i <= n || n < 0) && |printed| == i
      invariant n < 0 ==> i == 0
      invariant forall j :: 0 <= j < i ==> printed[j] == (a[j].file, l - a[j].global + a[j].local + 1)
    {
      printed := printed + [(a[i].file, l - a[i].global + a[i].local + 1)];
      i := i + 1;
    }
  }

  method AddToParents(a: array<Hist>, n: nat, d: int)
    requires n <= a.Length
    modifies a
    ensures a[..] == Shifted(old(a[..]), n, d)
  {
    for i := 0 to n
      invariant forall j :: 0 <= j < a.Length ==>
                  a[j] == if j < i then Later(old(a[j]), d) else old(a[j])
    {
      a[i] := Later(a[i], d);
    }
  }

  // ----- what was read -----

  datatype Event = Newline | Open(file: string) | Close

  /**
   A run of the assembler: the global line, the history so far, the open files and the
   newlines each of them has itself consumed, outermost first, and `deep`, those of files
   that were opened and closed beyond the depth that `prfile` can hold.
   */
  datatype Run = Run(lineno: int, hist: seq<Hist>, files: seq<string>, own: seq<nat>, deep: nat) {
    predicate Valid() {
      |files| == |own|
    }
  }

  function Step(run: Run, e: Event): (r: Run)
    requires run.Valid() && (e.Open? || run.own != [])
    ensures r.Valid()
  {
    var top := |run.own| - 1;
    match e
    case Newline => run.(lineno := run.lineno + 1, own := run.own[top := run.own[top] + 1])
    case Open(file) => run.(hist := run.hist + [Hist(Some(file), run.lineno, 0)], files := run.files + [file], own := run.own + [0])
    case Close =>
      run.(hist := run.hist + [Hist(None, run.lineno, 0)], files := run.files[..top], own := run.own[..top],
           deep := if top >= HISTSZ then run.deep + run.own[top] else 0)
  }

  /** Files are closed only when open, and newlines are read only from an open file. */
  predicate WellBracketed(run: Run, events: seq<Event>)
    requires run.Valid()
    decreases events
  {
    events == [] || ((events[0].Open? || run.own != []) && WellBracketed(Step(run, events[0]), events[1..]))
  }

  function RunAll(run: Run, events: seq<Event>): (r: Run)
    requires run.Valid() && WellBracketed(run, events)
    ensures r.Valid()
    decreases events
  {
    if events == [] then run else RunAll(Step(run, events[0]), events[1..])
  }

  const START := Run(1, [], [], [], 0)

  /** The newlines read from the open files at depth `i` and below. */
  function SumFrom(own: seq<nat>, i: nat): nat
    decreases |own| - i
  {
    if i >= |own| then 0 else own[i] + SumFrom(own, i + 1)
  }

  /** What the replay of the history knows at every moment of a run. */
  ghost predicate Tracks(run: Run) {
    && (forall k :: 0 <= k < |run.hist| ==> run.hist[k].global <= run.lineno)
    && run.Valid() && (run.deep > 0 ==> |run.own| >= HISTSZ)
    && Matches(run, Replayed(run.hist, run.lineno))
  }

  ghost predicate Matches(run: Run, r: Replay)
    requires run.Valid() && |r.a| == HISTSZ
  {
    && r.n == |run.own|
    && forall i :: 0 <= i < |run.own| && i < HISTSZ ==>
         && r.a[i].file == Some(run.files[i]) && r.a[i].local == 0
         && run.lineno - r.a[i].global == SumFrom(run.own, i) + run.deep
  }

  lemma {:induction false} SumAppend(own: seq<nat>, x: nat, i: nat)
    requires i <= |own|
    ensures SumFrom(own + [x], i) == SumFrom(own, i) + x
    decreases |own| - i
  {
    if i < |own| {
      SumAppend(own, x, i + 1);
    } else {
      assert SumFrom(own + [x], i + 1) == 0;
    }
  }

  /** Once a line has passed all entries, later lines replay the same. */
  lemma {:induction false} ReplaySettled(hist: seq<Hist>, l: int, l': int)
    requires l <= l' && forall k :: 0 <= k < |hist| ==> hist[k].global <= l
    ensures Replayed(hist, l) == Replayed(hist, l')
  {
    if hist != [] {
      ReplaySettled(hist[..|hist| - 1], l, l');
    }
  }

  lemma ReplayOneMore(hist: seq<Hist>, h: Hist, l: int)
    requires l >= h.global
    ensures Replayed(hist + [h], l) == Apply(Replayed(hist, l), h)
  {
    assert (hist + [h])[..|hist|] == hist;
  }

  lemma TracksNewline(run: Run)
    requires Tracks(run) && run.own != []
    ensures Tracks(Step(run, Newline))
  {
    hide Apply, Replayed, SumFrom;
    var run' := Step(run, Newline);
    ReplaySettled(run.hist, run.lineno, run'.lineno);
    var rest := run.own[..|run.own| - 1];
    var x := run.own[|run.own| - 1];
    assert run.own == rest + [x] && run'.own == rest + [x + 1];
    forall i | 0 <= i < |run.own|
      ensures SumFrom(run'.own, i) == SumFrom(run.own, i) + 1
    {
      SumAppend(rest, x, i);
      SumAppend(rest, x + 1, i);
    }
  }

  lemma TracksOpen(run: Run, file: string)
    requires Tracks(run)
    ensures Tracks(Step(run, Open(file)))
  {
    hide Replayed, SumFrom;
    var run' := Step(run, Open(file));
    ReplayOneMore(run.hist, Hist(Some(file), run.lineno, 0), run.lineno);
    forall i | 0 <= i <= |run.own|
      ensures SumFrom(run'.own, i) == if i < |run.own| then SumFrom(run.own, i) else 0
    {
      SumAppend(run.own, 0, i);
      NothingBeyond(run.own, i);
    }
  }

  lemma NothingBeyond(own: seq<nat>, i: nat)
    ensures i >= |own| ==> SumFrom(own, i) == 0
    ensures i + 1 == |own| ==> SumFrom(own, i) == own[i]
  {
  }

  lemma TracksClose(run: Run)
    requires Tracks(run) && run.own != []
    ensures Tracks(Step(run, Close))
  {
    hide Replayed, SumFrom;
    var run' := Step(run, Close);
    var n := |run.own| - 1;
    ReplayOneMore(run.hist, Hist(None, run.lineno, 0), run.lineno);
    assert run.own == run'.own + [run.own[n]];
    NothingBeyond(run.own, n);
    forall i | 0 <= i < n
      ensures SumFrom(run.own, i) == SumFrom(run'.own, i) + run.own[n]
    {
      SumAppend(run'.own, run.own[n], i);
    }
  }

  lemma {:induction false} TracksAll(run: Run, events: seq<Event>)
    requires run.Valid() && Tracks(run) && WellBracketed(run, events)
    ensures Tracks(RunAll(run, events))
    decreases events
  {
    hide Tracks;
    if events != [] {
      match events[0] {
        case Newline => TracksNewline(run);
        case Open(file) => TracksOpen(run, file);
        case Close => TracksClose(run);
      }
      TracksAll(Step(run, events[0]), events[1..]);
    }
  }

  /** The run when line `l` ended, or all of it if that line has not ended yet. */
  function UpTo(run: Run, events: seq<Event>, l: int): (r: Run)
    requires run.Valid() && WellBracketed(run, events)
    ensures r.Valid()
    decreases events
  {
    if events == [] || (events[0].Newline? && run.lineno == l) then run
    else UpTo(Step(run, events[0]), events[1..], l)
  }

  /** At its last line, a run is what it is. */
  lemma {:induction false} UpToNow(run: Run, events: seq<Event>)
    requires run.Valid() && WellBracketed(run, events)
    ensures run.lineno <= RunAll(run, events).lineno
    ensures UpTo(run, events, RunAll(run, events).lineno) == RunAll(run, events)
    decreases events
  {
    if events != [] {
      UpToNow(Step(run, events[0]), events[1..]);
    }
  }

  /** Entries made after a line has ended are not replayed for it. */
  lemma {:induction false} LaterIgnored(run: Run, events: seq<Event>, l: int)
    requires run.Valid() && WellBracketed(run, events) && l < run.lineno
    ensures Replayed(RunAll(run, events).hist, l) == Replayed(run.hist, l)
    decreases events
  {
    hide Apply;
    if events != [] {
      var next := Step(run, events[0]);
      LaterIgnored(next, events[1..], l);
      if !events[0].Newline? {
        assert next.hist[..|run.hist|] == run.hist;
      }
    }
  }

  /** Replaying the whole history for a line is replaying what there was when it ended. */
  lemma {:induction false} UpToReplays(run: Run, events: seq<Event>, l: int)
    requires run.Valid() && Tracks(run) && WellBracketed(run, events) && run.lineno <= l <= RunAll(run, events).lineno
    ensures var at := UpTo(run, events, l);
            at.lineno == l && Tracks(at) && Replayed(RunAll(run, events).hist, l) == Replayed(at.hist, l)
    decreases events
  {
    hide Tracks, Replayed;
    if events != [] {
      var next := Step(run, events[0]);
      if events[0].Newline? && run.lineno == l {
        LaterIgnored(next, events[1..], l);
      } else {
        match events[0] {
          case Newline => TracksNewline(run);
          case Open(file) => TracksOpen(run, file);
          case Close => TracksClose(run);
        }
        UpToReplays(next, events[1..], l);
      }
    }
  }

  /**
   For every line of every well-bracketed run, the file printed at depth `i` is the one that was
   open there when that line ended, and the line printed for it is one plus the newlines then read from that file and from the files
   open inside it, plus those of files too deep for the array.
   */
  lemma PrintedLines(events: seq<Event>, l: int, i: nat)
    requires WellBracketed(START, events) && START.lineno <= l <= RunAll(START, events).lineno
    requires i < |UpTo(START, events, l).own| && i < HISTSZ
    ensures var (run, at) := (RunAll(START, events), UpTo(START, events, l));
            && Replayed(run.hist, l).n == |at.own| && Replayed(run.hist, l).a[i].file == Some(at.files[i])
            && PrintedLine(Replayed(run.hist, l), i, l) == 1 + SumFrom(at.own, i) + at.deep
  {
    UpToReplays(START, events, l);
  }

  /**
   The innermost file, if it is within the array, gets its own line if and only if no file was
   opened and closed beyond the array while it was open; so it always does below depth HISTSZ.
   An outer file gets its own line if and only if, besides, the files open inside it had read
   no newline.
   */
  lemma OwnLineIff(events: seq<Event>, l: int, i: nat)
    requires WellBracketed(START, events) && START.lineno <= l <= RunAll(START, events).lineno
    requires i < |UpTo(START, events, l).own| && i < HISTSZ
    ensures var (run, at) := (RunAll(START, events), UpTo(START, events, l));
            var line := PrintedLine(Replayed(run.hist, l), i, l);
            && (line == 1 + at.own[i] <==> at.deep == 0 && SumFrom(at.own, i + 1) == 0)
            && (|at.own| < HISTSZ ==> at.deep == 0)
            && (|at.own| == i + 1 < HISTSZ ==> line == 1 + at.own[i])
  {
    UpToReplays(START, events, l);
    PrintedLines(events, l, i);
  }

  /**
   A `#line` entry: the file and the line it names are printed for the innermost place, next to the
   file that contains it, and a later one takes its place.
   */
  lemma LineDirective(hist: seq<Hist>, file: string, at: int, local: int, l: int)
    requires local != 0 && at <= l && 0 < Replayed(hist, l).n < HISTSZ
    ensures var (was, r) := (Replayed(hist, l), Replayed(hist + [Hist(Some(file), at, local)], l));
            var k := if was.a[was.n - 1].local == 0 then was.n else was.n - 1;
            && r.n == k + 1 && r.a[k].file == Some(file) && PrintedLine(r, k, l) == local + 1 + (l - at)
            && forall i :: 0 <= i < HISTSZ && i != k ==> r.a[i] == was.a[i]
  {
    ReplayOneMore(hist, Hist(Some(file), at, local), l);
  }
}
