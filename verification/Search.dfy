/**
 The browser's text search: a window of the text is loaded into a fixed buffer,
 scanned for the first rune of the pattern and reloaded where it runs out; the search
 starts at the end of the selection and wraps around once.
 */
module Search {

  /** Runes are not NUL; NUL ends the buffer. */
  type Rune = r: int | r != 0 witness 1

  const RBUFSIZE: nat := 2048

  ghost predicate Occurs(text: seq<Rune>, pat: seq<Rune>, i: int) {
    0 <= i && i + |pat| <= |text| && text[i..i + |pat|] == pat
  }

  ghost predicate Absent(text: seq<Rune>, pat: seq<Rune>, from: int, to: int) {
    forall i :: from <= i < to ==> !Occurs(text, pat, i)
  }

  /** `i` is the first occurrence in the order `start`, ..., end, 0, ..., `start`. */
  ghost predicate FirstFrom(text: seq<Rune>, pat: seq<Rune>, start: int, i: int) {
    && Occurs(text, pat, i)
    && (if start <= i then Absent(text, pat, start, i)
        else Absent(text, pat, start, |text|) && Absent(text, pat, 0, i))
  }

  // ----- one round of the loop, on the window rather than its buffer -----

  /** Position, length of the window loaded there, and whether the search has wrapped. */
  datatype State = State(q: nat, nb: nat, around: bool)

  datatype Round = Again(state: State) | Found(q: nat) | NotFound

  /** Where `c` first occurs in `s`, or `|s|`. */
  function IndexOf(s: seq<Rune>, c: Rune): (i: nat)
    ensures i <= |s| && (i < |s| ==> s[i] == c) && forall k :: 0 <= k < i ==> s[k] != c
  {
    if s == [] || s[0] == c then 0 else 1 + IndexOf(s[1..], c)
  }

  function Min(a: int, b: int): int {
    if a < b then a else b
  }

  predicate Window(text: seq<Rune>, st: State) {
    st.q + st.nb <= |text| && st.nb < RBUFSIZE
  }

  /** The state after the wrap test at the top of a round. */
  function Wrapped(text: seq<Rune>, st: State): State {
    if st.q >= |text| then State(0, 0, true) else st
  }

  /** From the reload test to the end of a round. */
  function Compare(text: seq<Rune>, pat: seq<Rune>, q1: nat, st: State): Round
    requires text != [] && st.q < |text|
  {
    var rest := |text| - st.q;
    var nb := if st.nb < |pat| && st.nb != rest then Min(rest, RBUFSIZE - 1) else st.nb;
    if st.q + |pat| <= |text| && |pat| <= nb && text[st.q..st.q + |pat|] == pat then Found(st.q)
    else if st.around && st.q >= q1 then NotFound
    else Again(State(st.q + 1, if nb == 0 then 0 else nb - 1, st.around))
  }

  function OneRound(text: seq<Rune>, pat: seq<Rune>, q1: nat, st: State): Round
    requires text != [] && pat != [] && Window(text, st)
  {
    var w := Wrapped(text, st);
    if w.nb == 0 then Compare(text, pat, q1, w)
    else
      var i := IndexOf(text[w.q..w.q + w.nb], pat[0]);
      if i == w.nb then
        if w.around && w.q + w.nb >= q1 then NotFound else Again(State(w.q + w.nb, 0, w.around))
      else Compare(text, pat, q1, State(w.q + i, w.nb - i, w.around))
  }

  // ----- what a round keeps -----

  /** No occurrence has been passed over. */
  ghost predicate Clear(text: seq<Rune>, pat: seq<Rune>, q1: nat, st: State) {
    && Window(text, st)
    && (if st.around then Absent(text, pat, q1, |text|) && Absent(text, pat, 0, st.q)
        else q1 <= st.q && Absent(text, pat, q1, st.q))
  }

  /** So it is between rounds, where a wrapped search has not yet come round again. */
  ghost predicate Progress(text: seq<Rune>, pat: seq<Rune>, q1: nat, st: State) {
    Clear(text, pat, q1, st) && (st.around ==> st.q <= q1)
  }

  /** A window without the pattern's first rune holds no start of an occurrence. */
  lemma NoFirstRune(text: seq<Rune>, pat: seq<Rune>, q: nat, n: nat)
    requires pat != [] && q + n <= |text| && forall k :: q <= k < q + n ==> text[k] != pat[0]
    ensures Absent(text, pat, q, q + n)
  {
    forall i | q <= i < q + n
      ensures !Occurs(text, pat, i)
    {
      if i + |pat| <= |text| {
        assert text[i..i + |pat|][0] == text[i];
      }
    }
  }

  lemma CompareProgress(text: seq<Rune>, pat: seq<Rune>, q1: nat, st: State)
    requires pat != [] && 2 * |pat| <= RBUFSIZE && q1 <= |text|
    requires Clear(text, pat, q1, st) && st.q < |text|
    ensures match Compare(text, pat, q1, st)
            case Again(next) => Progress(text, pat, q1, next) && st.q < next.q && next.around == st.around
            case Found(q) => FirstFrom(text, pat, q1, q)
            case NotFound => Absent(text, pat, 0, |text|)
  {
    var rest := |text| - st.q;
    var nb := if st.nb < |pat| && st.nb != rest then Min(rest, RBUFSIZE - 1) else st.nb;
    assert |pat| <= rest ==> |pat| <= nb;
  }

  /**
   Each round finds the first occurrence in cyclic order, proves there is none, or moves
   forward without passing over one.
   */
  lemma RoundProgress(text: seq<Rune>, pat: seq<Rune>, q1: nat, st: State)
    requires text != [] && pat != [] && 2 * |pat| <= RBUFSIZE && q1 <= |text|
    requires Progress(text, pat, q1, st) && (st.around ==> st.q < |text|)
    ensures match OneRound(text, pat, q1, st)
            case Again(next) => Progress(text, pat, q1, next)
                                && (if next.around == st.around then st.q < next.q else next.around)
            case Found(q) => FirstFrom(text, pat, q1, q)
            case NotFound => Absent(text, pat, 0, |text|)
  {
    hide Compare, Occurs;
    var w := Wrapped(text, st);
    assert Progress(text, pat, q1, w);
    if w.nb == 0 {
      CompareProgress(text, pat, q1, w);
    } else {
      var window := text[w.q..w.q + w.nb];
      var i := IndexOf(window, pat[0]);
      forall k | w.q <= k < w.q + i
        ensures text[k] != pat[0]
      {
        assert window[k - w.q] == text[k];
      }
      NoFirstRune(text, pat, w.q, i);
      if i < w.nb {
        CompareProgress(text, pat, q1, State(w.q + i, w.nb - i, w.around));
      }
    }
  }

  // ----- when the search returns -----

  const WINDOW: nat := RBUFSIZE - 1

  /** Where the window that is loaded at `q` ends. */
  function WindowEnd(text: seq<Rune>, q: nat): (e: nat)
    requires q < |text|
    ensures q < e <= |text| && (e == |text| || e == q + WINDOW)
  {
    q + Min(|text| - q, WINDOW)
  }

  /** The first `c` from `from` up to `end`, or `end`. */
  function FirstRune(text: seq<Rune>, c: Rune, from: nat, end: nat): (p: nat)
    requires from <= end <= |text|
    ensures from <= p <= end && (p < end ==> text[p] == c) && forall k :: from <= k < p ==> text[k] != c
    decreases end - from
  {
    if from == end || text[from] == c then from else FirstRune(text, c, from + 1, end)
  }

  /** Where the next window is loaded: at a first rune too near the end of this one, or at its end. */
  function NextWindow(text: seq<Rune>, pat: seq<Rune>, q: nat): (p: nat)
    requires pat != [] && 2 * |pat| <= RBUFSIZE && q < |text| && WindowEnd(text, q) < |text|
    ensures q < p <= WindowEnd(text, q)
  {
    var e := WindowEnd(text, q);
    FirstRune(text, pat[0], e - |pat| + 1, e)
  }

  /** Of the windows from `q` on, one is loaded at the last rune. */
  predicate StartsAtLast(text: seq<Rune>, pat: seq<Rune>, q: nat)
    requires pat != [] && 2 * |pat| <= RBUFSIZE && q < |text|
    decreases |text| - q
  {
    q + 1 == |text| || (WindowEnd(text, q) < |text| && StartsAtLast(text, pat, NextWindow(text, pat, q)))
  }

  /** The last rune is compared, and the search starts over behind it. */
  predicate ComparesLast(text: seq<Rune>, pat: seq<Rune>)
    requires text != [] && pat != [] && 2 * |pat| <= RBUFSIZE
  {
    text[|text| - 1] == pat[0] || StartsAtLast(text, pat, 0)
  }

  /** If the pattern's first rune does not occur, windows follow each other without gaps. */
  lemma {:induction false} StartsAtLastIff(text: seq<Rune>, pat: seq<Rune>, q: nat)
    requires pat != [] && 2 * |pat| <= RBUFSIZE && q < |text| && pat[0] !in text
    ensures StartsAtLast(text, pat, q) <==> (|text| - q) % WINDOW == 1
    decreases |text| - q
  {
    hide NextWindow;
    if WindowEnd(text, q) < |text| {
      NextIsEnd(text, pat, q);
      StartsAtLastIff(text, pat, q + WINDOW);
    }
  }

  lemma NextIsEnd(text: seq<Rune>, pat: seq<Rune>, q: nat)
    requires pat != [] && 2 * |pat| <= RBUFSIZE && q < |text| && pat[0] !in text && WindowEnd(text, q) < |text|
    ensures NextWindow(text, pat, q) == WindowEnd(text, q) == q + WINDOW
  {
    var p := NextWindow(text, pat, q);
    assert text[p] in text;
  }

  /** The search is about to load a window at `q0`, or is inside it and has had no reason to reload. */
  ghost predicate InWindow(text: seq<Rune>, pat: seq<Rune>, q0: nat, st: State) {
    && pat != [] && q0 < |text| && st.around
    && (st == State(q0, 0, true) ||
        (var e := WindowEnd(text, q0);
         && q0 < st.q < e && st.q + st.nb == e
         && (e < |text| ==> forall p :: e - |pat| < p < st.q ==> p <= q0 || text[p] != pat[0])))
  }

  /** A window that is loaded now: its first rune is compared. */
  lemma LoadStep(text: seq<Rune>, pat: seq<Rune>, q0: nat, st: State)
    requires pat != [] && 2 * |pat| <= RBUFSIZE && q0 < |text| && Absent(text, pat, 0, |text|)
    requires st.q == q0 && st.around && st.nb < |pat| && (st.nb == |text| - q0 ==> st.nb == 0)
    ensures var r := Compare(text, pat, |text|, st);
            r.Again? && if q0 + 1 == |text| then r.state == State(|text|, 0, true) else InWindow(text, pat, q0, r.state)
  {
    assert !Occurs(text, pat, q0);
  }

  /** A round inside a window whose remaining runes are not the pattern's first one. */
  lemma MissStep(text: seq<Rune>, pat: seq<Rune>, q0: nat, st: State)
    requires pat != [] && 2 * |pat| <= RBUFSIZE && InWindow(text, pat, q0, st) && st.nb > 0
    requires forall k :: st.q <= k < st.q + st.nb ==> text[k] != pat[0]
    ensures var e := WindowEnd(text, q0);
            e < |text| ==> NextWindow(text, pat, q0) == e && InWindow(text, pat, e, State(e, 0, true))
  {
  }

  /** A round inside a window that comes upon the pattern's first rune. */
  lemma HitStep(text: seq<Rune>, pat: seq<Rune>, q0: nat, st: State, p: nat)
    requires pat != [] && 2 * |pat| <= RBUFSIZE && InWindow(text, pat, q0, st) && Absent(text, pat, 0, |text|)
    requires st.q <= p < st.q + st.nb && text[p] == pat[0] && text[|text| - 1] != pat[0]
    requires forall k :: st.q <= k < p ==> text[k] != pat[0]
    ensures var r := Compare(text, pat, |text|, State(p, st.q + st.nb - p, true));
            && r.Again?
            && (InWindow(text, pat, q0, r.state)
                || (WindowEnd(text, q0) < |text| && InWindow(text, pat, NextWindow(text, pat, q0), r.state)))
  {
    var e := WindowEnd(text, q0);
    assert !Occurs(text, pat, p) && text[p..p + 1] == [pat[0]];
    if e < |text| && e - p < |pat| {
      assert NextWindow(text, pat, q0) == p;
      LoadStep(text, pat, p, State(p, e - p, true));
    }
  }

  lemma InWindowShape(text: seq<Rune>, pat: seq<Rune>, q0: nat, st: State)
    requires InWindow(text, pat, q0, st)
    ensures st.around && st.q < |text| && q0 < |text|
    ensures if st.nb == 0 then st.q == q0 else q0 < st.q && st.q + st.nb == WindowEnd(text, q0)
  {
  }

  /** One round stays in the window, goes on to the next one, or ends at the end of the text. */
  lemma WindowStep(text: seq<Rune>, pat: seq<Rune>, q0: nat, st: State)
    requires pat != [] && 2 * |pat| <= RBUFSIZE && InWindow(text, pat, q0, st) && Window(text, st)
    requires Absent(text, pat, 0, |text|) && text[|text| - 1] != pat[0]
    ensures match OneRound(text, pat, |text|, st)
            case Found(_) => false
            case NotFound => WindowEnd(text, q0) == |text| && q0 + 1 < |text|
            case Again(next) =>
              || InWindow(text, pat, q0, next)
              || (WindowEnd(text, q0) < |text| && InWindow(text, pat, NextWindow(text, pat, q0), next))
              || (q0 + 1 == |text| && next == State(|text|, 0, true))
  {
    hide Compare, Absent, InWindow, NextWindow, IndexOf, WindowEnd;
    InWindowShape(text, pat, q0, st);
    if st.nb == 0 {
      LoadStep(text, pat, q0, st);
    } else {
      var window := text[st.q..st.q + st.nb];
      var i := IndexOf(window, pat[0]);
      assert forall k :: st.q <= k < st.q + i ==> text[k] == window[k - st.q];
      if i == st.nb {
        MissStep(text, pat, q0, st);
      } else {
        assert text[st.q + i] == window[i];
        HitStep(text, pat, q0, st, st.q + i);
      }
    }
  }

  /** When the search returns; what it asks of text and pattern can be found out before. */
  ghost predicate Returns(text: seq<Rune>, pat: seq<Rune>, q1: nat) {
    || pat == [] || |pat| > |text| || 2 * |pat| > RBUFSIZE
    || q1 < |text| || (exists i :: Occurs(text, pat, i)) || !ComparesLast(text, pat)
  }

  /** The search has not wrapped but is about to. */
  predicate AtEnd(text: seq<Rune>, st: State) {
    st.q == |text| && st.nb == 0
  }

  /** What keeps the search from starting over. */
  ghost predicate Bound(text: seq<Rune>, pat: seq<Rune>, q1: nat, st: State)
    requires text != [] && pat != [] && 2 * |pat| <= RBUFSIZE
  {
    || q1 < |text|
    || (exists i :: Occurs(text, pat, i))
    || (!ComparesLast(text, pat)
        && ((!st.around && AtEnd(text, st)) || exists q0 :: InWindow(text, pat, q0, st) && !StartsAtLast(text, pat, q0)))
  }

  /** A search about to wrap goes on like one about to load the first window. */
  lemma WrapStep(text: seq<Rune>, pat: seq<Rune>, st: State)
    requires text != [] && pat != [] && AtEnd(text, st)
    ensures Window(text, st) && OneRound(text, pat, |text|, st) == OneRound(text, pat, |text|, State(0, 0, true))
    ensures InWindow(text, pat, 0, State(0, 0, true))
  {
    hide Compare, IndexOf;
  }

  /** The windows of a search that does not compare the last rune never lead there. */
  lemma SafeStep(text: seq<Rune>, pat: seq<Rune>, q0: nat, st: State)
    requires text != [] && pat != [] && 2 * |pat| <= RBUFSIZE && Window(text, st) && Absent(text, pat, 0, |text|)
    requires InWindow(text, pat, q0, st) && !StartsAtLast(text, pat, q0) && !ComparesLast(text, pat)
    ensures var r := OneRound(text, pat, |text|, st);
            r.Again? ==> exists q :: InWindow(text, pat, q, r.state) && !StartsAtLast(text, pat, q)
  {
    hide OneRound, InWindow, NextWindow, Absent;
    WindowStep(text, pat, q0, st);
  }

  lemma BoundKept(text: seq<Rune>, pat: seq<Rune>, q1: nat, st: State)
    requires text != [] && pat != [] && 2 * |pat| <= RBUFSIZE && q1 <= |text|
    requires Progress(text, pat, q1, st) && Bound(text, pat, q1, st)
    ensures st.around ==> st.q < |text|
    ensures var r := OneRound(text, pat, q1, st);
            r.Again? ==> Bound(text, pat, q1, r.state)
  {
    hide OneRound, ComparesLast, StartsAtLast;
    if q1 == |text| {
      if i :| Occurs(text, pat, i) {
        assert st.around ==> !(0 <= i < st.q);
      } else if !st.around {
        WrapStep(text, pat, st);
        FirstWindow(text, pat);
        SafeStep(text, pat, 0, State(0, 0, true));
      } else {
        var q0 :| InWindow(text, pat, q0, st) && !StartsAtLast(text, pat, q0);
        SafeStep(text, pat, q0, st);
      }
    }
  }

  lemma FirstWindow(text: seq<Rune>, pat: seq<Rune>)
    requires text != [] && pat != [] && 2 * |pat| <= RBUFSIZE
    ensures !ComparesLast(text, pat) ==> !StartsAtLast(text, pat, 0)
    ensures ComparesLast(text, pat) && text[|text| - 1] != pat[0] ==> StartsAtLast(text, pat, 0)
  {
  }

  /** At most `n` rounds. */
  function Rounds(text: seq<Rune>, pat: seq<Rune>, q1: nat, st: State, n: nat): Round
    requires text != [] && pat != [] && Window(text, st)
    decreases n
  {
    if n == 0 then Again(st)
    else
      var r := OneRound(text, pat, q1, st);
      RoundWindow(text, pat, q1, st);
      if r.Again? then Rounds(text, pat, q1, r.state, n - 1) else r
  }

  lemma RoundWindow(text: seq<Rune>, pat: seq<Rune>, q1: nat, st: State)
    requires text != [] && pat != [] && Window(text, st)
    ensures var r := OneRound(text, pat, q1, st); r.Again? ==> Window(text, r.state)
  {
    hide IndexOf;
  }

  /** Where a search that never returns always is. */
  ghost predicate Doomed(text: seq<Rune>, pat: seq<Rune>, st: State)
    requires text != [] && pat != [] && 2 * |pat| <= RBUFSIZE
  {
    if text[|text| - 1] == pat[0] then Window(text, st) && (st.around || st.q == |text|)
    else AtEnd(text, st) || exists q0 :: InWindow(text, pat, q0, st) && StartsAtLast(text, pat, q0)
  }

  /** With the insertion point at the end of the text, and the text ending in the pattern's first rune. */
  lemma LastRuneStep(text: seq<Rune>, pat: seq<Rune>, st: State)
    requires text != [] && pat != [] && Absent(text, pat, 0, |text|) && text[|text| - 1] == pat[0]
    requires Window(text, st) && (st.around || st.q == |text|)
    ensures var r := OneRound(text, pat, |text|, st);
            r.Again? && Window(text, r.state) && r.state.around
  {
    var w := Wrapped(text, st);
    assert !Occurs(text, pat, w.q);
    if w.nb != 0 {
      var window := text[w.q..w.q + w.nb];
      var i := IndexOf(window, pat[0]);
      if w.q + w.nb == |text| {
        assert window[w.nb - 1] == text[|text| - 1];
      }
      if i < w.nb {
        assert !Occurs(text, pat, w.q + i);
      }
    }
  }

  /** With a window loaded at the last rune. */
  lemma DoomedStep(text: seq<Rune>, pat: seq<Rune>, st: State)
    requires text != [] && pat != [] && 2 * |pat| <= RBUFSIZE && Window(text, st) && Absent(text, pat, 0, |text|)
    requires ComparesLast(text, pat) && Doomed(text, pat, st)
    ensures var r := OneRound(text, pat, |text|, st);
            r.Again? && Window(text, r.state) && Doomed(text, pat, r.state)
  {
    hide OneRound, NextWindow, Absent, ComparesLast, AtEnd;
    RoundWindow(text, pat, |text|, st);
    if text[|text| - 1] == pat[0] {
      LastRuneStep(text, pat, st);
    } else if AtEnd(text, st) {
      WrapStep(text, pat, st);
      FirstWindow(text, pat);
      DoomedWindow(text, pat, 0, State(0, 0, true));
    } else {
      var q0 :| InWindow(text, pat, q0, st) && StartsAtLast(text, pat, q0);
      DoomedWindow(text, pat, q0, st);
    }
  }

  lemma DoomedWindow(text: seq<Rune>, pat: seq<Rune>, q0: nat, st: State)
    requires text != [] && pat != [] && 2 * |pat| <= RBUFSIZE && Window(text, st) && Absent(text, pat, 0, |text|)
    requires InWindow(text, pat, q0, st) && StartsAtLast(text, pat, q0) && text[|text| - 1] != pat[0]
    ensures var r := OneRound(text, pat, |text|, st);
            r.Again? && Doomed(text, pat, r.state)
  {
    hide OneRound, InWindow, NextWindow, Absent;
    WindowStep(text, pat, q0, st);
  }

  lemma {:induction false} DoomedForever(text: seq<Rune>, pat: seq<Rune>, st: State, n: nat)
    requires text != [] && pat != [] && 2 * |pat| <= RBUFSIZE && Window(text, st) && Absent(text, pat, 0, |text|)
    requires ComparesLast(text, pat) && Doomed(text, pat, st)
    ensures Rounds(text, pat, |text|, st, n).Again?
    decreases n
  {
    hide OneRound, Doomed, ComparesLast, Absent, Window;
    if n > 0 {
      DoomedStep(text, pat, st);
      DoomedForever(text, pat, OneRound(text, pat, |text|, st).state, n - 1);
    }
  }

  /** A bounded search ends. */
  lemma {:induction false} BoundedEnds(text: seq<Rune>, pat: seq<Rune>, q1: nat, st: State) returns (n: nat)
    requires text != [] && pat != [] && 2 * |pat| <= RBUFSIZE && q1 <= |text| && Window(text, st)
    requires Progress(text, pat, q1, st) && Bound(text, pat, q1, st)
    ensures !Rounds(text, pat, q1, st, n).Again?
    decreases if st.around then 0 else 1, |text| - st.q
  {
    hide OneRound, Progress, Bound, Window;
    BoundKept(text, pat, q1, st);
    RoundProgress(text, pat, q1, st);
    RoundWindow(text, pat, q1, st);
    var r := OneRound(text, pat, q1, st);
    if r.Again? {
      ProgressInText(text, pat, q1, r.state);
      n := BoundedEnds(text, pat, q1, r.state);
      n := n + 1;
    } else {
      n := 1;
    }
  }

  lemma ProgressInText(text: seq<Rune>, pat: seq<Rune>, q1: nat, st: State)
    requires Progress(text, pat, q1, st)
    ensures st.q <= |text|
  {
  }

  /** The search ends after some number of rounds if and only if `Returns` says so. */
  lemma ReturnsIff(text: seq<Rune>, pat: seq<Rune>, q1: nat)
    requires pat != [] && |pat| <= |text| && 2 * |pat| <= RBUFSIZE && q1 <= |text|
    ensures (exists n: nat :: !Rounds(text, pat, q1, State(q1, 0, false), n).Again?) <==> Returns(text, pat, q1)
  {
    hide Rounds, ComparesLast, Progress, Bound;
    var st := State(q1, 0, false);
    if Returns(text, pat, q1) {
      StartsClear(text, pat, q1);
      var n := BoundedEnds(text, pat, q1, st);
    } else {
      forall n: nat ensures Rounds(text, pat, q1, st, n).Again? {
        DoomedForever(text, pat, st, n);
      }
    }
  }

  // ----- the search itself -----

  /** The buffer `s`, the position `b` in it, and the number of runes loaded there. */
  class Buffer {
    const s: array<int>
    var b: nat
    var nb: nat

    /** The loaded runes are those of the text at `q`, with a NUL behind them. */
    ghost predicate Holds(text: seq<Rune>, q: nat)
      reads this, s
    {
      && s.Length == RBUFSIZE && b + nb < RBUFSIZE && q + nb <= |text|
      && s[b + nb] == 0 && forall k {:trigger text[k]} :: q <= k < q + nb ==> s[b + (k - q)] == text[k]
    }

    constructor ()
      ensures fresh(s) && s.Length == RBUFSIZE && b == 0 && nb == 0 && s[0] == 0
    {
      s := new int[RBUFSIZE](_ => 0);
      b, nb := 0, 0;
    }

    method Clear()
      requires s.Length == RBUFSIZE && b < RBUFSIZE
      modifies this`nb, s
      ensures nb == 0 && s[b] == 0
    {
      nb := 0;
      s[b] := 0;
    }

    /** `runestrchr`: the distance to the first `c`, or to the NUL. */
    method IndexOfRune(c: Rune, ghost text: seq<Rune>, ghost q: nat) returns (i: nat)
      requires Holds(text, q)
      ensures i == IndexOf(text[q..q + nb], c)
    {
      i := 0;
      ghost var window := text[q..q + nb];
      while s[b + i] != 0 && s[b + i] != c
        invariant i <= nb && IndexOf(window, c) == i + IndexOf(window[i..], c)
        decreases nb - i
      {
        assert i == nb || s[b + i] == text[q + i] == window[i];
        assert window[i..][1..] == window[i + 1..];
        i := i + 1;
      }
      assert i == nb || s[b + i] == text[q + i] == window[i];
    }

    method Advance(i: nat, ghost text: seq<Rune>, ghost q: nat)
      requires Holds(text, q) && i <= nb
      modifies this`b, this`nb
      ensures Holds(text, q + i) && nb == old(nb) - i
    {
      b, nb := b + i, nb - i;
    }

    method Load(text: seq<Rune>, q: nat)
      requires s.Length == RBUFSIZE && q <= |text|
      modifies this, s
      ensures Holds(text, q) && nb == Min(|text| - q, RBUFSIZE - 1)
    {
      nb := |text| - q;
      if nb >= RBUFSIZE {
        nb := RBUFSIZE - 1;
      }
      forall k | 0 <= k < nb {
        s[k] := text[q + k];
      }
      b := 0;
      s[b + nb] := 0;
    }

    /** `runeeq`: the NUL stops the comparison at the end of the window. */
    method Matches(r: seq<Rune>, ghost text: seq<Rune>, ghost q: nat) returns (yes: bool)
      requires Holds(text, q)
      ensures yes == (|r| <= nb && text[q..q + |r|] == r)
    {
      var k := 0;
      while k < |r| && s[b + k] == r[k]
        invariant k <= |r| && k <= nb && text[q..q + k] == r[..k]
      {
        assert k < nb;
        assert s[b + k] == text[q + k];
        k := k + 1;
      }
      yes := k == |r|;
      if !yes && |r| <= nb {
        assert s[b + k] == text[q + k] == text[q..q + |r|][k];
      }
    }
  }

  class Text {
    const rs: seq<Rune>
    var q0: nat
    var q1: nat

    constructor (rs: seq<Rune>, q0: nat, q1: nat)
      ensures this.rs == rs && this.q0 == q0 && this.q1 == q1
    {
      this.rs := rs;
      this.q0 := q0;
      this.q1 := q1;
    }

    /**
     Selects the first occurrence at or after the insertion point, else the first one in
     the text; says whether there was one. A pattern over half the buffer is not searched.
     */
    method Find(r: seq<Rune>) returns (found: bool)
      requires q1 <= |rs| && Returns(rs, r, q1)
      modifies this`q0, this`q1
      ensures found <==> r != [] && 2 * |r| <= RBUFSIZE && exists i :: Occurs(rs, r, i)
      ensures found ==> FirstFrom(rs, r, old(q1), q0) && q1 == q0 + |r|
      ensures !found ==> q0 == old(q0) && q1 == old(q1)
    {
      var n := |r|;
      if n == 0 || n > |rs| || 2 * n > RBUFSIZE {
        return false;
      }
      var buf := new Buffer();
      var st := State(q1, 0, false);
      StartsClear(rs, r, q1);
      hide Occurs, FirstFrom, OneRound, Absent, Clear, Bound, ComparesLast;
      while true
        invariant q1 == old(q1) && q0 == old(q0)
        invariant Progress(rs, r, q1, st) && Bound(rs, r, q1, st) && buf.Holds(rs, st.q) && buf.nb == st.nb
        invariant fresh(buf) && fresh(buf.s)
        decreases if st.around then 0 else 1, |rs| - st.q
      {
        BoundKept(rs, r, q1, st);
        RoundProgress(rs, r, q1, st);
        var round := LookOnce(buf, r, st);
        match round
        case Again(next) =>
          st := next;
        case Found(q) =>
          q0 := q;
          q1 := q + n;
          found := true;
          FoundOccurs(rs, r, old(q1), q0);
          return;
        case NotFound =>
          AbsentEverywhere(rs, r);
          return false;
      }
    }

    /** One round of the loop; the buffer follows the position. */
    method LookOnce(buf: Buffer, r: seq<Rune>, st: State) returns (round: Round)
      requires rs != [] && r != [] && buf.Holds(rs, st.q) && buf.nb == st.nb
      modifies buf, buf.s
      ensures round == OneRound(rs, r, q1, st)
      ensures round.Again? ==> buf.Holds(rs, round.state.q) && buf.nb == round.state.nb
    {
      hide IndexOf, Compare;
      var q, around := st.q, st.around;
      if q >= |rs| {
        q := 0;
        around := true;
        buf.Clear();
      }
      if buf.nb > 0 {
        var c := buf.IndexOfRune(r[0], rs, q);
        if c == buf.nb {
          q := q + buf.nb;
          buf.Clear();
          round := if around && q >= q1 then NotFound else Again(State(q, 0, around));
          return;
        }
        buf.Advance(c, rs, q);
        q := q + c;
      }
      round := LookHere(buf, r, State(q, buf.nb, around));
    }

    /** Reload if the buffer covers neither the pattern nor the rest, and compare. */
    method LookHere(buf: Buffer, r: seq<Rune>, st: State) returns (round: Round)
      requires st.q < |rs| && r != [] && buf.Holds(rs, st.q) && buf.nb == st.nb
      modifies buf, buf.s
      ensures round == Compare(rs, r, q1, st)
      ensures round.Again? ==> buf.Holds(rs, round.state.q) && buf.nb == round.state.nb
    {
      if buf.nb < |r| && buf.nb != |rs| - st.q {
        buf.Load(rs, st.q);
      }
      var same := buf.Matches(r, rs, st.q);
      if same {
        return Found(st.q);
      }
      if st.around && st.q >= q1 {
        return NotFound;
      }
      buf.Advance(1, rs, st.q);
      round := Again(State(st.q + 1, buf.nb, st.around));
    }
  }

  lemma FoundOccurs(text: seq<Rune>, pat: seq<Rune>, q1: nat, q: nat)
    requires FirstFrom(text, pat, q1, q)
    ensures Occurs(text, pat, q)
  {
  }

  lemma AbsentEverywhere(text: seq<Rune>, pat: seq<Rune>)
    requires Absent(text, pat, 0, |text|) && pat != []
    ensures !exists i :: Occurs(text, pat, i)
  {
  }

  lemma StartsClear(text: seq<Rune>, pat: seq<Rune>, q1: nat)
    requires q1 <= |text| && pat != [] && |pat| <= |text| && 2 * |pat| <= RBUFSIZE && Returns(text, pat, q1)
    ensures Progress(text, pat, q1, State(q1, 0, false)) && Bound(text, pat, q1, State(q1, 0, false))
  {
  }
}
