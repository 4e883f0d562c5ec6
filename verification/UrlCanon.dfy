/**
 `urlcanon` in place: slashes are overwritten with NULs, the component pointers are
 compacted with two indices, and the path is rebuilt over its own characters.
 Pointers into the name are offsets here.
 */
module UrlCanon {
  import opened UrlPath

  /** The offsets of the components from `o` on. */
  function Offsets(s: seq<Rune>, o: nat): (offs: seq<nat>)
    requires o <= |s|
    ensures offs != [] && offs[0] == o
    decreases |s| - o
  {
    var n := PartLength(s, o);
    [o] + if o + n == |s| then [] else Offsets(s, o + n + 1)
  }

  /** Each component ends before the next one starts. */
  ghost predicate Ordered(s: seq<Rune>, offs: seq<nat>) {
    && (forall i :: 0 <= i < |offs| ==> offs[i] <= |s|)
    && (forall i, j :: 0 <= i < j < |offs| ==> offs[i] + PartLength(s, offs[i]) < offs[j])
  }

  ghost function Parts(s: seq<Rune>, offs: seq<nat>): (parts: seq<Part>)
    requires Ordered(s, offs)
    ensures |parts| == |offs| && forall i :: 0 <= i < |offs| ==> parts[i] == PartAt(s, offs[i])
  {
    seq(|offs|, i requires 0 <= i < |offs| => PartAt(s, offs[i]))
  }

  /** A component cut off by a slash at `x`, or by the end of the name. */
  lemma OffsetsAt(s: seq<Rune>, cur: nat, x: nat)
    requires cur <= x <= |s| && (forall k :: cur <= k < x ==> s[k] != SLASH) && (x < |s| ==> s[x] == SLASH)
    ensures Offsets(s, cur) == [cur] + if x == |s| then [] else Offsets(s, x + 1)
  {
    PartLengthExact(s, cur, x - cur);
  }

  lemma {:induction false} OffsetsOrdered(s: seq<Rune>, o: nat)
    requires o <= |s|
    ensures Ordered(s, Offsets(s, o)) && forall i :: 0 <= i < |Offsets(s, o)| ==> o <= Offsets(s, o)[i]
    decreases |s| - o
  {
    hide PartLength, Ordered, Offsets;
    var n := PartLength(s, o);
    var rest := OffsetsStep(s, o);
    NoneOrdered(s);
    if o + n < |s| {
      OffsetsOrdered(s, o + n + 1);
    }
    OrderedCons(s, o, rest);
  }

  lemma OffsetsStep(s: seq<Rune>, o: nat) returns (rest: seq<nat>)
    requires o <= |s|
    ensures var n := PartLength(s, o);
            rest == (if o + n == |s| then [] else Offsets(s, o + n + 1)) && Offsets(s, o) == [o] + rest
  {
    hide PartLength;
    var n := PartLength(s, o);
    rest := if o + n == |s| then [] else Offsets(s, o + n + 1);
  }

  lemma OrderedCons(s: seq<Rune>, o: nat, rest: seq<nat>)
    requires o <= |s| && Ordered(s, rest) && forall i :: 0 <= i < |rest| ==> o + PartLength(s, o) < rest[i]
    ensures Ordered(s, [o] + rest) && forall i :: 0 <= i < |[o] + rest| ==> o <= ([o] + rest)[i]
  {
    hide PartLength;
    var all := [o] + rest;
    assert forall i :: 0 < i < |all| ==> all[i] == rest[i - 1];
  }

  lemma {:induction false} OffsetsSplit(s: seq<Rune>, o: nat)
    requires o <= |s| && Ordered(s, Offsets(s, o))
    ensures Parts(s, Offsets(s, o)) == Split(s, o)
    decreases |s| - o
  {
    hide PartLength, Ordered, PartAt;
    var n := PartLength(s, o);
    var offs := Offsets(s, o);
    SplitStep(s, o);
    hide Split;
    if o + n < |s| {
      var rest := Offsets(s, o + n + 1);
      OffsetsOrdered(s, o + n + 1);
      OffsetsSplit(s, o + n + 1);
      assert offs[1..] == rest;
      PartsTail(s, offs);
    }
    assert Parts(s, offs)[0] == PartAt(s, o);
    assert Parts(s, offs) == [Parts(s, offs)[0]] + Parts(s, offs)[1..];
  }

  /** The name with its slashes replaced by NULs, and a NUL at its end. */
  ghost predicate IsCut(buf: array<int>, s: seq<Rune>)
    reads buf
  {
    buf.Length > |s| && forall k :: 0 <= k <= |s| ==> buf[k] == if k == |s| || s[k] == SLASH then 0 else s[k]
  }

  /** Cut the name into components and list their offsets. */
  method Cut(buf: array<int>, ghost s: seq<Rune>) returns (comp: array<nat>, p: nat)
    requires buf.Length > |s| && buf[|s|] == 0 && forall k :: 0 <= k < |s| ==> buf[k] == s[k]
    modifies buf
    ensures IsCut(buf, s) && fresh(comp) && p <= comp.Length && comp[..p] == Offsets(s, 0)
  {
    hide Offsets;
    comp := new nat[buf.Length](_ => 0);
    p := 1;
    var x := 0;
    assert comp[..0] + Offsets(s, 0) == Offsets(s, 0);
    while buf[x] != 0
      invariant 0 <= x <= |s| && 1 <= p <= x + 1
      invariant comp[p - 1] <= x && forall k :: comp[p - 1] <= k < x ==> s[k] != SLASH
      invariant Offsets(s, 0) == comp[..p - 1] + Offsets(s, comp[p - 1])
      invariant forall k :: 0 <= k < x ==> buf[k] == if s[k] == SLASH then 0 else s[k]
      invariant forall k :: x <= k < |s| ==> buf[k] == s[k]
      invariant buf[|s|] == 0
      decreases |s| - x
    {
      if buf[x] == SLASH {
        ghost var cur, before := comp[p - 1], comp[..p - 1];
        OffsetsAt(s, cur, x);
        assert before + ([cur] + Offsets(s, x + 1)) == before + [cur] + Offsets(s, x + 1);
        comp[p] := x + 1;
        p := p + 1;
        assert comp[..p - 1] == before + [cur];
        buf[x] := 0;
      }
      x := x + 1;
    }
    OffsetsAt(s, comp[p - 1], x);
    assert comp[..p] == comp[..p - 1] + [comp[p - 1]];
  }

  /** What the string comparisons see at a component. */
  lemma PartTests(buf: array<int>, s: seq<Rune>, o: nat)
    requires IsCut(buf, s) && o <= |s|
    ensures o < buf.Length && (buf[o] != 0 ==> o + 1 < buf.Length && (buf[o + 1] != 0 ==> o + 2 < buf.Length))
    ensures buf[o] == 0 <==> PartAt(s, o) == []
    ensures buf[o] == DOT && buf[o + 1] == 0 <==> PartAt(s, o) == [DOT]
    ensures buf[o] == DOT && buf[o + 1] == DOT && buf[o + 2] == 0 <==> PartAt(s, o) == [DOT, DOT]
  {
    var c := PartAt(s, o);
    var n := PartLength(s, o);
    hide PartLength;
    assert forall k :: 0 <= k < n ==> buf[o + k] == c[k] != 0;
    assert buf[o + n] == 0 && |c| == n;
    assert c == [DOT] <==> n == 1 && c[0] == DOT;
    assert c == [DOT, DOT] <==> n == 2 && c[0] == DOT && c[1] == DOT;
    assert n > 0 ==> buf[o] == c[0];
    assert n > 1 ==> buf[o + 1] == c[1];
    assert n > 2 ==> buf[o + 2] == c[2];
  }

  /** Leaving out one offset keeps the order and leaves out one component. */
  lemma OrderedDrop(s: seq<Rune>, a: seq<nat>, o: nat, b: seq<nat>)
    requires Ordered(s, a + [o] + b)
    ensures Ordered(s, a + b)
  {
    var all, less := a + [o] + b, a + b;
    assert forall i :: 0 <= i < |less| ==> less[i] == all[if i < |a| then i else i + 1];
  }

  lemma PartsTail(s: seq<Rune>, offs: seq<nat>)
    requires offs != [] && Ordered(s, offs)
    ensures Ordered(s, offs[1..]) && Parts(s, offs)[1..] == Parts(s, offs[1..])
  {
  }

  lemma PartsInit(s: seq<Rune>, offs: seq<nat>, o: nat)
    requires Ordered(s, offs + [o])
    ensures Ordered(s, offs) && o <= |s| && Parts(s, offs + [o]) == Parts(s, offs) + [PartAt(s, o)]
  {
    assert forall i :: 0 <= i < |offs| ==> (offs + [o])[i] == offs[i];
    assert (offs + [o])[|offs|] == o;
  }

  lemma OrderedParts(s: seq<Rune>, a: seq<nat>, b: seq<nat>)
    requires Ordered(s, a + b)
    ensures Ordered(s, a) && Ordered(s, b)
  {
    var all := a + b;
    assert forall i :: 0 <= i < |a| ==> a[i] == all[i];
    assert forall i :: 0 <= i < |b| ==> b[i] == all[|a| + i];
  }

  /** Compact the components with two indices. */
  method FilterComps(buf: array<int>, comp: array<nat>, m: nat, ghost s: seq<Rune>) returns (q: nat)
    requires IsCut(buf, s) && m <= comp.Length && comp[..m] == Offsets(s, 0)
    modifies comp
    ensures q <= m && Ordered(s, comp[..q]) && Parts(s, comp[..q]) == Filter([], Split(s, 0))
    ensures Rooted(s) && q > 0 ==> comp[0] > 0
  {
    hide PartLength, Offsets, Ordered, Split, Filter, IsCut, Parts, PartAt;
    ghost var offs := comp[..m];
    OffsetsOrdered(s, 0);
    OffsetsSplit(s, 0);
    NoneOrdered(s);
    var p := 0;
    q := 0;
    assert comp[..0] + offs[0..] == offs && offs[0..] == offs;
    assert Parts(s, comp[..0]) == [];
    while p < m
      invariant q <= p <= m && forall i :: p <= i < m ==> comp[i] == offs[i]
      invariant Ordered(s, comp[..q] + offs[p..]) && Ordered(s, comp[..q]) && Ordered(s, offs[p..])
      invariant Filter(Parts(s, comp[..q]), Parts(s, offs[p..])) == Filter([], Split(s, 0))
      invariant Rooted(s) ==> forall i :: 0 <= i < q ==> comp[i] > 0
    {
      p, q := FilterOne(buf, comp, m, p, q, s, offs);
    }
    assert Parts(s, offs[p..]) == [];
    FilterNone(Parts(s, comp[..q]));
  }

  lemma NoneOrdered(s: seq<Rune>)
    ensures Ordered(s, [])
  {
  }

  lemma FilterNone(kept: seq<Part>)
    ensures Filter(kept, []) == kept
  {
  }

  /** One round of the compaction. */
  method FilterOne(buf: array<int>, comp: array<nat>, m: nat, p: nat, q: nat, ghost s: seq<Rune>, ghost offs: seq<nat>)
    returns (p': nat, q': nat)
    requires IsCut(buf, s) && q <= p < m <= comp.Length && |offs| == m && offs == Offsets(s, 0)
    requires forall i :: p <= i < m ==> comp[i] == offs[i]
    requires Ordered(s, comp[..q] + offs[p..]) && Ordered(s, comp[..q]) && Ordered(s, offs[p..])
    requires Rooted(s) ==> forall i :: 0 <= i < q ==> comp[i] > 0
    modifies comp
    ensures p' == p + 1 && q' <= p' && forall i :: p' <= i < m ==> comp[i] == offs[i]
    ensures Ordered(s, comp[..q'] + offs[p'..]) && Ordered(s, comp[..q']) && Ordered(s, offs[p'..])
    ensures Filter(Parts(s, comp[..q']), Parts(s, offs[p'..])) == Filter(Parts(s, old(comp[..q])), Parts(s, offs[p..]))
    ensures Rooted(s) ==> forall i :: 0 <= i < q' ==> comp[i] > 0
  {
    hide PartLength, PartAt, Offsets, Ordered, Split, IsCut;
    ghost var kept, rest, tail := comp[..q], offs[p..], offs[p + 1..];
    var o := comp[p];
    assert rest == [o] + tail;
    assert kept + rest == kept + [o] + tail;
    OrderedDrop(s, kept, o, tail);
    PartsTail(s, rest);
    InRange(s, rest, 0);
    PartTests(buf, s, o);
    RootedOffsets(s);
    p', q' := p + 1, q;
    if (buf[o] == 0 && p + 1 < m) || (buf[o] == DOT && buf[o + 1] == 0) {
      return;
    }
    var dotdot := buf[o] == DOT && buf[o + 1] == DOT && buf[o + 2] == 0;
    if dotdot && q != 0 {
      var l := comp[q - 1];
      ghost var init := comp[..q - 1];
      assert kept == init + [l];
      PartsInit(s, init, l);
      PartTests(buf, s, l);
      if !(buf[l] == DOT && buf[l + 1] == DOT && buf[l + 2] == 0) {
        q' := q - 1;
        assert init + [l] + tail == kept + tail;
        OrderedDrop(s, init, l, tail);
        assert Parts(s, kept)[..q - 1] == Parts(s, init);
        return;
      }
    }
    comp[q] := o;
    q' := q + 1;
    assert comp[..q'] == kept + [o];
    OrderedParts(s, kept + [o], tail);
    PartsInit(s, kept, o);
  }

  lemma InRange(s: seq<Rune>, offs: seq<nat>, i: nat)
    requires Ordered(s, offs) && i < |offs|
    ensures offs[i] <= |s|
  {
  }

  /** A rooted path starts with an empty component, and the others start behind its slash. */
  lemma RootedOffsets(s: seq<Rune>)
    ensures Rooted(s) ==>
              && |Offsets(s, 0)| > 1 && PartAt(s, 0) == []
              && forall i :: 1 <= i < |Offsets(s, 0)| ==> Offsets(s, 0)[i] > 0
  {
    OffsetsOrdered(s, 0);
  }

  /** Cells from `x` on are as the cut left them. */
  ghost predicate CutFrom(buf: array<int>, s: seq<Rune>, x: nat)
    reads buf
  {
    buf.Length > |s| && forall k :: x <= k <= |s| ==> buf[k] == if k == |s| || s[k] == SLASH then 0 else s[k]
  }

  /** Copy the component at `o` down to `x`; the source is never overwritten before it is read. */
  method CopyPart(buf: array<int>, o: nat, x: nat, ghost s: seq<Rune>) returns (x': nat)
    requires x <= o <= |s| && CutFrom(buf, s, x)
    modifies buf
    ensures x' == x + PartLength(s, o) && CutFrom(buf, s, x')
    ensures buf[..x'] == old(buf[..x]) + PartAt(s, o)
  {
    hide PartLength;
    var t := o;
    x' := x;
    ghost var n := PartLength(s, o);
    while buf[t] != 0
      invariant o <= t <= o + n && x' - x == t - o && CutFrom(buf, s, x')
      invariant buf[..x'] == old(buf[..x]) + s[o..t]
      decreases o + n - t
    {
      assert t < o + n;
      buf[x'] := buf[t];
      x', t := x' + 1, t + 1;
      assert s[o..t] == s[o..t - 1] + [s[t - 1]];
    }
  }

  /** Component `p` lies in the name and ends before the next one starts. */
  lemma Apart(s: seq<Rune>, offs: seq<nat>, p: nat)
    requires Ordered(s, offs) && p < |offs|
    ensures offs[p] <= |s| && (p + 1 < |offs| ==> offs[p] + PartLength(s, offs[p]) < offs[p + 1])
  {
    hide PartLength;
  }

  /** What is joined from component `p` on. */
  lemma JoinFrom(parts: seq<Part>, p: nat)
    requires p < |parts|
    ensures Join(parts[p..]) == parts[p] + (if p + 1 < |parts| then [SLASH] else []) + Join(parts[p + 1..])
  {
    assert parts[p..][1..] == parts[p + 1..];
  }

  /** Write the components back over the name, with slashes between them. */
  method Rebuild(buf: array<int>, comp: array<nat>, q: nat, rooted: bool, ghost s: seq<Rune>)
    requires IsCut(buf, s) && q <= comp.Length && Ordered(s, comp[..q])
    requires rooted == Rooted(s) && (rooted && q > 0 ==> comp[0] > 0)
    modifies buf
    ensures var c := (if rooted then [SLASH] else []) + Join(Parts(s, comp[..q]));
            |c| <= |s| && buf[..|c|] == c && buf[|c|] == 0
  {
    hide PartLength, Ordered, Join, Parts;
    ghost var offs := comp[..q];
    var x, p := 0, 0;
    if rooted {
      buf[0] := SLASH;
      x := 1;
    }
    ghost var root, parts := if rooted then [SLASH] else [], Parts(s, offs);
    ghost var c := root + Join(parts);
    assert buf[..x] == root && parts[0..] == parts;
    if q > 0 { Apart(s, offs, 0); }
    while p < q
      invariant 0 <= p <= q && 0 <= x <= (if p < q then offs[p] else |s|) <= |s| < buf.Length && CutFrom(buf, s, x)
      invariant c == buf[..x] + Join(parts[p..])
    {
      x := Place(buf, comp[p], p + 1 < q, x, s, offs, p);
      p := p + 1;
    }
    assert Join(parts[q..]) == [] by { JoinNone(parts[q..]); }
    assert c == buf[..x];
    buf[x] := 0;
    assert c == buf[..x];
  }

  lemma JoinNone(parts: seq<Part>)
    requires parts == []
    ensures Join(parts) == []
  {
  }

  /** Copy component `p` and, before another one, a slash. */
  method Place(buf: array<int>, o: nat, more: bool, x: nat, ghost s: seq<Rune>, ghost offs: seq<nat>, ghost p: nat)
    returns (x': nat)
    requires Ordered(s, offs) && p < |offs| && o == offs[p] <= |s| && more == (p + 1 < |offs|)
    requires x <= o && CutFrom(buf, s, x)
    modifies buf
    ensures x' <= (if more then offs[p + 1] else |s|) <= |s| && CutFrom(buf, s, x')
    ensures old(buf[..x]) + Join(Parts(s, offs)[p..]) == buf[..x'] + Join(Parts(s, offs)[p + 1..])
  {
    hide PartLength, Ordered, Join;
    Apart(s, offs, p);
    ghost var done, part, rest := buf[..x], PartAt(s, o), Join(Parts(s, offs)[p + 1..]);
    JoinFrom(Parts(s, offs), p);
    x' := CopyPart(buf, o, x, s);
    if more {
      Apart(s, offs, p + 1);
      buf[x'] := SLASH;
      x' := x' + 1;
      assert buf[..x'] == done + part + [SLASH];
      assert done + (part + [SLASH] + rest) == done + part + [SLASH] + rest;
    } else {
      assert done + (part + [] + rest) == done + part + rest;
    }
  }

  /** The path is overwritten with its canonical form, which is never longer. */
  method UrlCanon(buf: array<int>, ghost s: seq<Rune>)
    requires buf.Length > |s| && buf[|s|] == 0 && forall k :: 0 <= k < |s| ==> buf[k] == s[k]
    modifies buf
    ensures |Canon(s)| <= |s| && buf[..|Canon(s)|] == Canon(s) && buf[|Canon(s)|] == 0
  {
    hide PartLength, Ordered, Join, Filter, Split, Offsets;
    var rooted := buf[0] == SLASH;
    var comp, m := Cut(buf, s);
    var q := FilterComps(buf, comp, m, s);
    Rebuild(buf, comp, q, rooted, s);
  }
}
