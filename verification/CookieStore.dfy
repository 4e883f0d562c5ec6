/** The jar as the cookie server keeps it: an array grown sixteen entries at a time. */
module CookieStore {
  import opened Wrappers
  import opened CookieOrder
  import opened CookieJar

  /** Some cookie before `e` has the key of `x`. */
  predicate MatchBefore(jar: seq<Whole>, x: Whole, e: nat)
    requires e <= |jar|
  {
    exists i :: 0 <= i < e && SameKey(jar[i], x)
  }

  lemma MatchStep(jar: seq<Whole>, x: Whole, e: nat)
    requires e < |jar|
    ensures MatchBefore(jar, x, e + 1) <==> MatchBefore(jar, x, e) || SameKey(jar[e], x)
  {
  }

  lemma NoMatch(jar: seq<Whole>, x: Whole)
    ensures !MatchBefore(jar, x, 0)
  {
  }

  /** The jar once the cookies before `e` have been looked at. */
  ghost function SupersededTo(was: seq<Whole>, x: Whole, e: nat): (r: seq<Whole>)
    requires e <= |was|
    ensures |r| == |was|
  {
    Superseded(was[..e], x) + was[e..]
  }

  lemma SupersededNone(was: seq<Whole>, x: Whole)
    ensures SupersededTo(was, x, 0) == was
  {
  }

  lemma SupersededNext(was: seq<Whole>, x: Whole, e: nat)
    requires e < |was|
    ensures SupersededTo(was, x, e)[e] == was[e]
    ensures SupersededTo(was, x, e + 1) ==
              if SameKey(was[e], x) then SupersededTo(was, x, e)[e := Deleted(was[e])] else SupersededTo(was, x, e)
  {
    hide SameKey;
  }

  lemma SupersededAll(was: seq<Whole>, x: Whole)
    ensures SupersededTo(was, x, |was|) == Superseded(was, x)
  {
    assert was[..|was|] == was && was[|was|..] == [];
  }

  /** What the two comparisons decide. */
  lemma Compared(a: Whole, x: Whole)
    ensures CookieCmp(a, x) == 0 <==> SameKey(a, x)
    ensures ExactCmp(a, x) == 0 <==> Exact(a, x)
    ensures Exact(a, x) ==> SameKey(a, x)
  {
    CookieCmpZero(a, x);
    ExactCmpZero(a, x);
  }

  lemma FirstExactAt(jar: seq<Whole>, x: Whole, e: nat)
    requires e <= |jar| && (e < |jar| ==> Exact(jar[e], x)) && forall i :: 0 <= i < e ==> !Exact(jar[i], x)
    ensures FirstExact(jar, x) == e
  {
  }

  /** The array once the mark of the exact copy is cleared. */
  lemma PlaceCopy(was: seq<Whole>, x: Whole, now: seq<Whole>)
    requires var e := FirstExact(was, x);
             && e < |was|
             && now == SupersededTo(was, x, e)[e := was[e].(mark := false)]
    ensures now == Added(was, x)
  {
    hide FirstExact, SameKey, Exact;
    var e := FirstExact(was, x);
    var done := Superseded(was[..e], x);
    assert |done| == e;
    assert was[e..] == [was[e]] + was[e + 1..];
    assert (done + was[e..])[e := was[e].(mark := false)] == done + [was[e].(mark := false)] + was[e + 1..];
  }

  ghost function StaleBelow(jar: seq<Whole>, i: nat, now: uint, exiting: bool): set<int>
    requires i <= |jar|
  {
    set k | 0 <= k < i && Stale(jar[k], now, exiting)
  }

  lemma StaleStep(jar: seq<Whole>, i: nat, now: uint, exiting: bool)
    requires i < |jar|
    ensures |StaleBelow(jar, i + 1, now, exiting)|
         == |StaleBelow(jar, i, now, exiting)| + if Stale(jar[i], now, exiting) then 1 else 0
  {
    var before, after := StaleBelow(jar, i, now, exiting), StaleBelow(jar, i + 1, now, exiting);
    assert after == if Stale(jar[i], now, exiting) then before + {i} else before;
  }

  lemma FoundNothing(jar: seq<Whole>, wanted: Whole -> bool)
    requires jar == []
    ensures Found(jar, wanted) == []
  {
  }

  /** The next cookie of a lookup is added if it matches. */
  lemma FoundNext(jar: seq<Whole>, i: nat, wanted: Whole -> bool)
    requires i < |jar|
    ensures Found(jar[..i + 1], wanted) ==
              if wanted(jar[i]) then Apply(Found(jar[..i], wanted), Op.Add(jar[i])) else Found(jar[..i], wanted)
  {
    hide Added;
    var m := Matching(jar[..i], wanted);
    assert jar[..i + 1][..i] == jar[..i];
    assert (m + [jar[i]])[..|m|] == m && m + [] == m;
  }

  class Jar {
    var c: array<Whole>
    var nc: nat
    var dirty: bool

    ghost predicate Valid()
      reads this, c
    {
      nc <= c.Length && Settled(c[..nc])
    }

    ghost function Contents(): seq<Whole>
      requires Valid()
      reads this, c
    {
      c[..nc]
    }

    constructor ()
      ensures Valid() && fresh(c) && Contents() == [] && !dirty
    {
      c := new Whole[0];
      nc := 0;
      dirty := false;
    }

    /** A pointer outside the array aborts. */
    method Delete(i: nat)
      requires Valid() && i < nc
      modifies this`dirty, c
      ensures Valid() && dirty && Contents() == Apply(old(Contents()), Op.Delete(i))
    {
      dirty := true;
      ghost var was := c[..nc];
      Mark(i);
      OnlyDeletesSettled(was, c[..nc]);
    }

    /** Delete what has the key of `x` up to its first exact copy, and say where that is. */
    method Supersede(x: Whole) returns (e: nat)
      requires Valid()
      modifies this`dirty, c
      ensures nc == old(nc) && e == FirstExact(old(Contents()), x)
      ensures c[..nc] == SupersededTo(old(Contents()), x, e)
      ensures dirty == (old(dirty) || MatchBefore(old(Contents()), x, e))
    {
      hide Exact, Settled, FirstExact, MatchBefore, Superseded, SupersededTo;
      ghost var was := c[..nc];
      e := 0;
      NoMatch(was, x);
      SupersededNone(was, x);
      while e < nc
        invariant 0 <= e <= nc <= c.Length && c[..nc] == SupersededTo(was, x, e)
        invariant forall i :: 0 <= i < e ==> !Exact(was[i], x)
        invariant dirty == (old(dirty) || MatchBefore(was, x, e))
      {
        var exact := LookAt(x, e, was);
        if exact {
          break;
        }
        e := e + 1;
      }
      FirstExactAt(was, x, e);
    }

    /** Compare one cookie, and delete it if it has the key and is not the copy. */
    method LookAt(x: Whole, e: nat, ghost was: seq<Whole>) returns (exact: bool)
      requires e < nc <= c.Length && |was| == nc && c[..nc] == SupersededTo(was, x, e)
      modifies this`dirty, c
      ensures exact == Exact(was[e], x)
      ensures c[..nc] == SupersededTo(was, x, if exact then e else e + 1)
      ensures dirty == (old(dirty) || (!exact && SameKey(was[e], x)))
      ensures !exact ==> (MatchBefore(was, x, e + 1) <==> MatchBefore(was, x, e) || SameKey(was[e], x))
    {
      hide Exact, SameKey, CookieCmp, ExactCmp, MatchBefore, SupersededTo, Deleted;
      SupersededNext(was, x, e);
      assert c[e] == c[..nc][e];
      Compared(c[e], x);
      MatchStep(was, x, e);
      exact := false;
      if CookieCmp(c[e], x) == 0 {
        if ExactCmp(c[e], x) == 0 {
          return true;
        }
        dirty := true;
        Mark(e);
      }
    }

    /** Set the flag of one cookie. */
    method Mark(i: nat)
      requires i < nc <= c.Length
      modifies c
      ensures c[..nc] == old(c[..nc])[i := Deleted(old(c[i]))]
    {
      c[i] := c[i].(deleted := true);
    }

    /** Room for sixteen more. */
    method Grow()
      requires nc == c.Length
      modifies this`c
      ensures fresh(c) && c.Length == old(c.Length) + 16 && c[..nc] == old(c[..nc])
    {
      var blank: Whole := Cookie(Some([]), Some([]), Some([]), Some([]), None, None, 0, 0, 0, 0, 0, false, false, false);
      var bigger := new Whole[c.Length + 16](_ => blank);
      for i := 0 to nc
        invariant c == old(c) && nc == c.Length && forall k :: 0 <= k < i ==> bigger[k] == c[k]
      {
        bigger[i] := c[i];
      }
      c := bigger;
    }

    method Add(x: Cookie)
      requires Valid()
      modifies this, c
      ensures Valid() && (fresh(c) || c == old(c))
      ensures Contents() == Apply(old(Contents()), Op.Add(x))
      ensures dirty == (old(dirty) || (Complete(x) && var e := FirstExact(old(Contents()), x);
                                       e == old(nc) || MatchBefore(old(Contents()), x, e)))
    {
      hide Settled, FirstExact, Superseded, SupersededTo, MatchBefore;
      ghost var was := c[..nc];
      AddedSettled(was, x);
      if !Complete(x) {
        return;
      }
      var e := Supersede(x);
      if e < nc {
        SupersededNext(was, x, e);
        assert c[e] == c[..nc][e];
        c[e] := c[e].(mark := false);
        PlaceCopy(was, x, c[..nc]);
        return;
      }
      dirty := true;
      SupersededAll(was, x);
      if nc == c.Length {
        Grow();
      }
      c[nc] := x;
      nc := nc + 1;
      assert c[..nc] == Superseded(was, x) + [x];
    }

    /** How many cookies were found stale, whether or not they were deleted before. */
    method Expire(now: uint, exiting: bool) returns (n: nat)
      requires Valid()
      modifies this`dirty, c
      ensures Valid() && Contents() == Apply(old(Contents()), Op.Expire(now, exiting))
      ensures n == |StaleBelow(old(Contents()), nc, now, exiting)|
      ensures dirty == (old(dirty) || n > 0)
    {
      ghost var was := c[..nc];
      hide Settled, Stale;
      n := 0;
      for i := 0 to nc
        invariant forall k :: 0 <= k < nc ==> c[k] == if k < i && Stale(was[k], now, exiting) then Deleted(was[k]) else was[k]
        invariant n == |StaleBelow(was, i, now, exiting)|
        invariant dirty == (old(dirty) || n > 0)
      {
        StaleStep(was, i, now, exiting);
        if Stale(c[i], now, exiting) {
          dirty := true;
          c[i] := c[i].(deleted := true);
          n := n + 1;
        }
      }
      assert c[..nc] == Expired(was, now, exiting);
      OnlyDeletesSettled(was, c[..nc]);
    }

    /** Move the last cookie into each hole, from the end down. */
    method Purge()
      requires Valid()
      modifies this`nc, c
      ensures Valid() && Contents() == Apply(old(Contents()), Op.Purge)
    {
      ghost var was := c[..nc];
      hide Settled;
      var i := nc;
      while i > 0
        invariant 0 <= i <= nc <= c.Length
        invariant Purged(c[..nc], i) == Purged(was, |was|)
        invariant Settled(c[..nc]) && forall k :: i <= k < nc ==> !c[k].deleted
      {
        i := i - 1;
        if c[i].deleted {
          ghost var jar := c[..nc];
          MovedSettled(jar, i);
          nc := nc - 1;
          c[i] := c[nc];
          assert c[..nc] == jar[i := jar[|jar| - 1]][..|jar| - 1];
        }
      }
    }

    /**
     The merging part of a sync with the cookie file (`all` false) or of a write to the
     cookie list (`all` true). Lines come as the cookies they hold.
     */
    method Merge(all: bool, lines: seq<Whole>)
      requires Valid() && Unmarked(lines)
      modifies this, c
      ensures Valid() && (fresh(c) || c == old(c)) && Contents() == Apply(old(Contents()), Op.Merge(all, lines))
    {
      hide Settled, Added, FirstExact;
      ghost var was := c[..nc];
      MarkAll(all);
      ghost var m := c[..nc];
      var k := 0;
      while k < |lines|
        invariant 0 <= k <= |lines| && Valid() && (fresh(c) || c == old(c))
        invariant Contents() == AddedAll(m, lines[..k])
      {
        Add(lines[k]);
        assert lines[..k + 1][..k] == lines[..k];
        k := k + 1;
      }
      assert lines[..k] == lines;
      Sweep();
    }

    method MarkAll(all: bool)
      requires Valid()
      modifies c
      ensures Valid() && Contents() == Marked(old(Contents()), all)
    {
      ghost var was := c[..nc];
      for i := 0 to nc
        invariant forall k :: 0 <= k < nc ==> c[k] == if k < i then was[k].(mark := all || was[k].onDisk) else was[k]
      {
        c[i] := c[i].(mark := all || c[i].onDisk);
      }
      assert c[..nc] == Marked(was, all);
      OnlyDeletesSettled(was, c[..nc]);
    }

    method Sweep()
      requires Valid()
      modifies this`dirty, c
      ensures Valid() && Contents() == Swept(old(Contents()))
    {
      ghost var was := c[..nc];
      for i := 0 to nc
        invariant forall k :: 0 <= k < nc ==> c[k] == if k < i && was[k].mark then Deleted(was[k]) else was[k]
      {
        if c[i].mark {
          dirty := true;
          c[i] := c[i].(deleted := true);
        }
      }
      assert c[..nc] == Swept(was);
      OnlyDeletesSettled(was, c[..nc]);
    }

    /** The subjar of cookies that match, before it is sorted. */
    method Search(wanted: Whole -> bool) returns (j: Jar)
      requires Valid()
      ensures fresh(j) && fresh(j.c) && j.Valid() && j.Contents() == Matching(Contents(), wanted)
    {
      hide Settled, Added, AddedAll, FirstExact, Matching, Found, Apply;
      j := new Jar();
      ghost var jar := c[..nc];
      FoundNothing(jar[..0], wanted);
      for i := 0 to nc
        invariant fresh(j) && fresh(j.c) && j.Valid() && j.Contents() == Found(jar[..i], wanted)
        invariant c[..nc] == jar
      {
        FoundNext(jar, i, wanted);
        if wanted(c[i]) {
          j.Add(c[i]);
        }
      }
      assert jar[..nc] == jar;
      FoundExact(jar, wanted);
    }
  }
}
