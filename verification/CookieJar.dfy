/**
 The cookie jar of webcookies: a growing array whose cookies are first only marked deleted
 and later purged by moving the last one into the hole.
 */
module CookieJar {
  import opened CookieOrder

  /** `~0`: until the server exits. */
  const SESSION: uint := 0xFFFF_FFFF

  // ----- what the operations do to the array -----

  function Deleted(c: Whole): Whole {
    c.(deleted := true)
  }

  /** The cookies of `jar` with the key of `c` are deleted. */
  function Superseded(jar: seq<Whole>, c: Whole): (r: seq<Whole>)
    ensures |r| == |jar|
    ensures forall i :: 0 <= i < |jar| ==> r[i] == if SameKey(jar[i], c) then Deleted(jar[i]) else jar[i]
  {
    seq(|jar|, i requires 0 <= i < |jar| => if SameKey(jar[i], c) then Deleted(jar[i]) else jar[i])
  }

  /** Position of the first exact copy, or the length of the jar. */
  function FirstExact(jar: seq<Whole>, c: Whole): (e: nat)
    ensures e <= |jar| && (e < |jar| ==> Exact(jar[e], c)) && forall i :: 0 <= i < e ==> !Exact(jar[i], c)
  {
    if jar == [] || Exact(jar[0], c) then 0
    else
      var e := FirstExact(jar[1..], c);
      assert forall i :: 1 <= i < |jar| ==> jar[i] == jar[1..][i - 1];
      e + 1
  }

  function Added(jar: seq<Whole>, c: Cookie): seq<Whole> {
    if !Complete(c) then jar
    else
      var e := FirstExact(jar, c);
      if e == |jar| then Superseded(jar, c) + [c]
      else Superseded(jar[..e], c) + [jar[e].(mark := false)] + jar[e + 1..]
  }

  function Expired(jar: seq<Whole>, now: uint, exiting: bool): (r: seq<Whole>)
    ensures |r| == |jar|
    ensures forall i :: 0 <= i < |jar| ==> r[i] == if Stale(jar[i], now, exiting) then Deleted(jar[i]) else jar[i]
  {
    seq(|jar|, i requires 0 <= i < |jar| => if Stale(jar[i], now, exiting) then Deleted(jar[i]) else jar[i])
  }

  predicate Stale(c: Cookie, now: uint, exiting: bool) {
    c.expire < now || (exiting && c.expire == SESSION)
  }

  /** The purge, with the cookies below `i` still to be looked at. */
  function Purged(jar: seq<Whole>, i: nat): seq<Whole>
    requires i <= |jar|
    decreases i
  {
    if i == 0 then jar
    else if !jar[i - 1].deleted then Purged(jar, i - 1)
    else Purged(jar[i - 1 := jar[|jar| - 1]][..|jar| - 1], i - 1)
  }

  /** Expiry deletes what has expired and, at the exit, what lives until then; all else stays as it was. */
  lemma ExpiredExact(jar: seq<Whole>, now: uint, exiting: bool, i: nat)
    requires i < |jar|
    ensures var r := Expired(jar, now, exiting)[i];
            && (!r.deleted <==> !jar[i].deleted && now <= jar[i].expire && !(exiting && jar[i].expire == 0xFFFF_FFFF))
            && r == jar[i].(deleted := r.deleted)
  {
  }

  /** A cookie without a name, a value, a domain or a path is not added. */
  lemma IncompleteIgnored(jar: seq<Whole>, c: Cookie)
    requires c.name.None? || c.value.None? || c.dom.None? || c.path.None?
    ensures Added(jar, c) == jar
  {
  }

  // ----- what every run keeps -----

  /** Of cookies with one key only the last can be undeleted, and no two are exact copies. */
  ghost predicate Settled(jar: seq<Whole>) {
    forall i, j :: 0 <= i < j < |jar| && SameKey(jar[i], jar[j]) ==> jar[i].deleted && !Exact(jar[i], jar[j])
  }

  ghost predicate AllLive(jar: seq<Whole>) {
    forall i :: 0 <= i < |jar| ==> !jar[i].deleted
  }

  /** The two jars hold the same cookies, but for flags that say more are deleted. */
  ghost predicate OnlyDeletes(jar: seq<Whole>, jar': seq<Whole>) {
    |jar| == |jar'| && forall i :: 0 <= i < |jar| ==>
      jar'[i] == jar[i].(deleted := jar'[i].deleted, mark := jar'[i].mark) && (jar[i].deleted ==> jar'[i].deleted)
  }

  lemma OnlyDeletesSettled(jar: seq<Whole>, jar': seq<Whole>)
    requires Settled(jar) && OnlyDeletes(jar, jar')
    ensures Settled(jar')
  {
    forall i, j | 0 <= i < j < |jar'| && SameKey(jar'[i], jar'[j])
      ensures jar'[i].deleted && !Exact(jar'[i], jar'[j])
    {
      assert SameKey(jar[i], jar[j]);
    }
  }

  /** An exact copy has no undeleted cookie of its key before it. */
  lemma NothingToSupersede(jar: seq<Whole>, c: Whole, e: nat)
    requires Settled(jar) && e < |jar| && Exact(jar[e], c)
    ensures Superseded(jar[..e], c) == jar[..e]
  {
    forall i | 0 <= i < e ensures Superseded(jar[..e], c)[i] == jar[..e][i] {
      if SameKey(jar[i], c) {
        assert SameKey(jar[i], jar[e]);
      }
    }
  }

  /** Adding an exact copy, deleted or not, changes nothing but the mark. */
  lemma AddedCopy(jar: seq<Whole>, c: Whole)
    requires Settled(jar) && FirstExact(jar, c) < |jar|
    ensures var e := FirstExact(jar, c); Added(jar, c) == jar[e := jar[e].(mark := false)]
  {
    hide SameKey, Exact, Settled, FirstExact, Superseded;
    var e := FirstExact(jar, c);
    NothingToSupersede(jar, c, e);
    assert jar[..e] + [jar[e].(mark := false)] + jar[e + 1..] == jar[e := jar[e].(mark := false)];
  }

  lemma AddedSettled(jar: seq<Whole>, c: Cookie)
    requires Settled(jar)
    ensures Settled(Added(jar, c))
  {
    hide Exact, SameKey;
    if Complete(c) {
      var e := FirstExact(jar, c);
      if e < |jar| {
        AddedCopy(jar, c);
        OnlyDeletesSettled(jar, Added(jar, c));
      } else {
        AppendedSettled(jar, c);
      }
    }
  }

  lemma AppendedSettled(jar: seq<Whole>, c: Whole)
    requires Settled(jar) && FirstExact(jar, c) == |jar|
    ensures Settled(Superseded(jar, c) + [c])
  {
    var s := Superseded(jar, c);
    OnlyDeletesSettled(jar, s);
    hide FirstExact;
    assert forall i :: 0 <= i < |jar| ==> (SameKey(s[i], c) <==> SameKey(jar[i], c)) && (Exact(s[i], c) <==> Exact(jar[i], c));
  }

  /** The purge keeps exactly the undeleted cookies, each as often as it was there. */
  lemma {:induction false} PurgedExact(jar: seq<Whole>, i: nat)
    requires i <= |jar| && forall k :: i <= k < |jar| ==> !jar[k].deleted
    ensures AllLive(Purged(jar, i))
    ensures forall x: Whole :: multiset(Purged(jar, i))[x] == if x.deleted then 0 else multiset(jar)[x]
    decreases i
  {
    if i > 0 {
      if !jar[i - 1].deleted {
        PurgedExact(jar, i - 1);
      } else {
        MovedBag(jar, i - 1);
        PurgedExact(jar[i - 1 := jar[|jar| - 1]][..|jar| - 1], i - 1);
      }
    } else {
      AllLiveBag(jar);
    }
  }

  lemma AllLiveBag(jar: seq<Whole>)
    requires AllLive(jar)
    ensures forall x: Whole :: x.deleted ==> multiset(jar)[x] == 0
  {
    forall x: Whole | x.deleted ensures multiset(jar)[x] == 0 {
      assert x !in jar;
    }
  }

  /** Moving the last cookie into a hole takes out the cookie that was there. */
  lemma MovedBag(jar: seq<Whole>, h: nat)
    requires h < |jar|
    ensures multiset(jar) == multiset(jar[h := jar[|jar| - 1]][..|jar| - 1]) + multiset{jar[h]}
  {
    var n := |jar| - 1;
    var moved := jar[h := jar[n]];
    assert moved == moved[..n] + [jar[n]];
    assert multiset(moved) == multiset(jar) - multiset{jar[h]} + multiset{jar[n]};
    assert jar[h] in multiset(jar);
  }

  lemma {:induction false} PurgedSettled(jar: seq<Whole>, i: nat)
    requires i <= |jar| && Settled(jar) && forall k :: i <= k < |jar| ==> !jar[k].deleted
    ensures Settled(Purged(jar, i))
    decreases i
  {
    if i > 0 {
      if !jar[i - 1].deleted {
        PurgedSettled(jar, i - 1);
      } else {
        var n := |jar| - 1;
        var less := jar[i - 1 := jar[n]][..n];
        MovedSettled(jar, i - 1);
        PurgedSettled(less, i - 1);
      }
    }
  }

  /** Moving the last cookie down past undeleted ones. */
  lemma MovedSettled(jar: seq<Whole>, h: nat)
    requires Settled(jar) && h < |jar| && jar[h].deleted && forall k :: h < k < |jar| ==> !jar[k].deleted
    ensures Settled(jar[h := jar[|jar| - 1]][..|jar| - 1])
  {
    var n := |jar| - 1;
    var less := jar[h := jar[n]][..n];
    assert forall j :: h < j < n ==> !SameKey(jar[j], jar[n]);
    forall i, j | 0 <= i < j < n && SameKey(less[i], less[j])
      ensures less[i].deleted && !Exact(less[i], less[j])
    {
      if j == h {
        assert SameKey(jar[i], jar[n]);
      } else if i != h {
        assert SameKey(jar[i], jar[j]);
      }
    }
  }

  // ----- merging with a list of cookies -----

  /** Before a merge: mark every cookie, or those that were on disk. */
  function Marked(jar: seq<Whole>, all: bool): (r: seq<Whole>)
    ensures |r| == |jar| && forall i :: 0 <= i < |jar| ==> r[i] == jar[i].(mark := all || jar[i].onDisk)
  {
    seq(|jar|, i requires 0 <= i < |jar| => jar[i].(mark := all || jar[i].onDisk))
  }

  function AddedAll(jar: seq<Whole>, lines: seq<Whole>): seq<Whole> {
    if lines == [] then jar else Added(AddedAll(jar, lines[..|lines| - 1]), lines[|lines| - 1])
  }

  /** After the merge: cookies still marked were not listed. */
  function Swept(jar: seq<Whole>): (r: seq<Whole>)
    ensures |r| == |jar| && forall i :: 0 <= i < |jar| ==> r[i] == if jar[i].mark then Deleted(jar[i]) else jar[i]
  {
    seq(|jar|, i requires 0 <= i < |jar| => if jar[i].mark then Deleted(jar[i]) else jar[i])
  }

  function Merged(jar: seq<Whole>, all: bool, lines: seq<Whole>): seq<Whole> {
    Swept(AddedAll(Marked(jar, all), lines))
  }

  ghost predicate HasCopy(jar: seq<Whole>, c: Whole) {
    exists i :: 0 <= i < |jar| && Exact(jar[i], c)
  }

  /** A line of which neither the jar nor an earlier line has a copy. */
  ghost predicate News(jar: seq<Whole>, lines: seq<Whole>, j: nat)
    requires j < |lines|
  {
    !HasCopy(jar, lines[j]) && !HasCopy(lines[..j], lines[j])
  }

  /** The news among the lines, each deleted if later news has its key. */
  ghost function NewEntries(jar: seq<Whole>, lines: seq<Whole>): seq<Whole> {
    if lines == [] then []
    else
      var n := |lines| - 1;
      var before := NewEntries(jar, lines[..n]);
      if News(jar, lines, n) then Superseded(before, lines[n]) + [lines[n]] else before
  }

  /** Some line without a copy in the jar takes the place of `c`. */
  ghost predicate Replaced(jar: seq<Whole>, lines: seq<Whole>, c: Whole) {
    exists j :: 0 <= j < |lines| && SameKey(c, lines[j]) && !HasCopy(jar, lines[j])
  }

  /** What the lines do to a cookie that was in the jar. */
  ghost function After(jar: seq<Whole>, lines: seq<Whole>, c: Whole): Whole {
    c.(deleted := c.deleted || Replaced(jar, lines, c), mark := c.mark && !HasCopy(lines, c))
  }

  /** Copies of one cookie are copies of each other, and have one key. */
  lemma ExactJoins(a: Whole, b: Whole, c: Whole)
    requires Exact(a, b)
    ensures Exact(b, a) && (Exact(a, c) <==> Exact(b, c)) && (Exact(c, a) <==> Exact(c, b))
    ensures (SameKey(a, c) <==> SameKey(b, c)) && (SameKey(c, a) <==> SameKey(c, b))
  {
  }

  lemma CopyOfCopy(s: seq<Whole>, a: Whole, b: Whole)
    requires Exact(a, b)
    ensures HasCopy(s, a) <==> HasCopy(s, b)
  {
    forall i | 0 <= i < |s| ensures Exact(s[i], a) <==> Exact(s[i], b) {
      ExactJoins(a, b, s[i]);
    }
  }

  lemma HasCopyLast(s: seq<Whole>, f: Whole, c: Whole)
    ensures HasCopy(s + [f], c) <==> HasCopy(s, c) || Exact(f, c)
  {
    var all := s + [f];
    assert all[|s|] == f;
    assert forall i :: 0 <= i < |s| ==> all[i] == s[i];
  }

  lemma ReplacedLast(jar: seq<Whole>, s: seq<Whole>, f: Whole, c: Whole)
    ensures Replaced(jar, s + [f], c) <==> Replaced(jar, s, c) || (SameKey(c, f) && !HasCopy(jar, f))
  {
    hide HasCopy, SameKey;
    var all := s + [f];
    assert all[|s|] == f;
    assert forall i :: 0 <= i < |s| ==> all[i] == s[i];
  }

  /** A line that repeats one replaces nothing more. */
  lemma RepeatReplaces(jar: seq<Whole>, s: seq<Whole>, f: Whole, c: Whole)
    requires HasCopy(jar, f) || HasCopy(s, f)
    ensures Replaced(jar, s + [f], c) <==> Replaced(jar, s, c)
  {
    ReplacedLast(jar, s, f, c);
    if !HasCopy(jar, f) {
      var j :| 0 <= j < |s| && Exact(s[j], f);
      ExactJoins(s[j], f, c);
      CopyOfCopy(jar, s[j], f);
    }
  }

  ghost predicate Unmarked(lines: seq<Whole>) {
    forall j :: 0 <= j < |lines| ==> !lines[j].mark
  }

  /** The jar after all lines: the old cookies as `After` says, then the news. */
  ghost predicate Shape(jar: seq<Whole>, lines: seq<Whole>, r: seq<Whole>) {
    && Settled(r) && |r| >= |jar| && r[|jar|..] == NewEntries(jar, lines) && Unmarked(r[|jar|..])
    && (forall i :: 0 <= i < |jar| ==> r[i] == After(jar, lines, jar[i]))
    && (forall c: Whole :: HasCopy(r, c) <==> HasCopy(jar, c) || HasCopy(lines, c))
  }

  /** A line of which there is a copy. */
  lemma ShapeCopy(jar: seq<Whole>, s: seq<Whole>, f: Whole, r: seq<Whole>)
    requires Shape(jar, s, r) && HasCopy(r, f)
    ensures Shape(jar, s + [f], Added(r, f))
  {
    hide Settled, Added, NewEntries, SameKey, Exact, HasCopy, Replaced, FirstExact;
    var e, r' := FirstExact(r, f), Added(r, f);
    CopyFound(r, f);
    AddedSettled(r, f);
    AddedCopy(r, f);
    assert r'[|jar|..] == r[|jar|..] by { if e >= |jar| { assert r[e] == r[|jar|..][e - |jar|]; } }
    NoNews(jar, s, f);
    forall i | 0 <= i < |jar| ensures r'[i] == After(jar, s + [f], jar[i]) {
      RepeatReplaces(jar, s, f, jar[i]);
      HasCopyLast(s, f, jar[i]);
      OnlyCopy(r, f, e, i);
      ExactJoinsFlags(r[i], jar[i], f);
    }
    forall c: Whole ensures HasCopy(r', c) <==> HasCopy(jar, c) || HasCopy(s + [f], c) {
      HasCopyLast(s, f, c);
      SameCopies(r, r', c);
      if Exact(f, c) { CopyOfCopy(r, f, c); }
    }
  }

  lemma CopyFound(r: seq<Whole>, f: Whole)
    ensures HasCopy(r, f) <==> FirstExact(r, f) < |r|
  {
  }

  lemma NoNews(jar: seq<Whole>, s: seq<Whole>, f: Whole)
    requires HasCopy(jar, f) || HasCopy(s, f)
    ensures NewEntries(jar, s + [f]) == NewEntries(jar, s)
  {
    assert (s + [f])[..|s|] == s;
  }

  lemma OnlyCopy(r: seq<Whole>, f: Whole, e: nat, i: nat)
    requires Settled(r) && i < |r| && e < |r| && Exact(r[e], f)
    ensures Exact(r[i], f) <==> i == e
  {
    if Exact(r[i], f) {
      ExactJoins(r[i], f, r[e]);
      ExactJoins(r[e], f, r[i]);
    }
  }

  /** Copies are recognised whatever the flags say, in either direction. */
  lemma ExactJoinsFlags(a: Whole, b: Whole, f: Whole)
    requires a == b.(deleted := a.deleted, mark := a.mark)
    ensures (Exact(a, f) <==> Exact(f, b)) && (SameKey(a, f) <==> SameKey(b, f))
  {
  }

  lemma SameCopies(r: seq<Whole>, r': seq<Whole>, c: Whole)
    requires OnlyDeletes(r, r')
    ensures HasCopy(r, c) <==> HasCopy(r', c)
  {
    forall i | 0 <= i < |r| ensures Exact(r[i], c) <==> Exact(r'[i], c) {
      ExactJoinsFlags(r'[i], r[i], c);
      ExactJoinsFlags(r[i], r[i], c);
    }
  }

  /** A line of which there is none. */
  lemma ShapeNews(jar: seq<Whole>, s: seq<Whole>, f: Whole, r: seq<Whole>)
    requires Shape(jar, s, r) && !HasCopy(r, f) && !f.mark
    ensures Shape(jar, s + [f], Added(r, f))
  {
    hide Settled, NewEntries, SameKey, Exact, HasCopy, Replaced, FirstExact, Superseded;
    var k := Superseded(r, f);
    var r' := k + [f];
    CopyFound(r, f);
    AddedSettled(r, f);
    NewsLast(jar, s, f, r);
    forall i | 0 <= i < |jar| ensures r'[i] == After(jar, s + [f], jar[i]) {
      ReplacedLast(jar, s, f, jar[i]);
      HasCopyLast(s, f, jar[i]);
      NoCopyAt(r, f, i);
      ExactJoinsFlags(r[i], jar[i], f);
    }
    forall c: Whole ensures HasCopy(r', c) <==> HasCopy(jar, c) || HasCopy(s + [f], c) {
      HasCopyLast(s, f, c);
      HasCopyLast(k, f, c);
      SameCopies(r, k, c);
    }
  }

  lemma NewsLast(jar: seq<Whole>, s: seq<Whole>, f: Whole, r: seq<Whole>)
    requires |r| >= |jar| && r[|jar|..] == NewEntries(jar, s) && Unmarked(r[|jar|..])
    requires !HasCopy(jar, f) && !HasCopy(s, f) && !f.mark
    ensures var r' := Superseded(r, f) + [f];
            r'[|jar|..] == NewEntries(jar, s + [f]) && Unmarked(r'[|jar|..])
  {
    hide HasCopy, SameKey;
    var k := Superseded(r, f);
    assert (s + [f])[..|s|] == s;
    assert (k + [f])[|jar|..] == k[|jar|..] + [f];
    assert k[|jar|..] == Superseded(r[|jar|..], f);
  }

  lemma NoCopyAt(r: seq<Whole>, f: Whole, i: nat)
    requires !HasCopy(r, f) && i < |r|
    ensures !Exact(r[i], f)
  {
  }

  lemma {:induction false} AddedAllShape(jar: seq<Whole>, lines: seq<Whole>)
    requires Settled(jar) && Unmarked(lines)
    ensures Shape(jar, lines, AddedAll(jar, lines))
    decreases lines
  {
    if lines == [] {
      assert forall c: Whole :: !HasCopy(lines, c) && !Replaced(jar, lines, c);
    } else {
      var n := |lines| - 1;
      var s, f := lines[..n], lines[n];
      assert lines == s + [f];
      AddedAllShape(jar, s);
      var r := AddedAll(jar, s);
      hide Shape;
      if HasCopy(r, f) {
        ShapeCopy(jar, s, f, r);
      } else {
        ShapeNews(jar, s, f, r);
      }
    }
  }

  lemma {:induction false} NewEntriesFlags(jar: seq<Whole>, jar': seq<Whole>, lines: seq<Whole>)
    requires OnlyDeletes(jar, jar')
    ensures NewEntries(jar, lines) == NewEntries(jar', lines)
    decreases lines
  {
    if lines != [] {
      NewEntriesFlags(jar, jar', lines[..|lines| - 1]);
      SameCopies(jar, jar', lines[|lines| - 1]);
    }
  }

  lemma ReplacedFlags(jar: seq<Whole>, jar': seq<Whole>, lines: seq<Whole>, c: Whole, c': Whole)
    requires OnlyDeletes(jar, jar') && c' == c.(deleted := c'.deleted, mark := c'.mark)
    ensures Replaced(jar, lines, c) <==> Replaced(jar', lines, c')
  {
    hide HasCopy;
    forall j | 0 <= j < |lines| ensures HasCopy(jar, lines[j]) <==> HasCopy(jar', lines[j]) {
      SameCopies(jar, jar', lines[j]);
    }
  }

  lemma CopyFlags(s: seq<Whole>, c: Whole, c': Whole)
    requires c' == c.(deleted := c'.deleted, mark := c'.mark)
    ensures HasCopy(s, c) <==> HasCopy(s, c')
  {
    assert Exact(c, c');
    CopyOfCopy(s, c, c');
  }

  /** Whether a cookie that was in the jar is deleted after the merge. */
  ghost predicate Gone(jar: seq<Whole>, all: bool, lines: seq<Whole>, c: Whole) {
    c.deleted || Replaced(jar, lines, c) || ((all || c.onDisk) && !HasCopy(lines, c))
  }

  /** The merge, cookie by cookie, for any jar a run can reach and any lines, repeated or not. */
  lemma MergedExact(jar: seq<Whole>, all: bool, lines: seq<Whole>)
    requires Settled(jar) && Unmarked(lines)
    ensures var r := Merged(jar, all, lines);
            && Settled(r) && |r| >= |jar| && r[|jar|..] == NewEntries(jar, lines)
            && forall i :: 0 <= i < |jar| ==> r[i] == jar[i].(deleted := Gone(jar, all, lines, jar[i]), mark := r[i].mark)
  {
    hide Settled, AddedAll, NewEntries, HasCopy, Replaced, Exact, SameKey;
    var m := Marked(jar, all);
    OnlyDeletesSettled(jar, m);
    AddedAllShape(m, lines);
    var a := AddedAll(m, lines);
    var r := Swept(a);
    OnlyDeletesSettled(a, r);
    NewEntriesFlags(jar, m, lines);
    assert r[|jar|..] == a[|jar|..] by {
      forall i | |jar| <= i < |a| ensures r[i] == a[i] {
        assert a[i] == a[|m|..][i - |m|];
      }
    }
    forall i | 0 <= i < |jar|
      ensures r[i] == jar[i].(deleted := Gone(jar, all, lines, jar[i]), mark := r[i].mark)
    {
      ReplacedFlags(jar, m, lines, jar[i], m[i]);
      CopyFlags(lines, jar[i], m[i]);
    }
  }

  ghost predicate HasLiveCopy(jar: seq<Whole>, c: Whole) {
    exists i :: 0 <= i < |jar| && !jar[i].deleted && Exact(jar[i], c)
  }

  ghost predicate DistinctKeys(lines: seq<Whole>) {
    forall i, j :: 0 <= i < j < |lines| ==> !SameKey(lines[i], lines[j])
  }

  lemma {:induction false} NewEntriesCopies(jar: seq<Whole>, lines: seq<Whole>)
    requires AllLive(lines) && DistinctKeys(lines)
    ensures AllLive(NewEntries(jar, lines))
    ensures forall k :: 0 <= k < |NewEntries(jar, lines)| ==> NewEntries(jar, lines)[k] in lines
    ensures forall j :: 0 <= j < |lines| && !HasCopy(jar, lines[j]) ==> lines[j] in NewEntries(jar, lines)
    decreases lines
  {
    if lines != [] {
      var n := |lines| - 1;
      var s, f := lines[..n], lines[n];
      NewEntriesCopies(jar, s);
      var b := NewEntries(jar, s);
      assert !HasCopy(s, f);
      assert Superseded(b, f) == b by {
        forall k | 0 <= k < |b| ensures !SameKey(b[k], f) {
          var j :| 0 <= j < n && b[k] == lines[j];
        }
      }
    }
  }

  /** A listed cookie is in the jar afterwards unless a deleted copy of it was there before. */
  lemma ListedUnlessDeleted(jar: seq<Whole>, all: bool, lines: seq<Whole>, j: nat)
    requires Settled(jar) && Unmarked(lines) && AllLive(lines) && DistinctKeys(lines) && j < |lines|
    ensures HasLiveCopy(Merged(jar, all, lines), lines[j])
       <==> !exists i :: 0 <= i < |jar| && jar[i].deleted && Exact(jar[i], lines[j])
  {
    hide Merged, NewEntries, Exact, SameKey, Settled, DistinctKeys, AllLive, Unmarked, Gone;
    var f := lines[j];
    MergedExact(jar, all, lines);
    if HasCopy(jar, f) {
      var e :| 0 <= e < |jar| && Exact(jar[e], f);
      ListedWithCopy(jar, all, lines, j, e);
    } else {
      NewEntriesCopies(jar, lines);
      ListedAsNews(jar, Merged(jar, all, lines), NewEntries(jar, lines), f);
    }
  }

  lemma ListedWithCopy(jar: seq<Whole>, all: bool, lines: seq<Whole>, j: nat, e: nat)
    requires Settled(jar) && Unmarked(lines) && DistinctKeys(lines) && j < |lines|
    requires e < |jar| && Exact(jar[e], lines[j])
    ensures HasLiveCopy(Merged(jar, all, lines), lines[j]) <==> !jar[e].deleted
    ensures (exists i :: 0 <= i < |jar| && jar[i].deleted && Exact(jar[i], lines[j])) <==> jar[e].deleted
  {
    hide Merged, NewEntries, Exact, SameKey, Settled, DistinctKeys, Unmarked, Gone;
    var f, r := lines[j], Merged(jar, all, lines);
    MergedExact(jar, all, lines);
    ExactJoinsFlags(r[e], jar[e], f);
    ExactJoinsFlags(jar[e], jar[e], f);
    KeptUnlessDeleted(jar, all, lines, j, e);
    forall i | 0 <= i < |r| ensures Exact(r[i], f) <==> i == e { OnlyCopy(r, f, e, i); }
    forall i | 0 <= i < |jar| ensures Exact(jar[i], f) <==> i == e { OnlyCopy(jar, f, e, i); }
  }

  lemma ListedAsNews(jar: seq<Whole>, r: seq<Whole>, news: seq<Whole>, f: Whole)
    requires |r| >= |jar| && r[|jar|..] == news && AllLive(news) && f in news && !HasCopy(jar, f)
    ensures HasLiveCopy(r, f) && !exists i :: 0 <= i < |jar| && jar[i].deleted && Exact(jar[i], f)
  {
    var k :| 0 <= k < |news| && news[k] == f;
    assert r[|jar| + k] == news[k];
    assert Exact(r[|jar| + k], f);
  }

  lemma KeptUnlessDeleted(jar: seq<Whole>, all: bool, lines: seq<Whole>, j: nat, e: nat)
    requires DistinctKeys(lines) && j < |lines| && e < |jar| && Exact(jar[e], lines[j])
    ensures Gone(jar, all, lines, jar[e]) <==> jar[e].deleted
  {
    var f := lines[j];
    ExactJoins(jar[e], f, f);
    assert HasCopy(lines, jar[e]);
    forall i | 0 <= i < |lines| && SameKey(jar[e], lines[i]) ensures HasCopy(jar, lines[i]) {
      ExactJoins(jar[e], f, lines[i]);
      assert SameKey(lines[i], f) && SameKey(f, lines[i]);
    }
  }

  /** After an edit of the whole list nothing else is left in the jar. */
  lemma EditedIsListed(jar: seq<Whole>, lines: seq<Whole>, c: Whole)
    requires Settled(jar) && Unmarked(lines) && AllLive(lines) && DistinctKeys(lines)
    requires HasLiveCopy(Merged(jar, true, lines), c)
    ensures HasCopy(lines, c)
  {
    var r := Merged(jar, true, lines);
    MergedExact(jar, true, lines);
    NewEntriesCopies(jar, lines);
    hide Merged, NewEntries;
    var i :| 0 <= i < |r| && !r[i].deleted && Exact(r[i], c);
    if i < |jar| {
      assert HasCopy(lines, jar[i]);
      CopyFlags(lines, jar[i], r[i]);
      CopyOfCopy(lines, r[i], c);
    } else {
      assert r[i] == r[|jar|..][i - |jar|];
      var j :| 0 <= j < |lines| && lines[j] == r[i];
    }
  }

  // ----- runs -----

  datatype Op =
    | Add(c: Cookie)
    | Delete(i: nat)
    | Expire(now: uint, exiting: bool)
    | Purge
    | Merge(all: bool, lines: seq<Whole>)

  /** An index outside the jar aborts the server, so the jar stays as it is. */
  function Apply(jar: seq<Whole>, op: Op): seq<Whole> {
    match op
    case Add(c) => Added(jar, c)
    case Delete(i) => if i < |jar| then jar[i := Deleted(jar[i])] else jar
    case Expire(now, exiting) => Expired(jar, now, exiting)
    case Purge => Purged(jar, |jar|)
    case Merge(all, lines) => Merged(jar, all, lines)
  }

  function Run(ops: seq<Op>): seq<Whole> {
    if ops == [] then [] else Apply(Run(ops[..|ops| - 1]), ops[|ops| - 1])
  }

  /** Lines come from `addtojar`, which clears the internal flags. */
  ghost predicate Sane(op: Op) {
    op.Merge? ==> Unmarked(op.lines)
  }

  /** In every state any run reaches, two undeleted cookies never share a key. */
  lemma {:induction false} RunSettled(ops: seq<Op>)
    requires forall k :: 0 <= k < |ops| ==> Sane(ops[k])
    ensures Settled(Run(ops))
    ensures forall i, j :: 0 <= i < j < |Run(ops)| && !Run(ops)[i].deleted && !Run(ops)[j].deleted ==>
              !SameKey(Run(ops)[i], Run(ops)[j])
    decreases ops
  {
    if ops != [] {
      var jar, op := Run(ops[..|ops| - 1]), ops[|ops| - 1];
      RunSettled(ops[..|ops| - 1]);
      match op {
        case Add(c) => AddedSettled(jar, c);
        case Delete(i) => if i < |jar| { OnlyDeletesSettled(jar, Apply(jar, op)); }
        case Expire(_, _) => OnlyDeletesSettled(jar, Apply(jar, op));
        case Purge => PurgedSettled(jar, |jar|);
        case Merge(all, lines) => MergedExact(jar, all, lines);
      }
    }
  }

  /** A cookie just added is in force exactly when no deleted copy of it waits to be purged. */
  lemma AddedInForce(jar: seq<Whole>, c: Whole)
    requires Settled(jar) && !c.deleted
    ensures HasLiveCopy(Added(jar, c), c) <==> !exists i :: 0 <= i < |jar| && jar[i].deleted && Exact(jar[i], c)
  {
    var e := FirstExact(jar, c);
    var r := Added(jar, c);
    if e < |jar| {
      AddedCopy(jar, c);
      AddedSettled(jar, c);
      assert Exact(r[e], c);
      forall i | 0 <= i < |jar| ensures (Exact(r[i], c) <==> i == e) && (Exact(jar[i], c) <==> i == e) {
        OnlyCopy(r, c, e, i);
        OnlyCopy(jar, c, e, i);
      }
    } else {
      assert r[|jar|] == c && Exact(c, c);
    }
  }

  /** Setting a cookie again right after deleting it leaves it deleted. */
  lemma AddAfterDeleteIsLost(c: Whole)
    requires !c.deleted
    ensures var r := Run([Add(c), Delete(0), Add(c)]);
            |r| == 1 && r[0].deleted && !HasLiveCopy(r, c)
  {
    var ops := [Add(c), Delete(0), Add(c)];
    assert ops[..2] == [Add(c), Delete(0)] && ops[..2][..1] == [Add(c)] && ops[..2][..1][..0] == [];
    assert Run([]) == [] && FirstExact([], c) == 0;
    assert Run([Add(c)]) == [c];
    var d := Run(ops[..2]);
    assert d == [Deleted(c)];
    assert Exact(d[0], c) && FirstExact(d, c) == 0;
    assert Settled(d);
    AddedCopy(d, c);
  }

  // ----- lookup -----

  function Matching(jar: seq<Whole>, wanted: Whole -> bool): seq<Whole> {
    if jar == [] then []
    else
      var n := |jar| - 1;
      Matching(jar[..n], wanted) + if wanted(jar[n]) then [jar[n]] else []
  }

  /** The subjar of a lookup is built by adding the matching cookies one by one. */
  function Found(jar: seq<Whole>, wanted: Whole -> bool): seq<Whole> {
    AddedAll([], Matching(jar, wanted))
  }

  lemma {:induction false} MatchingFrom(jar: seq<Whole>, wanted: Whole -> bool, c: Whole)
    ensures c in Matching(jar, wanted) <==> c in jar && wanted(c)
    decreases jar
  {
    if jar != [] {
      var n := |jar| - 1;
      MatchingFrom(jar[..n], wanted, c);
      assert jar == jar[..n] + [jar[n]];
    }
  }

  /** Adding them never drops or replaces one: the subjar is the filtered jar, in order. */
  lemma {:induction false} FoundExact(jar: seq<Whole>, wanted: Whole -> bool)
    requires Settled(jar)
    ensures Found(jar, wanted) == Matching(jar, wanted)
    decreases jar
  {
    if jar != [] {
      var n := |jar| - 1;
      var init, c := jar[..n], jar[n];
      FoundExact(init, wanted);
      var m := Matching(init, wanted);
      if wanted(c) {
        assert (m + [c])[..|m|] == m;
        forall k | 0 <= k < |m| ensures !Exact(m[k], c) && (SameKey(m[k], c) ==> m[k].deleted) {
          MatchingFrom(init, wanted, m[k]);
          var i :| 0 <= i < n && jar[i] == m[k];
        }
        assert Superseded(m, c) == m;
        assert FirstExact(m, c) == |m|;
      } else {
        assert Matching(jar, wanted) == m;
      }
    }
  }

  /** The subjar shows only undeleted cookies exactly when no deleted one matches. */
  lemma FoundLive(jar: seq<Whole>, wanted: Whole -> bool)
    requires Settled(jar)
    ensures AllLive(Found(jar, wanted)) <==> forall c :: c in jar && wanted(c) ==> !c.deleted
  {
    FoundExact(jar, wanted);
    var m := Matching(jar, wanted);
    forall c: Whole ensures c in m <==> c in jar && wanted(c) { MatchingFrom(jar, wanted, c); }
    if AllLive(m) {
      forall c | c in jar && wanted(c) ensures !c.deleted {
        assert c in m;
      }
    }
  }
}
