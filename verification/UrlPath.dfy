/**
 Canonical URL paths: split at slashes, drop empty and dot components and each
 dot-dot with the component before it, and join again.
 */
module UrlPath {

  /** A rune other than NUL. */
  type Rune = r: int | r != 0 witness 1

  const SLASH: Rune := 47
  const DOT: Rune := 46

  type Part = seq<Rune>

  /** Length of the component that starts at `o`. */
  function PartLength(s: seq<Rune>, o: nat): (n: nat)
    requires o <= |s|
    ensures o + n <= |s| && (forall k :: o <= k < o + n ==> s[k] != SLASH) && (o + n < |s| ==> s[o + n] == SLASH)
    decreases |s| - o
  {
    if o == |s| || s[o] == SLASH then 0 else 1 + PartLength(s, o + 1)
  }

  function PartAt(s: seq<Rune>, o: nat): Part
    requires o <= |s|
  {
    s[o..o + PartLength(s, o)]
  }

  /** The components from offset `o` on; there is always at least one. */
  function Split(s: seq<Rune>, o: nat): (parts: seq<Part>)
    requires o <= |s|
    ensures parts != []
    decreases |s| - o
  {
    var n := PartLength(s, o);
    [PartAt(s, o)] + if o + n == |s| then [] else Split(s, o + n + 1)
  }

  /** The component filter: `kept` so far, `parts` still to be looked at. */
  function Filter(kept: seq<Part>, parts: seq<Part>): seq<Part>
    decreases parts
  {
    if parts == [] then kept
    else if (parts[0] == [] && |parts| > 1) || parts[0] == [DOT] then Filter(kept, parts[1..])
    else if parts[0] == [DOT, DOT] && kept != [] && kept[|kept| - 1] != [DOT, DOT] then
      Filter(kept[..|kept| - 1], parts[1..])
    else Filter(kept + [parts[0]], parts[1..])
  }

  function Join(parts: seq<Part>): seq<Rune> {
    if parts == [] then [] else if |parts| == 1 then parts[0] else parts[0] + [SLASH] + Join(parts[1..])
  }

  predicate Rooted(s: seq<Rune>) {
    s != [] && s[0] == SLASH
  }

  function Canon(s: seq<Rune>): seq<Rune> {
    (if Rooted(s) then [SLASH] else []) + Join(Filter([], Split(s, 0)))
  }

  // ----- the normal form -----

  predicate NoSlash(parts: seq<Part>) {
    forall i :: 0 <= i < |parts| ==> SLASH !in parts[i]
  }

  /** No dot, no dot-dot behind a name, and nothing empty; the last may be exempt from that. */
  predicate Normal(parts: seq<Part>, lastMayBeEmpty: bool) {
    && NoSlash(parts)
    && (forall i :: 0 <= i < |parts| ==> parts[i] != [DOT])
    && (forall i :: 0 <= i < |parts| && parts[i] == [] ==> lastMayBeEmpty && i == |parts| - 1)
    && (forall i, j :: 0 <= i < j < |parts| && parts[j] == [DOT, DOT] ==> parts[i] == [DOT, DOT])
  }

  lemma {:induction false} FilterNormal(kept: seq<Part>, parts: seq<Part>)
    requires Normal(kept, false) && NoSlash(parts)
    ensures Normal(Filter(kept, parts), true)
    decreases parts
  {
    if parts != [] {
      var c, rest := parts[0], parts[1..];
      assert SLASH !in c && NoSlash(rest) by { assert forall i :: 0 <= i < |rest| ==> rest[i] == parts[i + 1]; }
      if (c == [] && |parts| > 1) || c == [DOT] {
        FilterNormal(kept, rest);
      } else if c == [DOT, DOT] && kept != [] && kept[|kept| - 1] != [DOT, DOT] {
        FilterNormal(kept[..|kept| - 1], rest);
      } else if rest == [] {
        assert Filter(kept + [c], rest) == kept + [c];
      } else {
        FilterNormal(kept + [c], rest);
      }
    }
  }

  /** A normal form passes the filter unchanged. */
  lemma {:induction false} FilterFixesNormal(kept: seq<Part>, parts: seq<Part>)
    requires Normal(kept + parts, true)
    ensures Filter(kept, parts) == kept + parts
    decreases parts
  {
    var all := kept + parts;
    if parts == [] {
      assert all == kept;
    } else {
      assert all[|kept|] == parts[0];
      assert kept != [] ==> all[|kept| - 1] == kept[|kept| - 1];
      assert kept + [parts[0]] + parts[1..] == all;
      FilterFixesNormal(kept + [parts[0]], parts[1..]);
    }
  }

  lemma {:induction false} SplitNoSlash(s: seq<Rune>, o: nat)
    requires o <= |s|
    ensures NoSlash(Split(s, o))
    decreases |s| - o
  {
    var n := PartLength(s, o);
    if o + n < |s| {
      SplitNoSlash(s, o + n + 1);
    }
  }

  lemma {:induction false} PartLengthExact(s: seq<Rune>, o: nat, n: nat)
    requires o + n <= |s| && (forall k :: o <= k < o + n ==> s[k] != SLASH) && (o + n < |s| ==> s[o + n] == SLASH)
    ensures PartLength(s, o) == n
    decreases n
  {
    if n > 0 {
      PartLengthExact(s, o + 1, n - 1);
    }
  }

  /** Joining and splitting again gives the components back. */
  lemma {:induction false} SplitJoin(pre: seq<Rune>, parts: seq<Part>)
    requires parts != [] && NoSlash(parts)
    ensures Split(pre + Join(parts), |pre|) == parts
    decreases parts
  {
    hide PartLength, PartAt, Split, Join, NoSlash;
    var s, c := pre + Join(parts), parts[0];
    FirstPart(pre, parts);
    SplitStep(s, |pre|);
    if |parts| == 1 {
      assert parts == [c];
    } else {
      var rest := parts[1..];
      JoinMore(pre, parts);
      SplitJoin(pre + c + [SLASH], rest);
      assert |pre + c + [SLASH]| == |pre| + |c| + 1;
      assert [c] + rest == parts;
    }
  }

  lemma JoinMore(pre: seq<Rune>, parts: seq<Part>)
    requires |parts| > 1 && NoSlash(parts)
    ensures NoSlash(parts[1..]) && pre + Join(parts) == pre + parts[0] + [SLASH] + Join(parts[1..])
  {
    NoSlashTail(parts);
    hide NoSlash;
    Regroup(pre, parts[0], [SLASH], Join(parts[1..]));
  }

  lemma NoSlashTail(parts: seq<Part>)
    requires parts != [] && NoSlash(parts)
    ensures NoSlash(parts[1..])
  {
    var rest := parts[1..];
    assert forall i :: 0 <= i < |rest| ==> rest[i] == parts[i + 1];
  }

  lemma Regroup(a: seq<Rune>, b: seq<Rune>, c: seq<Rune>, d: seq<Rune>)
    ensures a + (b + c + d) == a + b + c + d
  {
  }

  /** The first component is found again behind any prefix. */
  lemma FirstPart(pre: seq<Rune>, parts: seq<Part>)
    requires parts != [] && NoSlash(parts)
    ensures var s := pre + Join(parts);
            && PartLength(s, |pre|) == |parts[0]| && PartAt(s, |pre|) == parts[0]
            && (|pre| + |parts[0]| == |s| <==> |parts| == 1)
  {
    hide Join, PartLength, PartAt;
    var tail := JoinTail(parts);
    assert SLASH !in parts[0];
    PartBehind(pre, parts[0], tail);
  }

  lemma PartBehind(pre: seq<Rune>, c: Part, tail: seq<Rune>)
    requires SLASH !in c && (tail == [] || tail[0] == SLASH)
    ensures var s := pre + (c + tail);
            PartLength(s, |pre|) == |c| && PartAt(s, |pre|) == c && (|pre| + |c| == |s| <==> tail == [])
  {
    hide PartLength;
    var s := pre + (c + tail);
    assert s[|pre|..|pre| + |c|] == c;
    assert forall k :: |pre| <= k < |pre| + |c| ==> s[k] == c[k - |pre|];
    assert tail != [] ==> s[|pre| + |c|] == tail[0];
    PartLengthExact(s, |pre|, |c|);
  }

  /** What follows the first component. */
  lemma JoinTail(parts: seq<Part>) returns (tail: seq<Rune>)
    requires parts != []
    ensures Join(parts) == parts[0] + tail && (tail == [] <==> |parts| == 1) && (tail != [] ==> tail[0] == SLASH)
  {
    tail := if |parts| == 1 then [] else [SLASH] + Join(parts[1..]);
  }

  lemma SplitStep(s: seq<Rune>, o: nat)
    requires o <= |s|
    ensures var n := PartLength(s, o);
            Split(s, o) == [PartAt(s, o)] + if o + n == |s| then [] else Split(s, o + n + 1)
  {
  }

  /** What a canonical path looks like. */
  lemma CanonIsNormal(s: seq<Rune>)
    ensures Normal(Filter([], Split(s, 0)), true)
    ensures Rooted(Canon(s)) == Rooted(s)
  {
    SplitNoSlash(s, 0);
    FilterNormal([], Split(s, 0));
    var parts := Filter([], Split(s, 0));
    if !Rooted(s) && parts != [] {
      assert SLASH !in parts[0];
      if parts[0] != [] {
        assert Join(parts)[0] == parts[0][0];
      }
    }
  }

  /** Canonicalising twice is canonicalising once. */
  lemma CanonIdempotent(s: seq<Rune>)
    ensures Canon(Canon(s)) == Canon(s)
  {
    CanonIsNormal(s);
    var parts := Filter([], Split(s, 0));
    var root := if Rooted(s) then [SLASH] else [];
    var c := Canon(s);
    if parts == [] {
      EmptyAgain(root);
    } else {
      SplitJoin(root, parts);
      assert [] + parts == parts;
      FilterFixesNormal([], parts);
      if Rooted(s) {
        PartLengthExact(c, 0, 0);
        assert Split(c, 0) == [[]] + Split(c, 1);
        assert ([[]] + parts)[1..] == parts;
      }
    }
  }

  /** Splitting the empty paths. */
  lemma SplitEmpty(root: seq<Rune>)
    requires root == [] || root == [SLASH]
    ensures Split(root, |root|) == [[]] && (root != [] ==> Split(root, 0) == [[], []])
  {
    var empty: Part := [];
    PartLengthExact(root, |root|, 0);
    assert PartAt(root, |root|) == empty;
    SplitStep(root, |root|);
    if root != [] {
      PartLengthExact(root, 0, 0);
      assert PartAt(root, 0) == empty;
      SplitStep(root, 0);
    }
  }

  /** The canonical empty path, rooted or not. */
  lemma EmptyAgain(root: seq<Rune>)
    requires root == [] || root == [SLASH]
    ensures Canon(root) == root
  {
    hide Split;
    var empty: Part := [];
    SplitEmpty(root);
    assert Filter([], [empty]) == Filter([empty], []);
    if root != [] {
      assert [empty, empty][1..] == [empty];
      assert Filter([], [empty, empty]) == Filter([], [empty]);
    }
  }

  /** A final slash stays a final slash: the last component is empty afterwards exactly when it was before. */
  lemma {:induction false} FilterKeepsLast(kept: seq<Part>, parts: seq<Part>)
    requires parts != [] && forall i :: 0 <= i < |kept| ==> kept[i] != []
    ensures var r := Filter(kept, parts);
            (r != [] && r[|r| - 1] == []) <==> parts[|parts| - 1] == []
    decreases parts
  {
    var c, rest := parts[0], parts[1..];
    var next := if (c == [] && rest != []) || c == [DOT] then kept
                else if c == [DOT, DOT] && kept != [] && kept[|kept| - 1] != [DOT, DOT] then kept[..|kept| - 1]
                else kept + [c];
    assert Filter(kept, parts) == Filter(next, rest);
    if rest == [] {
      assert Filter(next, rest) == next;
    } else {
      FilterKeepsLast(next, rest);
    }
  }

  // ----- the directory a path leads to -----

  /** So many levels up, then down these names. */
  datatype Place = Place(up: nat, names: seq<Part>)

  function Enter(at: Place, c: Part): Place {
    if c == [] || c == [DOT] then at
    else if c != [DOT, DOT] then at.(names := at.names + [c])
    else if at.names == [] then at.(up := at.up + 1)
    else at.(names := at.names[..|at.names| - 1])
  }

  function Walk(at: Place, parts: seq<Part>): Place
    decreases parts
  {
    if parts == [] then at else Walk(Enter(at, parts[0]), parts[1..])
  }

  lemma {:induction false} WalkLast(at: Place, init: seq<Part>, c: Part)
    ensures Walk(at, init + [c]) == Enter(Walk(at, init), c)
    decreases init
  {
    var all := init + [c];
    if init == [] {
      assert all[1..] == init;
    } else {
      assert all[1..] == init[1..] + [c];
      WalkLast(Enter(at, init[0]), init[1..], c);
    }
  }

  /** In a normal form the names walked down are the trailing components. */
  lemma {:induction false} WalkNormal(kept: seq<Part>)
    requires Normal(kept, false)
    ensures var at := Walk(Place(0, []), kept);
            && (kept == [] || kept[|kept| - 1] == [DOT, DOT] ==> at.names == [])
            && (kept != [] && kept[|kept| - 1] != [DOT, DOT] ==>
                  at.names != [] && Walk(Place(0, []), kept[..|kept| - 1]) == at.(names := at.names[..|at.names| - 1]))
    decreases kept
  {
    if kept != [] {
      var init, c := kept[..|kept| - 1], kept[|kept| - 1];
      assert kept == init + [c];
      WalkNormal(init);
      WalkLast(Place(0, []), init, c);
      var at := Walk(Place(0, []), init);
      if c != [DOT, DOT] {
        assert (at.names + [c])[..|at.names|] == at.names;
      } else if init != [] {
        assert kept[|init| - 1] == init[|init| - 1];
      }
    }
  }

  /** The filter keeps the place a path leads to. */
  lemma {:induction false} FilterKeepsPlace(kept: seq<Part>, parts: seq<Part>)
    requires Normal(kept, false) && NoSlash(parts)
    ensures Walk(Place(0, []), Filter(kept, parts)) == Walk(Walk(Place(0, []), kept), parts)
    decreases parts
  {
    if parts != [] {
      var c, rest := parts[0], parts[1..];
      assert NoSlash(rest) by { assert forall i :: 0 <= i < |rest| ==> rest[i] == parts[i + 1]; }
      if (c == [] && |parts| > 1) || c == [DOT] {
        FilterKeepsPlace(kept, rest);
      } else if c == [DOT, DOT] && kept != [] && kept[|kept| - 1] != [DOT, DOT] {
        WalkNormal(kept);
        FilterKeepsPlace(kept[..|kept| - 1], rest);
      } else {
        WalkLast(Place(0, []), kept, c);
        if rest == [] {
          assert Filter(kept + [c], rest) == kept + [c];
        } else {
          FilterKeepsPlace(kept + [c], rest);
        }
      }
    }
  }

  /** Canonicalisation does not change where a path leads. */
  lemma CanonKeepsPlace(s: seq<Rune>)
    ensures Walk(Place(0, []), Split(Canon(s), 0)) == Walk(Place(0, []), Split(s, 0))
  {
    CanonIsNormal(s);
    SplitNoSlash(s, 0);
    FilterKeepsPlace([], Split(s, 0));
    var parts := Filter([], Split(s, 0));
    var root := if Rooted(s) then [SLASH] else [];
    var c := Canon(s);
    var empty: Part := [];
    if parts != [] {
      SplitJoin(root, parts);
      if Rooted(s) {
        PartLengthExact(c, 0, 0);
        assert Split(c, 0) == [empty] + Split(c, 1);
        assert ([empty] + parts)[1..] == parts;
      }
    } else {
      SplitEmpty(root);
      assert [empty, empty][1..] == [empty] && [empty][1..] == [];
    }
  }

  // ----- the host, which is the first component behind the two slashes -----

  predicate IsDirName(c: Part) {
    c != [] && c != [DOT] && c != [DOT, DOT]
  }

  /** From `d` levels down, some prefix of the path climbs above where it started. */
  predicate Climbs(d: nat, parts: seq<Part>)
    decreases parts
  {
    parts != [] &&
    if parts[0] == [DOT, DOT] then d == 0 || Climbs(d - 1, parts[1..])
    else Climbs(if IsDirName(parts[0]) then d + 1 else d, parts[1..])
  }

  predicate AllNames(kept: seq<Part>) {
    forall i :: 0 <= i < |kept| ==> IsDirName(kept[i])
  }

  /** A path that stays below the host leaves it in place. */
  lemma {:induction false} HostStays(h: Part, kept: seq<Part>, parts: seq<Part>)
    requires IsDirName(h) && AllNames(kept) && !Climbs(|kept|, parts)
    ensures Filter([h] + kept, parts) == [h] + Filter(kept, parts)
    decreases parts
  {
    if parts != [] {
      var c, rest, all := parts[0], parts[1..], [h] + kept;
      if (c == [] && |parts| > 1) || c == [DOT] {
        HostStays(h, kept, rest);
      } else if c == [DOT, DOT] {
        var n := |kept| - 1;
        assert all[|all| - 1] == kept[n] && all[..|all| - 1] == [h] + kept[..n];
        HostStays(h, kept[..n], rest);
      } else if c == [] {
        FilterDone(kept + [c], rest);
        FilterDone(all + [c], rest);
        assert all + [c] == [h] + (kept + [c]);
      } else {
        assert all + [c] == [h] + (kept + [c]);
        HostStays(h, kept + [c], rest);
        FilterName(kept, parts);
        FilterName(all, parts);
      }
    }
  }

  lemma FilterDone(kept: seq<Part>, parts: seq<Part>)
    requires parts == []
    ensures Filter(kept, parts) == kept
  {
  }

  lemma FilterName(kept: seq<Part>, parts: seq<Part>)
    requires parts != [] && IsDirName(parts[0])
    ensures Filter(kept, parts) == Filter(kept + [parts[0]], parts[1..])
  {
  }

  /** A path that climbs above it leads to the same result whatever the host. */
  lemma {:induction false} HostGoes(h: Part, h': Part, kept: seq<Part>, parts: seq<Part>)
    requires IsDirName(h) && IsDirName(h') && AllNames(kept) && Climbs(|kept|, parts)
    ensures Filter([h] + kept, parts) == Filter([h'] + kept, parts)
    decreases parts
  {
    var c, rest, all, all' := parts[0], parts[1..], [h] + kept, [h'] + kept;
    if c == [DOT, DOT] {
      if kept == [] {
        assert all[..0] == [] && all'[..0] == [];
      } else {
        var n := |kept| - 1;
        assert all[|all| - 1] == kept[n] == all'[|all'| - 1];
        assert all[..|all| - 1] == [h] + kept[..n] && all'[..|all'| - 1] == [h'] + kept[..n];
        HostGoes(h, h', kept[..n], rest);
      }
    } else if IsDirName(c) {
      assert all + [c] == [h] + (kept + [c]) && all' + [c] == [h'] + (kept + [c]);
      FilterName(all, parts);
      FilterName(all', parts);
      HostGoes(h, h', kept + [c], rest);
    } else {
      HostGoes(h, h', kept, rest);
    }
  }

  /**
   The host survives, whatever it is, exactly when no prefix of the path behind it climbs above
   it; then the rest is what the path alone would give.
   */
  lemma HostSurvivesIff(rest: seq<Part>)
    ensures (forall h :: IsDirName(h) ==> var r := Filter([], [h] + rest); r != [] && r[0] == h) <==> !Climbs(0, rest)
    ensures !Climbs(0, rest) ==> forall h :: IsDirName(h) ==> Filter([], [h] + rest) == [h] + Filter([], rest)
  {
    hide Filter, Climbs;
    forall h: Part | IsDirName(h) ensures Filter([], [h] + rest) == Filter([h] + [], rest) {
      assert ([h] + rest)[1..] == rest && [] + [h] == [h] && [h] + [] == [h];
      FilterName([], [h] + rest);
    }
    if Climbs(0, rest) {
      var a: Part, b: Part := [97], [98];
      HostGoes(a, b, [], rest);
    } else {
      forall h: Part | IsDirName(h) ensures Filter([h] + [], rest) == [h] + Filter([], rest) {
        HostStays(h, [], rest);
      }
    }
  }
}
