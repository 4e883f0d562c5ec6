/**
 The two cookie comparisons of webcookies. Cookies are sorted, and found again, by
 `cookiecmp`; `exactcookiecmp` goes on to compare everything a cookie file holds.
 */
module CookieOrder {
  import opened Wrappers
  import opened Bytes

  type uint = x: int | 0 <= x < 0x1_0000_0000
  type cint = x: int | -0x8000_0000 <= x < 0x8000_0000

  datatype Cookie = Cookie(
    name: Option<Name>, value: Option<Name>, dom: Option<Name>, path: Option<Name>,
    version: Option<Name>, comment: Option<Name>,
    expire: uint, secure: cint, explicitDom: cint, explicitPath: cint, netscapeStyle: cint,
    deleted: bool, mark: bool, onDisk: bool)

  predicate Complete(c: Cookie) {
    c.name.Some? && c.value.Some? && c.dom.Some? && c.path.Some?
  }

  /** A cookie `addcookie` accepts. */
  type Whole = c: Cookie | Complete(c)
    witness Cookie(Some([]), Some([]), Some([]), Some([]), None, None, 0, 0, 0, 0, 0, false, false, false)

  // ----- strings -----

  /** `strcmp`, from the first byte on. */
  function StrCmp(a: seq<byte>, b: seq<byte>): int {
    if a == [] && b == [] then 0
    else if a == [] then -1
    else if b == [] then 1
    else if a[0] != b[0] then if a[0] > b[0] then 1 else -1
    else StrCmp(a[1..], b[1..])
  }

  function Lower(c: byte): byte {
    if 65 <= c <= 90 then c + 32 else c
  }

  /** Letters lose their case and nothing else changes. */
  lemma LowerExact(c: byte)
    ensures 'A' as int <= c <= 'Z' as int ==> Lower(c) == c - 'A' as int + 'a' as int
    ensures !('A' as int <= c <= 'Z' as int) ==> Lower(c) == c
  {
  }

  function Fold(s: seq<byte>): (r: seq<byte>)
    ensures |r| == |s| && forall i :: 0 <= i < |s| ==> r[i] == Lower(s[i])
  {
    seq(|s|, i requires 0 <= i < |s| => Lower(s[i]))
  }

  /**
   `cistrcmp`. Where the first string ends it returns the negated `char` of the second,
   which is signed: behind a common prefix a byte from 128 up makes that positive.
   */
  function CiStrCmp(a: seq<byte>, b: seq<byte>): int {
    if a == [] then if b == [] then 0 else if b[0] < 128 then -b[0] else 256 - b[0]
    else if b == [] then Lower(a[0])
    else if Lower(a[0]) != Lower(b[0]) then Lower(a[0]) - Lower(b[0])
    else CiStrCmp(a[1..], b[1..])
  }

  lemma {:induction false} StrCmpZero(a: seq<byte>, b: seq<byte>)
    ensures StrCmp(a, b) == 0 <==> a == b
    ensures StrCmp(a, b) == -StrCmp(b, a)
    decreases a
  {
    if a != [] && b != [] {
      StrCmpZero(a[1..], b[1..]);
      assert a == [a[0]] + a[1..] && b == [b[0]] + b[1..];
    }
  }

  lemma {:induction false} StrCmpTransitive(a: seq<byte>, b: seq<byte>, c: seq<byte>)
    requires StrCmp(a, b) <= 0 && StrCmp(b, c) <= 0
    ensures StrCmp(a, c) <= 0
    decreases a
  {
    if a != [] && b != [] && c != [] && a[0] == b[0] == c[0] {
      StrCmpTransitive(a[1..], b[1..], c[1..]);
    }
  }

  lemma FoldTail(a: seq<byte>)
    requires a != []
    ensures Fold(a) == [Lower(a[0])] + Fold(a[1..])
  {
  }

  lemma {:induction false} CiStrCmpZero(a: Name, b: Name)
    ensures CiStrCmp(a, b) == 0 <==> Fold(a) == Fold(b)
    decreases a
  {
    if a == [] || b == [] {
      assert |Fold(a)| == |a| && |Fold(b)| == |b|;
    } else {
      CiStrCmpZero(a[1..], b[1..]);
      FoldTail(a);
      FoldTail(b);
      assert Fold(a)[1..] == Fold(a[1..]) && Fold(b)[1..] == Fold(b[1..]);
    }
  }

  /** One string goes on, behind all of the other, with a byte that is a negative `char`. */
  predicate HighAfter(a: seq<byte>, b: seq<byte>) {
    |a| < |b| && Fold(b[..|a|]) == Fold(a) && b[|a|] >= 128
  }

  lemma HighAfterTail(a: seq<byte>, b: seq<byte>)
    requires a != [] && b != []
    ensures HighAfter(a, b) <==> Lower(a[0]) == Lower(b[0]) && HighAfter(a[1..], b[1..])
  {
    if |a| < |b| {
      FoldTail(a);
      FoldTail(b[..|a|]);
      assert b[..|a|][1..] == b[1..][..|a[1..]|];
      assert Fold(a)[1..] == Fold(a[1..]) && Fold(b[..|a|])[1..] == Fold(b[..|a|][1..]);
    }
  }

  lemma {:induction false} CiStrCmpFlips(a: Name, b: Name)
    ensures (CiStrCmp(a, b) < 0 <==> CiStrCmp(b, a) > 0) && (CiStrCmp(a, b) > 0 <==> CiStrCmp(b, a) < 0)
       <==> !HighAfter(a, b) && !HighAfter(b, a)
    decreases a
  {
    if a != [] && b != [] {
      HighAfterTail(a, b);
      HighAfterTail(b, a);
      if Lower(a[0]) == Lower(b[0]) {
        CiStrCmpFlips(a[1..], b[1..]);
      }
    } else if a == [] && b != [] {
      assert Fold(b[..0]) == Fold(a);
    } else if b == [] && a != [] {
      assert Fold(a[..0]) == Fold(b);
    }
  }

  predicate Ascii(s: seq<byte>) {
    forall i :: 0 <= i < |s| ==> s[i] < 128
  }

  /** On ASCII strings the folded comparison is the plain one of the folded strings. */
  lemma {:induction false} CiStrCmpAscii(a: Name, b: Name)
    requires Ascii(a) && Ascii(b)
    ensures CiStrCmp(a, b) < 0 <==> StrCmp(Fold(a), Fold(b)) < 0
    ensures CiStrCmp(a, b) > 0 <==> StrCmp(Fold(a), Fold(b)) > 0
    decreases a
  {
    if a != [] && b != [] {
      assert Ascii(a[1..]) && Ascii(b[1..]);
      CiStrCmpAscii(a[1..], b[1..]);
      FoldTail(a);
      FoldTail(b);
      assert Fold(a)[1..] == Fold(a[1..]) && Fold(b)[1..] == Fold(b[1..]);
    }
  }

  // ----- cookies -----

  function CookieCmp(a: Whole, b: Whole): int {
    var i := StrCmp(a.name.value, b.name.value);
    if i != 0 then i
    else
      var i := CiStrCmp(a.dom.value, b.dom.value);
      if i != 0 then i
      else
        var i := |b.path.value| - |a.path.value|;
        if i != 0 then i else StrCmp(a.path.value, b.path.value)
  }

  /** An optional string: a missing one comes first. */
  function OptCmp(a: Option<Name>, b: Option<Name>): int {
    if a.None? && b.None? then 0 else if a.None? then -1 else if b.None? then 1 else StrCmp(a.value, b.value)
  }

  function ExactCmp(a: Whole, b: Whole): int {
    var i := CookieCmp(a, b);
    if i != 0 then i
    else
      var i := StrCmp(a.value.value, b.value.value);
      if i != 0 then i
      else
        var i := OptCmp(a.version, b.version);
        if i != 0 then i
        else
          var i := OptCmp(a.comment, b.comment);
          if i != 0 then i else Diffs(a, b)
  }

  /** The integer fields; differences wrap in an `int`. */
  function Diffs(a: Cookie, b: Cookie): int {
    if Wrap32(b.expire - a.expire) != 0 then Wrap32(b.expire - a.expire)
    else if Wrap32(b.secure - a.secure) != 0 then Wrap32(b.secure - a.secure)
    else if Wrap32(b.explicitDom - a.explicitDom) != 0 then Wrap32(b.explicitDom - a.explicitDom)
    else if Wrap32(b.explicitPath - a.explicitPath) != 0 then Wrap32(b.explicitPath - a.explicitPath)
    else Wrap32(b.netscapeStyle - a.netscapeStyle)
  }

  /** What identifies a cookie. */
  predicate SameKey(a: Whole, b: Whole) {
    a.name == b.name && Fold(a.dom.value) == Fold(b.dom.value) && a.path == b.path
  }

  /** Equal in everything but the three internal flags and the case of the domain. */
  predicate Exact(a: Whole, b: Whole) {
    SameKey(a, b) && a == b.(dom := a.dom, deleted := a.deleted, mark := a.mark, onDisk := a.onDisk)
  }

  /** Two cookies compare equal exactly when they have the same key. */
  lemma CookieCmpZero(a: Whole, b: Whole)
    ensures CookieCmp(a, b) == 0 <==> SameKey(a, b)
  {
    StrCmpZero(a.name.value, b.name.value);
    CiStrCmpZero(a.dom.value, b.dom.value);
    StrCmpZero(a.path.value, b.path.value);
  }

  lemma OptCmpZero(a: Option<Name>, b: Option<Name>)
    ensures OptCmp(a, b) == 0 <==> a == b
  {
    if a.Some? && b.Some? {
      StrCmpZero(a.value, b.value);
    }
  }

  lemma WrapZero(x: uint, y: uint)
    ensures Wrap32(x - y) == 0 <==> x == y
  {
  }

  lemma WrapZeroSigned(x: cint, y: cint)
    ensures Wrap32(x - y) == 0 <==> x == y
  {
  }

  lemma DiffsZero(a: Cookie, b: Cookie)
    ensures Diffs(a, b) == 0 <==>
              && a.expire == b.expire && a.secure == b.secure && a.explicitDom == b.explicitDom
              && a.explicitPath == b.explicitPath && a.netscapeStyle == b.netscapeStyle
  {
    hide Wrap32;
    WrapZero(b.expire, a.expire);
    WrapZeroSigned(b.secure, a.secure);
    WrapZeroSigned(b.explicitDom, a.explicitDom);
    WrapZeroSigned(b.explicitPath, a.explicitPath);
    WrapZeroSigned(b.netscapeStyle, a.netscapeStyle);
  }

  lemma ExactCmpZero(a: Whole, b: Whole)
    ensures ExactCmp(a, b) == 0 <==> Exact(a, b)
  {
    hide CookieCmp, Diffs, StrCmp, OptCmp;
    CookieCmpZero(a, b);
    StrCmpZero(a.value.value, b.value.value);
    OptCmpZero(a.version, b.version);
    OptCmpZero(a.comment, b.comment);
    DiffsZero(a, b);
  }

  /**
   Swapping two cookies turns the comparison round exactly when the names differ or neither
   domain continues the other with a byte from 128 up: for those, each sorts after the other.
   */
  lemma CookieCmpFlips(a: Whole, b: Whole)
    ensures (CookieCmp(a, b) < 0 <==> CookieCmp(b, a) > 0) && (CookieCmp(a, b) > 0 <==> CookieCmp(b, a) < 0)
       <==> a.name != b.name || (!HighAfter(a.dom.value, b.dom.value) && !HighAfter(b.dom.value, a.dom.value))
  {
    hide StrCmp, CiStrCmp, HighAfter, Fold;
    StrCmpZero(a.name.value, b.name.value);
    StrCmpZero(a.path.value, b.path.value);
    CiStrCmpZero(a.dom.value, b.dom.value);
    CiStrCmpZero(b.dom.value, a.dom.value);
    CiStrCmpFlips(a.dom.value, b.dom.value);
  }

  // ----- the order itself -----

  /** Where two strings first differ, the first one ends or has the smaller byte. */
  ghost predicate Before(a: seq<byte>, b: seq<byte>) {
    exists k: nat :: DifferAt(a, b, k)
  }

  /** The strings differ at `k`, as `Before` wants it. */
  predicate DifferAt(a: seq<byte>, b: seq<byte>, k: nat) {
    k <= |a| && k < |b| && a[..k] == b[..k] && (k == |a| || a[k] < b[k])
  }

  lemma DifferTail(a: seq<byte>, b: seq<byte>, k: nat)
    requires a != [] && b != [] && k > 0
    ensures DifferAt(a, b, k) <==> a[0] == b[0] && DifferAt(a[1..], b[1..], k - 1)
  {
    if k <= |a| && k <= |b| {
      assert a[..k] == [a[0]] + a[1..][..k - 1];
      assert b[..k] == [b[0]] + b[1..][..k - 1];
      assert a[..k][1..] == a[1..][..k - 1] && b[..k][1..] == b[1..][..k - 1];
    }
  }

  lemma BeforeTail(a: seq<byte>, b: seq<byte>)
    requires a != [] && b != []
    ensures Before(a, b) <==> a[0] < b[0] || (a[0] == b[0] && Before(a[1..], b[1..]))
  {
    assert DifferAt(a, b, 0) <==> a[0] < b[0];
    hide DifferAt;
    if k: nat :| DifferAt(a, b, k) && k > 0 {
      DifferTail(a, b, k);
    }
    if k: nat :| a[0] == b[0] && DifferAt(a[1..], b[1..], k) {
      DifferTail(a, b, k + 1);
      assert DifferAt(a, b, k + 1);
    }
  }

  lemma {:induction false} StrCmpOrder(a: seq<byte>, b: seq<byte>)
    ensures StrCmp(a, b) < 0 <==> Before(a, b)
    decreases a
  {
    if a == [] {
      assert b != [] ==> DifferAt(a, b, 0);
    } else if b != [] {
      hide Before;
      BeforeTail(a, b);
      StrCmpOrder(a[1..], b[1..]);
    }
  }

  /** By name, then by domain whatever its case, then longer paths first, then by path. */
  ghost predicate Precedes(a: Whole, b: Whole) {
    var (d, e) := (Fold(a.dom.value), Fold(b.dom.value));
    var (p, q) := (a.path.value, b.path.value);
    || Before(a.name.value, b.name.value)
    || (a.name == b.name && Before(d, e))
    || (a.name == b.name && d == e && |p| > |q|)
    || (a.name == b.name && d == e && |p| == |q| && Before(p, q))
  }

  /** On cookies with ASCII domains the comparison is the order of section 4.3.4 of RFC 2109. */
  lemma CookieCmpOrder(a: Whole, b: Whole)
    requires Ascii(a.dom.value) && Ascii(b.dom.value)
    ensures CookieCmp(a, b) < 0 <==> Precedes(a, b)
  {
    hide StrCmp, CiStrCmp, Fold, Ascii, Before;
    StrCmpZero(a.name.value, b.name.value);
    StrCmpOrder(a.name.value, b.name.value);
    CiStrCmpAscii(a.dom.value, b.dom.value);
    CiStrCmpZero(a.dom.value, b.dom.value);
    StrCmpZero(Fold(a.dom.value), Fold(b.dom.value));
    StrCmpOrder(Fold(a.dom.value), Fold(b.dom.value));
    StrCmpOrder(a.path.value, b.path.value);
  }

  /** Of two cookies with one name and one domain, whatever its bytes, the longer path comes first. */
  lemma LongerPathFirst(a: Whole, b: Whole)
    requires a.name == b.name && Fold(a.dom.value) == Fold(b.dom.value) && |a.path.value| > |b.path.value|
    ensures CookieCmp(a, b) < 0 < CookieCmp(b, a)
  {
    hide StrCmp, CiStrCmp, Fold;
    StrCmpZero(a.name.value, b.name.value);
    CiStrCmpZero(a.dom.value, b.dom.value);
    CiStrCmpZero(b.dom.value, a.dom.value);
  }

  /** On cookies with ASCII domains the comparison is transitive, so they can be sorted. */
  lemma CookieCmpTransitive(a: Whole, b: Whole, c: Whole)
    requires Ascii(a.dom.value) && Ascii(b.dom.value) && Ascii(c.dom.value)
    requires CookieCmp(a, b) <= 0 && CookieCmp(b, c) <= 0
    ensures CookieCmp(a, c) <= 0
  {
    hide StrCmp, CiStrCmp, Fold, Ascii;
    var x, y, z := a.name.value, b.name.value, c.name.value;
    Chain(x, y, z);
    CiStrCmpAscii(a.dom.value, b.dom.value);
    CiStrCmpAscii(b.dom.value, c.dom.value);
    CiStrCmpAscii(a.dom.value, c.dom.value);
    Chain(Fold(a.dom.value), Fold(b.dom.value), Fold(c.dom.value));
    Chain(a.path.value, b.path.value, c.path.value);
  }

  /** How three strings compare: no cycle, and a tie only between equals. */
  lemma Chain(a: seq<byte>, b: seq<byte>, c: seq<byte>)
    ensures StrCmp(a, b) <= 0 && StrCmp(b, c) <= 0 ==> StrCmp(a, c) <= 0
    ensures StrCmp(a, b) <= 0 && StrCmp(b, c) <= 0 && StrCmp(a, c) == 0 ==> StrCmp(a, b) == 0 && StrCmp(b, c) == 0
  {
    hide StrCmp;
    StrCmpZero(a, b);
    StrCmpZero(b, c);
    StrCmpZero(a, c);
    StrCmpZero(c, b);
    if StrCmp(a, b) <= 0 && StrCmp(b, c) <= 0 {
      StrCmpTransitive(a, b, c);
    }
  }
}
