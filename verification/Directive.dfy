/**
 The readers of directive lines: symbols, comments, the head of a definition. Every one of
 them stays within its line as long as the line is well formed, whatever follows it.
 */
module Directive {
  import opened Wrappers
  import opened MacroBody
  import opened MacroSource

  predicate SymStart(c: char) {
    StartsName(c) || c >= 128 as char
  }

  predicate SymPart(c: char) {
    InName(c) || c >= 128 as char
  }

  function SymLength(s: string): (n: nat)
    ensures n <= |s|
  {
    if s != [] && SymPart(s[0]) then 1 + SymLength(s[1..]) else 0
  }

  datatype Sym = Sym(name: string, rest: string)

  /** `getsym`: the name is empty when there is no symbol; None is the end-of-file exit. */
  function GetSym(s: string): (r: Option<Sym>)
    ensures r.Some? ==> r.value.rest != [] && |r.value.name| + |r.value.rest| <= |s|
  {
    var t := SkipBlanks(s);
    if t == [] then None
    else if !SymStart(t[0]) then Some(Sym([], t))
    else
      var n := 1 + SymLength(t[1..]);
      if n == |t| then None else Some(Sym(t[..n], t[n..]))
  }

  /** `macend`: behind the next newline; None is the end-of-file exit. */
  function MacEnd(s: string): (r: Option<string>)
    ensures r.Some? ==> |r.value| < |s|
  {
    if s == [] then None else if s[0] == '\n' then Some(s[1..]) else MacEnd(s[1..])
  }

  /** Inside a slash-star comment of a directive: behind its end, or at the newline that breaks it. */
  function ComEnd(s: string): (r: Option<string>)
    ensures r.Some? ==> r.value != [] && |r.value| <= |s|
  {
    if s == [] then None
    else if s[0] == '\n' then Some(s)
    else if |s| > 2 && s[0] == '*' && s[1] == '/' then Some(s[2..])
    else ComEnd(s[1..])
  }

  /** `getcom`: the next character that is neither blank nor comment, and the text behind it. */
  function GetCom(s: string): (r: Option<(char, string)>)
    ensures r.Some? ==> |r.value.1| < |s|
    decreases |s|
  {
    var t := SkipBlanks(s);
    if t == [] then None
    else if t[0] != '/' then Some((t[0], t[1..]))
    else if |t| == 1 then None
    else if t[1] == '/' then
      var e := MacEnd(t[2..]);
      if e.None? then None else Some(('\n', e.value))
    else if t[1] != '*' then Some((t[1], t[2..]))
    else
      var e := ComEnd(t[2..]);
      if e.None? then None
      else if e.value[0] == '\n' then Some(('\n', e.value[1..]))
      else GetCom(e.value[1..])
  }

  /** `getsymdots`: a parameter, or the dots, which stand for `__VA_ARGS__`. */
  function GetSymDots(s: string): (r: Option<(string, bool, string)>)
    ensures r.Some? ==> |r.value.2| <= |s| && (r.value.0 != [] ==> |r.value.2| < |s|)
  {
    var sym := GetSym(s);
    if sym.None? then None
    else if sym.value.name != [] then Some((sym.value.name, false, sym.value.rest))
    else
      var t := sym.value.rest;
      if t[0] != '.' then Some(([], false, t))
      else if |t| == 1 || (t[1] == '.' && |t| == 2) then None
      else Some(("__VA_ARGS__", true, if t[1] == '.' then t[3..] else t[2..]))
  }

  /** The head of a definition: its name, its parameters if it has a list, and the text behind. */
  datatype Head = Head(ok: bool, name: string, params: Option<seq<string>>, rest: string)

  /** The parameters from the one at `s` on. */
  function Params(s: string, name: string, got: seq<string>): (r: Option<Head>)
    requires |got| <= NARG
    ensures r.Some? ==> |r.value.rest| <= |s| && |Listed(r.value.params)| <= NARG && r.value.name == name
    decreases |s|
  {
    var a := GetSymDots(s);
    if a.None? then None
    else
      var (p, dots, rest) := a.value;
      if p == [] || |got| >= NARG then Some(Head(false, name, None, rest))
      else
        var t := SkipBlanks(rest);
        if t == [] then None
        else if t[0] == ')' then Some(Head(true, name, Some(got + [p]), t[1..]))
        else if t[0] != ',' || dots then Some(Head(false, name, None, t[1..]))
        else Params(t[1..], name, got + [p])
  }

  function DefHead(s: string): (r: Option<Head>)
    ensures r.Some? ==> |r.value.rest| <= |s| && |Listed(r.value.params)| <= NARG
  {
    var sym := GetSym(s);
    if sym.None? then None
    else
      var (name, rest) := (sym.value.name, sym.value.rest);
      if name == [] then Some(Head(false, name, None, rest))
      else if rest[0] != '(' then Some(Head(true, name, None, rest))
      else ParamList(rest[1..], name)
  }

  /** Behind the parenthesis. */
  function ParamList(s: string, name: string): (r: Option<Head>)
    ensures r.Some? ==> |r.value.rest| <= |s| && |Listed(r.value.params)| <= NARG && r.value.name == name
  {
    var t := SkipBlanks(s);
    if t == [] then None
    else if t[0] == ')' then Some(Head(true, name, Some([]), t[1..]))
    else Params(t, name, [])
  }

  /** `macdef`: where reading goes on, and what is defined, if the head is accepted. */
  function MacDef(s: string): (r: Option<(string, Option<(string, Macro)>)>)
    ensures r.Some? ==> |r.value.0| <= |s|
  {
    var h := DefHead(s);
    if h.None? then None
    else if !h.value.ok then
      var e := MacEnd(h.value.rest);
      if e.None? then None else Some((e.value, None))
    else
      var b := Scan(SkipBlanks(h.value.rest), None, false);
      if b.None? then None
      else Some((b.value.1, Some((h.value.name, Compile(b.value.0, h.value.params)))))
  }

  // ----- staying in the line -----

  predicate Blank(s: string) {
    forall i :: 0 <= i < |s| ==> IsSpace(s[i]) && s[i] != '\n'
  }

  predicate IsName(name: string) {
    name != [] && SymStart(name[0]) && forall i :: 0 <= i < |name| ==> SymPart(name[i])
  }

  lemma {:induction false} SkipBlanksExact(gap: string, s: string)
    requires Blank(gap) && (s == [] || !IsSpace(s[0]) || s[0] == '\n')
    ensures SkipBlanks(gap + s) == s
  {
    hide IsSpace;
    if gap == [] {
      assert gap + s == s;
    } else {
      assert (gap + s)[1..] == gap[1..] + s;
      SkipBlanksExact(gap[1..], s);
    }
  }

  lemma {:induction false} SkipBlanksInLine(t: string, rest: string)
    requires '\n' !in t
    ensures SkipBlanks(Nl(t, rest)) == Nl(SkipBlanks(t), rest)
    ensures '\n' !in SkipBlanks(t) && SkipBlanks(t) == t[|t| - |SkipBlanks(t)|..]
  {
    if t != [] {
      NlDrop(t, rest, 1);
      SkipBlanksInLine(t[1..], rest);
      if IsSpace(t[0]) {
        var u := SkipBlanks(t[1..]);
        assert t[1..][|t| - 1 - |u|..] == t[|t| - |u|..];
      }
    }
  }

  lemma {:induction false} SymLengthExact(name: string, rest: string)
    requires (forall i :: 0 <= i < |name| ==> SymPart(name[i])) && rest != [] && !SymPart(rest[0])
    ensures SymLength(name + rest) == |name|
  {
    hide SymPart;
    if name == [] {
      assert name + rest == rest;
    } else {
      assert (name + rest)[1..] == name[1..] + rest;
      SymLengthExact(name[1..], rest);
    }
  }

  lemma SymNotSpace(c: char)
    requires SymStart(c)
    ensures !IsSpace(c) && SymPart(c)
  {
  }

  lemma NewlineEndsSym()
    ensures !SymPart('\n') && !SymStart('\n')
  {
  }

  lemma GetSymExact(gap: string, name: string, rest: string)
    requires Blank(gap) && IsName(name) && rest != [] && !SymPart(rest[0])
    ensures GetSym(gap + name + rest) == Some(Sym(name, rest))
  {
    hide SymPart, SymStart, IsSpace, Blank;
    var s := name + rest;
    SymNotSpace(name[0]);
    assert gap + name + rest == gap + s;
    SkipBlanksExact(gap, s);
    assert s[1..] == name[1..] + rest;
    SymLengthExact(name[1..], rest);
    assert s[..|name|] == name && s[|name|..] == rest;
  }

  lemma {:induction false} SymLengthInLine(t: string, rest: string)
    ensures SymLength(Nl(t, rest)) == SymLength(t)
  {
    NewlineEndsSym();
    if t != [] {
      NlDrop(t, rest, 1);
      SymLengthInLine(t[1..], rest);
    }
  }

  /** The symbol of a line, and the text of the line behind it. */
  function LineSym(t: string): Sym {
    var u := SkipBlanks(t);
    if u == [] || !SymStart(u[0]) then Sym([], u)
    else
      var n := 1 + SymLength(u[1..]);
      Sym(u[..n], u[n..])
  }

  lemma GetSymInLine(t: string, rest: string)
    requires '\n' !in t
    ensures var y := LineSym(t);
            && GetSym(Nl(t, rest)) == Some(Sym(y.name, Nl(y.rest, rest)))
            && |y.rest| <= |t| && y.rest == t[|t| - |y.rest|..] && '\n' !in y.rest
  {
    hide SymLength, SymStart, SkipBlanks, IsSpace;
    NewlineEndsSym();
    SkipBlanksInLine(t, rest);
    var u := SkipBlanks(t);
    if u == [] {
      assert Nl(u, rest)[0] == '\n';
    } else {
      assert Nl(u, rest)[0] == u[0];
      if SymStart(u[0]) {
        var n := 1 + SymLength(u[1..]);
        NlDrop(u, rest, 1);
        SymLengthInLine(u[1..], rest);
        NlDrop(u, rest, n);
        assert Nl(u, rest)[..n] == u[..n];
        assert u[n..] == t[|t| - |u[n..]|..];
      }
    }
  }

  lemma {:induction false} MacEndExact(line: string, rest: string)
    requires '\n' !in line
    ensures MacEnd(Nl(line, rest)) == Some(rest)
  {
    if line == [] {
      assert Nl(line, rest)[1..] == rest;
    } else {
      NlDrop(line, rest, 1);
      MacEndExact(line[1..], rest);
    }
  }

  lemma {:induction false} ComEndInLine(t: string, rest: string) returns (k: nat)
    requires '\n' !in t
    ensures k <= |t| && ComEnd(Nl(t, rest)) == Some(Nl(t[k..], rest))
    ensures ComEnd(Nl(t, [])) == Some(Nl(t[k..], []))
  {
    var s := Nl(t, rest);
    if t == [] {
      k := 0;
    } else if |t| > 1 && t[0] == '*' && t[1] == '/' {
      k := 2;
      NlDrop(t, rest, 2);
      NlDrop(t, [], 2);
    } else {
      assert |t| == 1 ==> s[1] == '\n' && Nl(t, [])[1] == '\n';
      NlDrop(t, rest, 1);
      NlDrop(t, [], 1);
      k := ComEndInLine(t[1..], rest);
      k := k + 1;
    }
  }

  /** Only blanks and comments, as `getcom` sees them. */
  predicate Trailing(t: string) {
    GetCom(Nl(t, [])) == Some(('\n', []))
  }

  /** Trailing blanks and comments take the line to its end and no further. */
  lemma {:induction false} GetComInLine(t: string, rest: string)
    requires '\n' !in t && Trailing(t)
    ensures GetCom(Nl(t, rest)) == Some(('\n', rest))
    decreases |t|
  {
    hide MacEnd, ComEnd, IsSpace;
    SkipBlanksInLine(t, rest);
    SkipBlanksInLine(t, []);
    var u := SkipBlanks(t);
    var p, q := Nl(u, rest), Nl(u, []);
    if u == [] {
      assert p[1..] == rest && p[0] == '\n';
    } else {
      assert p[0] == u[0] == q[0];
      if |u| == 1 {
        assert p[1] == '\n' && p[2..] == rest;
      } else {
        assert p[1] == u[1] == q[1];
        NlDrop(u, rest, 2);
        NlDrop(u, [], 2);
        if u[1] == '/' {
          MacEndExact(u[2..], rest);
        } else if u[1] == '*' {
          var k := ComEndInLine(u[2..], rest);
          var v := u[2..][k..];
          if v == [] {
            assert Nl(v, rest)[0] == '\n' && Nl(v, rest)[1..] == rest;
          } else {
            assert Nl(v, rest)[0] == v[0] == Nl(v, [])[0];
            NlDrop(v, rest, 1);
            NlDrop(v, [], 1);
            GetComInLine(v[1..], rest);
          }
        }
      }
    }
  }

  lemma BlanksTrail(gap: string)
    requires Blank(gap)
    ensures Trailing(gap)
  {
    hide IsSpace;
    SkipBlanksExact(gap, ['\n']);
    assert Nl(gap, []) == gap + ['\n'];
  }

  lemma LineCommentTrails(gap: string, text: string)
    requires Blank(gap) && '\n' !in text
    ensures Trailing(gap + "//" + text)
  {
    var s := "//" + text + ['\n'];
    assert Nl(gap + "//" + text, []) == gap + s;
    SkipBlanksExact(gap, s);
    assert s[2..] == Nl(text, []);
    MacEndExact(text, []);
  }

  lemma {:induction false} ComEndExact(text: string, more: string)
    requires '\n' !in text && !HasEnd(text) && more != []
    ensures ComEnd(text + ("*/" + more)) == Some(more)
  {
    var s := text + ("*/" + more);
    if text == [] {
      assert s == "*/" + more && s[2..] == more;
    } else {
      assert s[1..] == text[1..] + ("*/" + more);
      assert s[0] == text[0] && s[1] == if |text| > 1 then text[1] else '*';
      NoEndTail(text);
      ComEndExact(text[1..], more);
    }
  }

  /**
   A slash-star comment trails if nothing follows it. Otherwise the character right behind it is
   lost, and what follows that must trail.
   */
  lemma BlockCommentTrails(gap: string, text: string, behind: string)
    requires Blank(gap) && '\n' !in text && !HasEnd(text) && '\n' !in behind
    ensures Trailing(gap + "/*" + text + "*/" + behind) <==> behind == [] || Trailing(behind[1..])
  {
    hide ComEnd, IsSpace, Blank;
    var more := behind + ['\n'];
    var s := "/*" + (text + ("*/" + more));
    SlashIsNoSpace();
    assert Nl(gap + "/*" + text + "*/" + behind, []) == gap + s;
    SkipBlanksExact(gap, s);
    assert s[0] == '/' && s[1] == '*' && s[2..] == text + ("*/" + more);
    ComEndExact(text, more);
    assert more[0] == if behind == [] then '\n' else behind[0];
    assert behind != [] ==> more[1..] == Nl(behind[1..], []);
    assert behind == [] ==> more[1..] == [];
  }

  lemma SlashIsNoSpace()
    ensures !IsSpace('/')
  {
  }

  /** Any other text behind a condition's name makes the line a syntax error. */
  lemma OtherTextIsNoTrail(gap: string, c: char, behind: string)
    requires Blank(gap) && !IsSpace(c) && (c == '/' ==> behind != [] && behind[0] !in {'/', '*', '\n'})
    ensures !Trailing(gap + [c] + behind)
  {
    hide IsSpace, Blank;
    NewlineIsSpace();
    var s := [c] + behind + ['\n'];
    assert Nl(gap + [c] + behind, []) == gap + s;
    SkipBlanksExact(gap, s);
    assert s[0] == c && (behind != [] ==> s[1] == behind[0]);
  }

  lemma NewlineIsSpace()
    ensures IsSpace('\n')
  {
  }

  // ----- definitions -----

  /** The end of a line, as a part of it. */
  predicate EndOf(u: string, t: string) {
    |u| <= |t| && u == t[|t| - |u|..]
  }

  lemma EndOfEnd(u: string, v: string, t: string)
    requires EndOf(u, v) && EndOf(v, t)
    ensures EndOf(u, t) && ('\n' !in t ==> '\n' !in u) && (!Continued(t) ==> !Continued(u))
  {
  }

  lemma EndOfDrop(t: string, k: nat)
    requires k <= |t|
    ensures EndOf(t[k..], t) && EndOf(t, t)
  {
  }

  /** A parameter, or the dots, and the text of the line behind it. */
  lemma GetSymDotsInLine(t: string, rest: string) returns (u: string)
    requires '\n' !in t
    ensures EndOf(u, t)
    ensures var a := GetSymDots(Nl(t, []));
            a.Some? && a.value.0 != [] && a.value.2 != [] ==>
              a.value.2 == Nl(u, []) && GetSymDots(Nl(t, rest)) == Some((a.value.0, a.value.1, Nl(u, rest)))
  {
    hide GetSym, LineSym;
    GetSymInLine(t, rest);
    GetSymInLine(t, []);
    var y := LineSym(t);
    u := y.rest;
    var v := y.rest;
    if y.name == [] && v != [] && v[0] == '.' {
      assert Nl(v, rest)[0] == '.' && Nl(v, [])[0] == '.';
      if |v| > 1 {
        assert Nl(v, rest)[1] == v[1] == Nl(v, [])[1];
        var k := if v[1] == '.' then 3 else 2;
        if k <= |v| {
          NlDrop(v, rest, k);
          NlDrop(v, [], k);
          u := v[k..];
          EndOfDrop(v, k);
          EndOfEnd(u, v, t);
        }
      }
    }
  }

  /** An accepted parameter list is read within its line. */
  lemma {:induction false} ParamsInLine(t: string, rest: string, name: string, got: seq<string>) returns (u: string)
    requires '\n' !in t && |got| <= NARG
    requires var h := Params(Nl(t, []), name, got); h.Some? && h.value.ok
    ensures var h := Params(Nl(t, []), name, got).value;
            EndOf(u, t) && h.rest == Nl(u, []) && Params(Nl(t, rest), name, got) == Some(h.(rest := Nl(u, rest)))
    decreases |t|
  {
    hide GetSymDots, IsSpace;
    var v := GetSymDotsInLine(t, rest);
    EndOfEnd(v, v, t);
    var (p, dots, r) := GetSymDots(Nl(t, [])).value;
    NoBlankEnd();
    SkipBlanksInLine(v, rest);
    SkipBlanksInLine(v, []);
    var w := SkipBlanks(v);
    EndOfEnd(w, v, t);
    assert w != [] by { assert Nl([], [])[0] == '\n'; }
    assert Nl(w, rest)[0] == w[0] == Nl(w, [])[0];
    NlDrop(w, rest, 1);
    NlDrop(w, [], 1);
    EndOfDrop(w, 1);
    EndOfEnd(w[1..], w, t);
    if w[0] == ')' {
      u := w[1..];
    } else {
      u := ParamsInLine(w[1..], rest, name, got + [p]);
      EndOfEnd(u, w[1..], t);
    }
  }

  lemma NoBlankEnd()
    ensures SkipBlanks([]) == []
  {
  }

  lemma ParamListInLine(t: string, rest: string, name: string) returns (u: string)
    requires '\n' !in t
    requires var h := ParamList(Nl(t, []), name); h.Some? && h.value.ok
    ensures var h := ParamList(Nl(t, []), name).value;
            EndOf(u, t) && h.rest == Nl(u, []) && ParamList(Nl(t, rest), name) == Some(h.(rest := Nl(u, rest)))
  {
    hide Params, IsSpace;
    SkipBlanksInLine(t, rest);
    SkipBlanksInLine(t, []);
    NewlineIsNoParam([], name);
    var w := SkipBlanks(t);
    EndOfEnd(w, w, t);
    assert w != [] by { assert Nl([], [])[0] == '\n'; }
    assert Nl(w, rest)[0] == w[0] == Nl(w, [])[0];
    if w[0] == ')' {
      NlDrop(w, rest, 1);
      NlDrop(w, [], 1);
      u := w[1..];
      EndOfDrop(w, 1);
    } else {
      u := ParamsInLine(w, rest, name, []);
    }
    EndOfEnd(u, w, t);
  }

  /** An accepted head is read within its line. */
  lemma DefHeadInLine(t: string, rest: string) returns (u: string)
    requires '\n' !in t
    requires var h := DefHead(Nl(t, [])); h.Some? && h.value.ok
    ensures var h := DefHead(Nl(t, [])).value;
            && h.name == LineSym(t).name && EndOf(u, t) && h.rest == Nl(u, [])
            && DefHead(Nl(t, rest)) == Some(h.(rest := Nl(u, rest)))
  {
    hide GetSym, LineSym, ParamList;
    GetSymInLine(t, rest);
    GetSymInLine(t, []);
    var y := LineSym(t);
    u := y.rest;
    assert Nl(u, rest)[0] == Nl(u, [])[0] == if u == [] then '\n' else u[0];
    if u != [] && u[0] == '(' {
      NlDrop(u, rest, 1);
      NlDrop(u, [], 1);
      EndOfDrop(u, 1);
      EndOfEnd(u[1..], u, t);
      var v := u[1..];
      u := ParamListInLine(v, rest, y.name);
      EndOfEnd(u, v, t);
    }
  }

  lemma NewlineIsNoParam(rest: string, name: string)
    ensures var h := Params(Nl([], rest), name, []); h.Some? && !h.value.ok
  {
    var s := Nl([], rest);
    NewlineEndsSym();
    assert s[0] == '\n';
    assert SkipBlanks(s) == s;
  }

  /** The text of a definition line, behind the word: accepted, and not continued by the next line. */
  predicate Defines(t: string) {
    !Continued(t) && var h := DefHead(Nl(t, [])); h.Some? && h.value.ok
  }

  /** Such a definition takes its line and no more, and stores a macro under its name. */
  lemma MacDefInLine(t: string, rest: string)
    requires '\n' !in t && Defines(t)
    ensures var d := MacDef(Nl(t, rest));
            d.Some? && d.value.0 == rest && d.value.1.Some? && d.value.1.value.0 == LineSym(t).name
  {
    hide DefHead, Scan, IsSpace;
    var u := DefHeadInLine(t, rest);
    EndOfEnd(u, u, t);
    SkipBlanksInLine(u, rest);
    EndOfEnd(SkipBlanks(u), u, t);
    ScanEndsWithLine(SkipBlanks(u), rest, None, false);
  }

  /** A definition without a parameter list: any body that does not run into the name. */
  lemma DefinesObject(gap: string, name: string, body: string)
    requires Blank(gap) && IsName(name) && !Continued(gap + name + body)
    requires body == [] || (!SymPart(body[0]) && body[0] != '(')
    ensures Defines(gap + name + body) && DefHead(Nl(gap + name + body, [])).value.name == name
  {
    hide SymPart, IsName, Blank, GetSym, Continued;
    NewlineEndsSym();
    HasName(name);
    var rest := Nl(body, []);
    assert Nl(gap + name + body, []) == gap + name + rest;
    assert rest[0] == if body == [] then '\n' else body[0];
    GetSymExact(gap, name, rest);
  }

  /** A parameter and the blanks around it. */
  datatype Param = Param(before: string, name: string, after: string) {
    predicate Valid() {
      Blank(before) && IsName(name) && Blank(after)
    }

    function Text(): string {
      before + name + after
    }
  }

  function JoinParams(ps: seq<Param>): string
    requires ps != []
  {
    ps[0].Text() + if |ps| == 1 then ")" else "," + JoinParams(ps[1..])
  }

  function Names(ps: seq<Param>): seq<string> {
    if ps == [] then [] else [ps[0].name] + Names(ps[1..])
  }

  /** Reading one parameter up to the character behind it. */
  lemma ParamExact(p: Param, c: char, more: string)
    requires p.Valid() && !IsSpace(c) && !SymPart(c)
    ensures GetSymDots(p.Text() + [c] + more) == Some((p.name, false, p.after + [c] + more))
    ensures SkipBlanks(p.after + [c] + more) == [c] + more
  {
    hide SymPart, IsSpace;
    var rest := p.after + [c] + more;
    assert p.Text() + [c] + more == p.before + p.name + rest;
    BlankEndsSym(p.after);
    GetSymExact(p.before, p.name, rest);
    assert rest == p.after + ([c] + more);
    SkipBlanksExact(p.after, [c] + more);
  }

  lemma BlankEndsSym(gap: string)
    requires Blank(gap)
    ensures gap == [] || !SymPart(gap[0])
  {
  }

  lemma Separators()
    ensures !IsSpace(',') && !SymPart(',') && !IsSpace(')') && !SymPart(')') && !SymPart('(') && !SymStart(')')
  {
  }

  lemma {:induction false} ParamsExact(ps: seq<Param>, more: string, name: string, got: seq<string>)
    requires ps != [] && (forall i :: 0 <= i < |ps| ==> ps[i].Valid()) && |got| + |ps| <= NARG
    ensures Params(JoinParams(ps) + more, name, got) == Some(Head(true, name, Some(got + Names(ps)), more))
    decreases |ps|
  {
    hide SymPart, IsSpace, SymStart, GetSymDots, SkipBlanks, Blank, IsName, JoinParams, Param.Text;
    Separators();
    var p := ps[0];
    assert p.Valid();
    HasName(p.name);
    JoinedFirst(ps, more);
    if |ps| == 1 {
      ParamExact(p, ')', more);
      assert ([')'] + more)[1..] == more;
      assert Names(ps) == [p.name];
    } else {
      var r := JoinParams(ps[1..]) + more;
      ParamExact(p, ',', r);
      assert ([','] + r)[1..] == r;
      ParamsExact(ps[1..], more, name, got + [p.name]);
      assert got + [p.name] + Names(ps[1..]) == got + Names(ps);
    }
  }

  lemma JoinedFirst(ps: seq<Param>, more: string)
    requires ps != []
    ensures JoinParams(ps) + more ==
              if |ps| == 1 then ps[0].Text() + [')'] + more
              else ps[0].Text() + [','] + (JoinParams(ps[1..]) + more)
  {
    hide Param.Text;
    if |ps| > 1 {
      Assoc(ps[0].Text(), [','], JoinParams(ps[1..]), more);
    }
  }

  lemma Assoc(a: string, b: string, c: string, d: string)
    ensures a + (b + c) + d == a + b + (c + d)
  {
  }

  lemma HasName(name: string)
    requires IsName(name)
    ensures name != []
  {
  }

  /** A definition with parameters, blanks around them, and any body. */
  lemma DefinesFunction(gap: string, name: string, ps: seq<Param>, body: string)
    requires Blank(gap) && IsName(name) && 0 < |ps| <= NARG && forall i :: 0 <= i < |ps| ==> ps[i].Valid()
    requires !Continued(gap + name + "(" + JoinParams(ps) + body)
    ensures var t := gap + name + "(" + JoinParams(ps) + body;
            Defines(t) && DefHead(Nl(t, [])).value.name == name && DefHead(Nl(t, [])).value.params == Some(Names(ps))
  {
    hide SymPart, IsName, Blank, IsSpace, Params, ParamList, Continued, GetSym, DefHead;
    var t := gap + name + "(" + JoinParams(ps) + body;
    var more := body + ['\n'];
    assert Nl(t, []) == gap + name + (['('] + (JoinParams(ps) + more)) by { Regroup(gap + name, JoinParams(ps), body); }
    HeadExact(gap, name, JoinParams(ps) + more);
    ParamsSkip(ps, more, name);
    ParamsExact(ps, more, name, []);
    assert [] + Names(ps) == Names(ps);
  }

  lemma Regroup(a: string, b: string, c: string)
    ensures a + "(" + b + c + ['\n'] + [] == a + (['('] + (b + (c + ['\n'])))
  {
  }

  lemma HeadExact(gap: string, name: string, inner: string)
    requires Blank(gap) && IsName(name)
    ensures DefHead(gap + name + (['('] + inner)) == ParamList(inner, name)
  {
    hide GetSym, ParamList, SymPart, Blank, SymStart;
    Separators();
    GetSymExact(gap, name, ['('] + inner);
    assert (['('] + inner)[1..] == inner;
  }

  /** Blanks in front of the first parameter make no difference. */
  lemma ParamsSkip(ps: seq<Param>, more: string, name: string)
    requires 0 < |ps| <= NARG && forall i :: 0 <= i < |ps| ==> ps[i].Valid()
    ensures ParamList(JoinParams(ps) + more, name) == Params(JoinParams(ps) + more, name, [])
  {
    hide IsSpace, SymPart, SymStart, Params;
    Separators();
    var p := ps[0];
    assert p.Valid();
    SymNotSpace(p.name[0]);
    var s := JoinParams(ps) + more;
    var u := p.name + p.after + (if |ps| == 1 then ")" else "," + JoinParams(ps[1..])) + more;
    assert s == p.before + u;
    SkipBlanksExact(p.before, u);
    SkipBlanksExact([], u);
    assert [] + u == u;
    SameParams(s, u, name);
  }

  lemma SameParams(s: string, u: string, name: string)
    requires SkipBlanks(s) == u && SkipBlanks(u) == u
    ensures Params(s, name, []) == Params(u, name, [])
  {
    hide GetSymDots, SkipBlanks;
    SameSym(s, u);
  }

  lemma SameSym(s: string, u: string)
    requires SkipBlanks(s) == u && SkipBlanks(u) == u
    ensures GetSymDots(s) == GetSymDots(u)
  {
    hide SkipBlanks, SymStart, SymLength;
  }

  /** A definition with an empty list. */
  lemma EmptyListExact(gap: string, name: string, inner: string, more: string)
    requires Blank(gap) && IsName(name) && Blank(inner)
    ensures DefHead(gap + name + (['('] + (inner + ([')'] + more)))) == Some(Head(true, name, Some([]), more))
  {
    hide Blank, IsName, IsSpace, GetSym, DefHead;
    Separators();
    HeadExact(gap, name, inner + ([')'] + more));
    SkipBlanksExact(inner, [')'] + more);
    assert ([')'] + more)[1..] == more;
  }

  /** Parameters up to dots. */
  function JoinDots(ps: seq<Param>, before: string, after: string): string {
    if ps == [] then before + "..." + after else ps[0].Text() + [','] + JoinDots(ps[1..], before, after)
  }

  lemma DotsExact(before: string, after: string, c: char, more: string)
    requires Blank(before) && Blank(after) && !IsSpace(c)
    ensures GetSymDots(before + "..." + after + [c] + more) == Some(("__VA_ARGS__", true, after + [c] + more))
    ensures SkipBlanks(after + [c] + more) == [c] + more
  {
    hide IsSpace, Blank, SymPart;
    DotIsNoSym();
    var rest := after + [c] + more;
    var s := "..." + rest;
    assert before + "..." + after + [c] + more == before + s;
    SkipBlanksExact(before, s);
    assert s[0] == '.' && s[1] == '.' && s[3..] == rest;
    assert rest == after + ([c] + more);
    SkipBlanksExact(after, [c] + more);
  }

  lemma DotIsNoSym()
    ensures !IsSpace('.') && !SymStart('.')
  {
  }

  /** Dots are the last parameter, under the name `__VA_ARGS__`; anything behind them is refused. */
  lemma {:induction false} ParamsDots(ps: seq<Param>, before: string, after: string, c: char, more: string, name: string, got: seq<string>)
    requires (forall i :: 0 <= i < |ps| ==> ps[i].Valid()) && Blank(before) && Blank(after) && !IsSpace(c)
    requires |got| + |ps| < NARG
    ensures var r := Params(JoinDots(ps, before, after) + [c] + more, name, got);
            r == Some(if c == ')' then Head(true, name, Some(got + Names(ps) + ["__VA_ARGS__"]), more)
                      else Head(false, name, None, more))
    decreases |ps|
  {
    hide SymPart, IsSpace, SymStart, GetSymDots, SkipBlanks, Blank, IsName, Param.Text;
    Separators();
    var s := JoinDots(ps, before, after) + [c] + more;
    if ps == [] {
      DotsExact(before, after, c, more);
      assert s == before + "..." + after + [c] + more;
      assert ([c] + more)[1..] == more;
      assert got + [] + ["__VA_ARGS__"] == got + ["__VA_ARGS__"];
    } else {
      var p, r := ps[0], JoinDots(ps[1..], before, after) + [c] + more;
      assert p.Valid();
      HasName(p.name);
      DotsFirst(ps, before, after, [c] + more);
      assert JoinDots(ps[1..], before, after) + ([c] + more) == r && JoinDots(ps, before, after) + ([c] + more) == s;
      ParamExact(p, ',', r);
      assert ([','] + r)[1..] == r;
      ParamsDots(ps[1..], before, after, c, more, name, got + [p.name]);
      assert got + [p.name] + Names(ps[1..]) == got + Names(ps);
    }
  }

  lemma DotsFirst(ps: seq<Param>, before: string, after: string, more: string)
    requires ps != []
    ensures JoinDots(ps, before, after) + more == ps[0].Text() + [','] + (JoinDots(ps[1..], before, after) + more)
  {
    hide Param.Text;
    Assoc(ps[0].Text(), [','], JoinDots(ps[1..], before, after), more);
  }

  /** A twenty-sixth parameter is refused. */
  lemma TooManyParams(p: Param, c: char, more: string, name: string, got: seq<string>)
    requires p.Valid() && !IsSpace(c) && !SymPart(c) && |got| == NARG
    ensures Params(p.Text() + [c] + more, name, got) == Some(Head(false, name, None, p.after + [c] + more))
  {
    hide GetSymDots, SymPart, IsSpace, Blank, IsName;
    ParamExact(p, c, more);
  }

  // ----- what a definition stores -----

  /** The body of a definition: blanks, then the pieces, over one line or several. */
  predicate IsBody(blanks: string, ps: seq<Piece>, remark: Option<string>) {
    && Blank(blanks) && Fits(ps, None, Ending(remark, [])) && (remark.Some? ==> '\n' !in remark.value)
    && var s := Write(ps) + Ending(remark, []); s[0] == '\n' || !IsSpace(s[0])
  }

  lemma {:induction false} FitsAnyRest(ps: seq<Piece>, quote: Option<char>, remark: Option<string>, rest: string)
    requires Fits(ps, quote, Ending(remark, []))
    ensures Fits(ps, quote, Ending(remark, rest))
    ensures (Write(ps) + Ending(remark, rest))[0] == (Write(ps) + Ending(remark, []))[0]
  {
    hide Placed;
    var e, e' := Ending(remark, rest), Ending(remark, []);
    assert e[0] == e'[0] == if remark.None? then '\n' else '/';
    if ps != [] {
      FitsAnyRest(ps[1..], Quoting(ps[0], quote), remark, rest);
      TextNonEmpty(ps[0], quote, (Write(ps[1..]) + e')[0]);
    }
  }

  lemma TextNonEmpty(p: Piece, quote: Option<char>, next: char)
    requires Placed(p, quote, next)
    ensures Text(p) != []
  {
  }

  lemma BodyScans(blanks: string, ps: seq<Piece>, remark: Option<string>, rest: string)
    requires IsBody(blanks, ps, remark)
    ensures var body := Write(ps) + Ending(remark, rest);
            && body != [] && body[0] == (Write(ps) + Ending(remark, []))[0]
            && SkipBlanks(blanks + body) == body && Scan(body, None, false) == Some((AllElems(ps), rest))
  {
    hide Scan, IsSpace, Fits;
    FitsAnyRest(ps, None, remark, rest);
    ScanPieces(ps, None, false, remark, rest);
    SkipBlanksExact(blanks, Write(ps) + Ending(remark, rest));
  }

  /** A definition without a list stores its body, comments and joints left out. */
  lemma StoresObject(gap: string, name: string, blanks: string, ps: seq<Piece>, remark: Option<string>, rest: string)
    requires Blank(gap) && IsName(name) && IsBody(blanks, ps, remark)
    requires blanks == [] ==> var c := (Write(ps) + Ending(remark, []))[0]; !SymPart(c) && c != '('
    ensures MacDef(gap + name + (blanks + (Write(ps) + Ending(remark, rest))))
         == Some((rest, Some((name, Compile(AllElems(ps), None)))))
  {
    hide GetSym, SymPart, IsName, Scan, IsBody, Compile, SkipBlanks;
    var body := Write(ps) + Ending(remark, rest);
    BodyScans(blanks, ps, remark, rest);
    HasName(name);
    BodyBlank(blanks, ps, remark);
    BlankEndsSym(blanks);
    assert (blanks + body)[0] == if blanks == [] then body[0] else blanks[0];
    BlankIsNoParen(blanks);
    GetSymExact(gap, name, blanks + body);
  }

  lemma BodyBlank(blanks: string, ps: seq<Piece>, remark: Option<string>)
    requires IsBody(blanks, ps, remark)
    ensures Blank(blanks)
  {
  }

  lemma BlankIsNoParen(blanks: string)
    requires Blank(blanks)
    ensures blanks == [] || blanks[0] != '('
  {
  }

  /** So does one with parameters. */
  lemma StoresFunction(gap: string, name: string, params: seq<Param>, blanks: string, ps: seq<Piece>,
                       remark: Option<string>, rest: string)
    requires Blank(gap) && IsName(name) && IsBody(blanks, ps, remark)
    requires 0 < |params| <= NARG && forall i :: 0 <= i < |params| ==> params[i].Valid()
    ensures |Names(params)| <= NARG
    ensures MacDef(gap + name + (['('] + (JoinParams(params) + (blanks + (Write(ps) + Ending(remark, rest))))))
         == Some((rest, Some((name, Compile(AllElems(ps), Some(Names(params)))))))
  {
    hide DefHead, Scan, IsBody, Compile, ParamList, Params, IsName, Blank, SkipBlanks;
    var more := blanks + (Write(ps) + Ending(remark, rest));
    HeadExact(gap, name, JoinParams(params) + more);
    ParamsSkip(params, more, name);
    ParamsExact(params, more, name, []);
    assert [] + Names(params) == Names(params);
    BodyScans(blanks, ps, remark, rest);
    NamesCount(params);
  }

  lemma {:induction false} NamesCount(ps: seq<Param>)
    ensures |Names(ps)| == |ps|
  {
    if ps != [] {
      NamesCount(ps[1..]);
    }
  }
}
