/**
 Assembler macros: `macdef` compiles a body into an encoded string, in which `#a`,
 `#b`, ... stand for the parameters, and `macexpand` interprets that string. Source
 text is a string without NUL; running out of it is the end-of-file exit.
 */
module MacroBody {
  import opened Wrappers

  const NARG: nat := 25

  predicate IsAlpha(c: char) {
    'a' <= c <= 'z' || 'A' <= c <= 'Z'
  }

  predicate StartsName(c: char) {
    IsAlpha(c) || c == '_'
  }

  predicate InName(c: char) {
    StartsName(c) || '0' <= c <= '9'
  }

  predicate IsSpace(c: char) {
    c in {' ', '\t', '\n', '\r', 11 as char, 12 as char}
  }

  /** Blanks up to the next other character; a newline is not a blank here. */
  function SkipBlanks(s: string): (r: string)
    ensures |r| <= |s|
  {
    if s != [] && IsSpace(s[0]) && s[0] != '\n' then SkipBlanks(s[1..]) else s
  }

  /** A lexical element of a macro body. */
  datatype Elem = Ident(name: string) | Ch(c: char)

  // ----- scanning: comments and continuations go, names are told from other characters -----

  /** How many characters at the start of `s` belong to a name. */
  function NameLength(s: string): (n: nat)
    ensures n <= |s| && (forall k :: 0 <= k < n ==> InName(s[k])) && (n < |s| ==> !InName(s[n]))
  {
    if s == [] || !InName(s[0]) then 0 else 1 + NameLength(s[1..])
  }

  /** From inside a `//` comment to the newline that ends it. */
  function SkipLine(s: string): (r: string)
    ensures |r| <= |s|
  {
    if s == [] || s[0] == '\n' then s else SkipLine(s[1..])
  }

  /** From inside a slash-star comment to behind its end, or to the newline that breaks it. */
  function SkipComment(s: string): (r: string)
    ensures |r| <= |s|
  {
    if s == [] || s[0] == '\n' then s
    else if s[0] == '*' && |s| > 1 && s[1] == '/' then s[2..]
    else SkipComment(s[1..])
  }

  /** `soft`: the next character comes from GETC, so the end of the file there ends the body. */
  datatype Scanned = Scanned(elems: seq<Elem>, rest: string, quote: Option<char>, soft: bool)

  /** One round of the loop at a text that neither is empty nor ends the body. */
  function ScanOne(s: string, quote: Option<char>): (r: Scanned)
    requires s != [] && s[0] != '\n'
    ensures |r.rest| < |s|
  {
    if StartsName(s[0]) then
      var n := 1 + NameLength(s[1..]);
      Scanned([Ident(s[..n])], s[n..], quote, false)
    else if quote.Some? then
      if s[0] == '\\' then
        if |s| == 1 || s[1] == '\n' then Scanned([Ch('\\')], s[1..], quote, false)
        else if s[1] == '\\' then
          var b := Backslash(s[1..]);
          Scanned([Ch('\\')] + b.elems, b.rest, quote, false)
        else Scanned([Ch('\\'), Ch(s[1])], s[2..], quote, true)
      else Scanned([Ch(s[0])], s[1..], if quote.value == s[0] then None else quote, true)
    else if s[0] == '"' || s[0] == '\'' then Scanned([Ch(s[0])], s[1..], Some(s[0]), false)
    else if s[0] == '/' then
      if |s| > 1 && s[1] == '/' then Scanned([], SkipLine(s[2..]), quote, false)
      else if |s| > 1 && s[1] == '*' then Scanned([], SkipComment(s[2..]), quote, false)
      else Scanned([Ch('/')], s[1..], quote, false)
    else if s[0] == '\\' then
      var b := Backslash(s);
      Scanned(b.elems, b.rest, quote, false)
    else Scanned([Ch(s[0])], s[1..], quote, true)
  }

  /** A backslash: with a newline behind it, it continues the line; a carriage return behind it is dropped. */
  function Backslash(s: string): (r: Scanned)
    requires s != []
    ensures |r.rest| < |s|
  {
    if |s| > 1 && s[1] == '\n' then Scanned([], s[2..], None, false)
    else if |s| > 1 && s[1] == '\r' then
      if |s| > 2 && s[2] == '\n' then Scanned([], s[3..], None, false) else Scanned([Ch('\\')], s[2..], None, false)
    else Scanned([Ch('\\')], s[1..], None, false)
  }

  /**
   The elements of a body up to the newline that ends it, and the text behind that newline.
   The end of the file also ends a body, behind a plain character; elsewhere it is the exit, None.
   */
  function Scan(s: string, quote: Option<char>, soft: bool): (r: Option<(seq<Elem>, string)>)
    ensures r.Some? ==> |r.value.1| <= |s|
    decreases |s|
  {
    if s == [] then (if soft then Some(([], [])) else None)
    else if s[0] == '\n' then Some(([], s[1..]))
    else
      var one := ScanOne(s, quote);
      var more := Scan(one.rest, one.quote, one.soft);
      if more.None? then None else Some((one.elems + more.value.0, more.value.1))
  }

  // ----- encoding and expanding -----

  /** The first parameter called `name`, or their number. */
  function ParamIndex(params: seq<string>, name: string): (i: nat)
    ensures i <= |params|
    ensures i < |params| ==> params[i] == name
    ensures forall k :: 0 <= k < i ==> params[k] != name
  {
    if params == [] || params[0] == name then 0 else 1 + ParamIndex(params[1..], name)
  }

  function EncodeElem(e: Elem, params: seq<string>): string
    requires |params| <= NARG
  {
    match e
    case Ident(name) =>
      var i := ParamIndex(params, name);
      if i < |params| then ['#', 'a' + i as char] else name
    case Ch(c) => if c == '#' && |params| > 0 then "##" else [c]
  }

  function Encode(elems: seq<Elem>, params: seq<string>): string
    requires |params| <= NARG
  {
    if elems == [] then [] else EncodeElem(elems[0], params) + Encode(elems[1..], params)
  }

  /** The interpreter of `macexpand`; None is its syntax error. */
  function Expand(body: string, args: seq<string>): Option<string>
    decreases |body|
  {
    if body == [] then Some([])
    else if body[0] != '#' then
      var more := Expand(body[1..], args);
      if more.None? then None else Some([if body[0] == '\n' then ' ' else body[0]] + more.value)
    else if |body| == 1 then None
    else
      var more := Expand(body[2..], args);
      if more.None? then None
      else if body[1] == '#' then Some(['#'] + more.value)
      else
        var i := body[1] as int - 'a' as int;
        if i < 0 || i >= |args| then more else Some(args[i] + more.value)
  }

  function SubstElem(e: Elem, params: seq<string>, args: seq<string>): string
    requires |params| == |args|
  {
    match e
    case Ident(name) =>
      var i := ParamIndex(params, name);
      if i < |params| then args[i] else name
    case Ch(c) => [c]
  }

  /** What a macro means: each parameter replaced by its argument, the rest unchanged. */
  function Subst(elems: seq<Elem>, params: seq<string>, args: seq<string>): string
    requires |params| == |args|
  {
    if elems == [] then [] else SubstElem(elems[0], params, args) + Subst(elems[1..], params, args)
  }

  /** What scanning produces: names made of name characters, and no newline. */
  predicate Lexeme(e: Elem) {
    match e
    case Ident(name) => forall i :: 0 <= i < |name| ==> InName(name[i])
    case Ch(c) => c != '\n'
  }

  predicate Lexical(elems: seq<Elem>) {
    forall k :: 0 <= k < |elems| ==> Lexeme(elems[k])
  }

  lemma {:induction false} ExpandPlain(name: string, more: string, args: seq<string>)
    requires forall i :: 0 <= i < |name| ==> name[i] != '#' && name[i] != '\n'
    ensures var e := Expand(more, args);
            Expand(name + more, args) == if e.None? then None else Some(name + e.value)
  {
    if name == [] {
      assert name + more == more;
      assert forall v: string :: name + v == v;
    } else {
      assert (name + more)[1..] == name[1..] + more;
      ExpandPlain(name[1..], more, args);
      assert forall v: string :: [name[0]] + (name[1..] + v) == name + v;
    }
  }

  lemma ExpandElem(e: Elem, more: string, params: seq<string>, args: seq<string>)
    requires 0 < |params| == |args| <= NARG && Lexeme(e)
    ensures var r := Expand(more, args);
            Expand(EncodeElem(e, params) + more, args)
            == if r.None? then None else Some(SubstElem(e, params, args) + r.value)
  {
    match e
    case Ident(name) =>
      var i := ParamIndex(params, name);
      if i < |params| {
        assert (['#', 'a' + i as char] + more)[2..] == more;
      } else {
        ExpandPlain(name, more, args);
      }
    case Ch(c) =>
      if c == '#' {
        assert ("##" + more)[2..] == more;
      } else {
        ExpandPlain([c], more, args);
      }
  }

  /** Compile, then expand: for one to twenty-five parameters this is substitution. */
  lemma {:induction false} ExpandIsSubst(elems: seq<Elem>, params: seq<string>, args: seq<string>)
    requires 0 < |params| == |args| <= NARG && Lexical(elems)
    ensures Expand(Encode(elems, params), args) == Some(Subst(elems, params, args))
    decreases elems
  {
    hide EncodeElem, SubstElem, Lexeme;
    if elems == [] {
      assert Encode(elems, params) == [];
    } else {
      ExpandIsSubst(elems[1..], params, args);
      ExpandElem(elems[0], Encode(elems[1..], params), params, args);
    }
  }

  /** Without parameters nothing is encoded. */
  lemma {:induction false} EncodeNoParams(elems: seq<Elem>)
    ensures Encode(elems, []) == Subst(elems, [], [])
  {
    if elems != [] {
      EncodeNoParams(elems[1..]);
    }
  }

  /** A `#` that is interpreted without arguments never comes out whole. */
  lemma {:induction false} HashIsLost(body: string)
    requires '\n' !in body
    ensures var r := Expand(body, []);
            if '#' in body then r.Some? ==> |r.value| < |body| else r == Some(body)
    decreases |body|
  {
    if body != [] {
      if body[0] != '#' {
        HashIsLost(body[1..]);
        assert body == [body[0]] + body[1..];
      } else if |body| > 1 {
        HashIsLost(body[2..]);
      }
    }
  }

  /** `#define F() body`: expansion is substitution if and only if the body has no `#`. */
  lemma NoParamsIffNoHash(elems: seq<Elem>)
    requires Lexical(elems)
    ensures Expand(Encode(elems, []), []) == Some(Subst(elems, [], [])) <==> '#' !in Subst(elems, [], [])
  {
    EncodeNoParams(elems);
    EncodedHasNoNewline(elems);
    HashIsLost(Encode(elems, []));
  }

  lemma {:induction false} EncodedHasNoNewline(elems: seq<Elem>)
    requires Lexical(elems)
    ensures '\n' !in Encode(elems, [])
  {
    if elems != [] {
      assert elems[0] == elems[0];
      EncodedHasNoNewline(elems[1..]);
    }
  }

  lemma ScanOneLexical(s: string, quote: Option<char>)
    requires s != [] && s[0] != '\n'
    ensures Lexical(ScanOne(s, quote).elems)
  {
  }

  lemma {:induction false} ScanLexical(s: string, quote: Option<char>, soft: bool)
    requires Scan(s, quote, soft).Some?
    ensures Lexical(Scan(s, quote, soft).value.0)
    decreases |s|
  {
    if s != [] && s[0] != '\n' {
      var one := ScanOne(s, quote);
      ScanOneLexical(s, quote);
      ScanLexical(one.rest, one.quote, one.soft);
    }
  }

  /** In a body that was not encoded: a `#` before a character that names no argument takes it away, and one at the end is an error. */
  lemma ExpandHash(c: char, more: string, args: seq<string>)
    ensures c != '#' && !(0 <= c as int - 'a' as int < |args|) ==> Expand(['#', c] + more, args) == Expand(more, args)
    ensures Expand(['#'], args) == None
  {
    var s := ['#', c] + more;
    assert s[0] == '#' && s[1] == c && s[2..] == more;
  }

  /** A stored macro: -1 for one without a parameter list, else the number of parameters. */
  datatype Macro = Macro(nargs: int, body: string)

  /** What a definition stores; None is a definition without a parameter list. */
  function Compile(elems: seq<Elem>, params: Option<seq<string>>): Macro
    requires params.Some? ==> |params.value| <= NARG
  {
    if params.None? then Macro(-1, Encode(elems, [])) else Macro(|params.value|, Encode(elems, params.value))
  }

  /** `macexpand`: a macro without a parameter list is copied, any other is interpreted. */
  function ExpandMacro(m: Macro, args: seq<string>): Option<string> {
    if m.nargs == -1 then Some(m.body) else Expand(m.body, args)
  }

  /** The parameters that can occur in a body. */
  function Listed(params: Option<seq<string>>): seq<string> {
    if params.None? then [] else params.value
  }

  /**
   For every source text: a macro compiled and then expanded is its body with the parameters
   replaced, always if it has no parameter list or at least one parameter, and for an empty
   parameter list exactly when the body has no `#`.
   */
  lemma CompileThenExpand(s: string, params: Option<seq<string>>, args: seq<string>)
    requires |Listed(params)| == |args| <= NARG && Scan(s, None, false).Some?
    ensures var elems := Scan(s, None, false).value.0;
            ExpandMacro(Compile(elems, params), args) == Some(Subst(elems, Listed(params), args))
            <==> params != Some([]) || '#' !in Subst(elems, Listed(params), args)
  {
    var elems := Scan(s, None, false).value.0;
    ScanLexical(s, None, false);
    EncodeNoParams(elems);
    if params == Some([]) {
      NoParamsIffNoHash(elems);
    } else if params.Some? {
      ExpandIsSubst(elems, params.value, args);
    }
  }

  // ----- text without comments, quotes and continuations scans to itself -----

  function Spell(elems: seq<Elem>): string {
    if elems == [] then [] else (match elems[0] case Ident(name) => name case Ch(c) => [c]) + Spell(elems[1..])
  }

  /** Names are names, other characters are plain, and no name runs into what follows it. */
  predicate Plain(elems: seq<Elem>) {
    elems == [] ||
    ((match elems[0]
      case Ident(name) =>
        && name != [] && StartsName(name[0]) && (forall i :: 0 <= i < |name| ==> InName(name[i]))
        && (elems[1..] != [] ==> elems[1].Ch? && !InName(elems[1].c))
      case Ch(c) => !StartsName(c) && c !in {'"', '\'', '/', '\\', '\n'})
     && Plain(elems[1..]))
  }

  lemma {:induction false} NameLengthExact(name: string, more: string)
    requires (forall i :: 0 <= i < |name| ==> InName(name[i])) && more != [] && !InName(more[0])
    ensures NameLength(name + more) == |name|
  {
    if name == [] {
      assert name + more == more;
    } else {
      assert (name + more)[1..] == name[1..] + more;
      NameLengthExact(name[1..], more);
    }
  }

  lemma ScanName(name: string, more: string)
    requires name != [] && StartsName(name[0]) && (forall i :: 0 <= i < |name| ==> InName(name[i]))
    requires more != [] && !InName(more[0])
    ensures ScanOne(name + more, None) == Scanned([Ident(name)], more, None, false)
  {
    var s := name + more;
    assert s[1..] == name[1..] + more;
    NameLengthExact(name[1..], more);
    assert s[..|name|] == name && s[|name|..] == more;
  }

  lemma ScanChar(c: char, more: string)
    requires !StartsName(c) && c !in {'"', '\'', '/', '\\', '\n'}
    ensures ScanOne([c] + more, None) == Scanned([Ch(c)], more, None, true)
  {
    assert ([c] + more)[1..] == more;
  }

  lemma {:induction false} ScanRender(elems: seq<Elem>, rest: string)
    requires Plain(elems)
    ensures forall soft :: Scan(Spell(elems) + "\n" + rest, None, soft) == Some((elems, rest))
  {
    hide ScanOne, StartsName, InName;
    var s := Spell(elems) + "\n" + rest;
    if elems == [] {
      assert s == "\n" + rest && s[1..] == rest;
    } else {
      var more := Spell(elems[1..]) + "\n" + rest;
      ScanRender(elems[1..], rest);
      match elems[0]
      case Ident(name) =>
        assert s == name + more;
        assert !InName(more[0]) by { assert !InName('\n') by { NewlineEndsName(); } }
        ScanName(name, more);
        NameStart(name);
        assert [Ident(name)] + elems[1..] == elems;
      case Ch(c) =>
        assert s == [c] + more;
        ScanChar(c, more);
        assert [Ch(c)] + elems[1..] == elems;
    }
  }

  lemma NewlineEndsName()
    ensures !InName('\n')
  {
  }

  lemma NameStart(name: string)
    requires name != [] && StartsName(name[0])
    ensures name[0] != '\n'
  {
  }

  // ----- a body ends with its line -----

  /** The rest of a line, the newline, and the text of the lines below. */
  function Nl(t: string, rest: string): string {
    t + ['\n'] + rest
  }

  lemma NlDrop(t: string, rest: string, k: nat)
    requires k <= |t|
    ensures Nl(t, rest)[k..] == Nl(t[k..], rest)
  {
  }

  /** A line that the next one continues, if it is read as the end of a body. */
  predicate Continued(t: string) {
    t != [] && (t[|t| - 1] == '\\' || (|t| > 1 && t[|t| - 1] == '\r' && t[|t| - 2] == '\\'))
  }

  lemma {:induction false} NameInLine(t: string, rest: string)
    ensures NameLength(Nl(t, rest)) <= |t|
  {
    if t != [] {
      NlDrop(t, rest, 1);
      NameInLine(t[1..], rest);
    }
  }

  lemma {:induction false} SkipLineInLine(t: string, rest: string) returns (k: nat)
    requires '\n' !in t
    ensures k <= |t| && SkipLine(Nl(t, rest)) == Nl(t[k..], rest)
  {
    if t == [] {
      k := 0;
    } else {
      NlDrop(t, rest, 1);
      k := SkipLineInLine(t[1..], rest);
      k := k + 1;
    }
  }

  lemma {:induction false} SkipLineExact(text: string, rest: string)
    requires '\n' !in text
    ensures SkipLine(Nl(text, rest)) == Nl([], rest)
  {
    if text != [] {
      NlDrop(text, rest, 1);
      SkipLineExact(text[1..], rest);
    }
  }

  lemma {:induction false} SkipCommentInLine(t: string, rest: string) returns (k: nat)
    requires '\n' !in t
    ensures k <= |t| && SkipComment(Nl(t, rest)) == Nl(t[k..], rest)
  {
    var s := Nl(t, rest);
    if t == [] {
      k := 0;
    } else if t[0] == '*' && |t| > 1 && t[1] == '/' {
      k := 2;
      NlDrop(t, rest, 2);
    } else {
      assert |t| == 1 ==> s[1] == '\n';
      NlDrop(t, rest, 1);
      k := SkipCommentInLine(t[1..], rest);
      k := k + 1;
    }
  }

  /** One round never leaves a line that is not continued. */
  lemma ScanOneInLine(t: string, rest: string, quote: Option<char>) returns (k: nat)
    requires t != [] && '\n' !in t && !Continued(t)
    ensures 0 < k <= |t| && ScanOne(Nl(t, rest), quote).rest == Nl(t[k..], rest)
  {
    hide NameLength, SkipLine, SkipComment, StartsName;
    var s := Nl(t, rest);
    assert s[0] == t[0] && (|t| > 1 ==> s[1] == t[1]) && (|t| == 1 ==> s[1] == '\n');
    assert |t| > 2 ==> s[2] == t[2];
    assert |t| == 2 ==> s[2] == '\n';
    NlDrop(t, rest, 1);
    if StartsName(t[0]) {
      NameInLine(t[1..], rest);
      k := 1 + NameLength(s[1..]);
      NlDrop(t, rest, k);
    } else if quote.None? && t[0] == '/' && |t| > 1 && (t[1] == '/' || t[1] == '*') {
      NlDrop(t, rest, 2);
      if t[1] == '/' {
        k := SkipLineInLine(t[2..], rest);
      } else {
        k := SkipCommentInLine(t[2..], rest);
      }
      assert t[2..][k..] == t[2 + k..];
      k := k + 2;
    } else {
      k := ScanCharInLine(t, rest, quote);
    }
  }

  lemma ScanCharInLine(t: string, rest: string, quote: Option<char>) returns (k: nat)
    requires t != [] && '\n' !in t && !Continued(t) && !StartsName(t[0])
    requires !(quote.None? && t[0] == '/' && |t| > 1 && (t[1] == '/' || t[1] == '*'))
    ensures 0 < k <= |t| && ScanOne(Nl(t, rest), quote).rest == Nl(t[k..], rest)
  {
    var s := Nl(t, rest);
    assert s[0] == t[0] && (if |t| > 1 then s[1] == t[1] else s[1] == '\n');
    k := |s| - |ScanOne(s, quote).rest|;
    NlDrop(t, rest, 1);
    if |t| > 1 {
      NlDrop(t, rest, 2);
      assert if |t| > 2 then s[2] == t[2] else s[2] == '\n';
    }
    if |t| > 2 {
      NlDrop(t, rest, 3);
      assert s[1..][2..] == s[3..];
    }
    assert s[1..][1..] == s[2..];
  }

  /** A body that its line does not continue ends with the line, whatever quotes and comments are in it. */
  lemma {:induction false} ScanEndsWithLine(t: string, rest: string, quote: Option<char>, soft: bool)
    requires '\n' !in t && !Continued(t)
    ensures var r := Scan(Nl(t, rest), quote, soft); r.Some? && r.value.1 == rest
    decreases |t|
  {
    hide ScanOne;
    var s := Nl(t, rest);
    if t == [] {
      assert s[1..] == rest;
    } else {
      var k := ScanOneInLine(t, rest, quote);
      var one := ScanOne(s, quote);
      ScanEndsWithLine(t[k..], rest, one.quote, one.soft);
    }
  }

  // ----- the loop of macdef -----

  lemma {:induction false} EncodeAppend(a: seq<Elem>, b: seq<Elem>, params: seq<string>)
    requires |params| <= NARG
    ensures Encode(a + b, params) == Encode(a, params) + Encode(b, params)
  {
    if a == [] {
      assert a + b == b;
    } else {
      assert (a + b)[1..] == a[1..] + b;
      EncodeAppend(a[1..], b, params);
    }
  }

  lemma EncodeNothing(params: seq<string>)
    requires |params| <= NARG
    ensures Encode([], params) == []
  {
  }

  lemma EncodeOne(e: Elem, params: seq<string>)
    requires |params| <= NARG
    ensures Encode([e], params) == EncodeElem(e, params)
  {
    assert [e][1..] == [];
  }

  lemma EncodeTwo(e: Elem, f: Elem, params: seq<string>)
    requires |params| <= NARG
    ensures Encode([e, f], params) == EncodeElem(e, params) + EncodeElem(f, params)
  {
    assert [e, f] == [e] + [f];
    EncodeOne(e, params);
    EncodeOne(f, params);
    EncodeAppend([e], [f], params);
  }

  /** The unread input with the current character in front, as `c` and `getc()` present it. */
  class Definer {
    var input: string
    var base: string

    constructor (input: string)
      ensures this.input == input && base == []
    {
      this.input := input;
      base := [];
    }

    /** Read on to the newline, or the end of the file, that ends the body; false is the end-of-file exit. */
    method CompileBody(params: Option<seq<string>>) returns (ok: bool, macro: Macro)
      requires |Listed(params)| <= NARG
      modifies this
      ensures ok <==> Scan(old(input), None, false).Some?
      ensures ok ==> var r := Scan(old(input), None, false).value;
                     input == r.1 && macro == Compile(r.0, params)
    {
      ok := CompileElems(Listed(params));
      macro := Macro(if params.None? then -1 else |params.value|, base);
    }

    method CompileElems(params: seq<string>) returns (ok: bool)
      requires |params| <= NARG
      modifies this
      ensures ok <==> Scan(old(input), None, false).Some?
      ensures ok ==> var r := Scan(old(input), None, false).value;
                     input == r.1 && base == Encode(r.0, params)
    {
      hide ScanOne, Encode;
      base := [];
      EncodeNothing(params);
      var ischr: Option<char> := None;
      var soft := false;
      ghost var done: seq<Elem> := [];
      assert forall e: seq<Elem> :: [] + e == e;
      while input != [] && input[0] != '\n'
        invariant base == Encode(done, params)
        invariant var r := Scan(input, ischr, soft);
                  Scan(old(input), None, false) == if r.None? then None else Some((done + r.value.0, r.value.1))
        decreases |input|
      {
        ghost var one := ScanOne(input, ischr);
        EncodeAppend(done, one.elems, params);
        assert forall e: seq<Elem> :: done + (one.elems + e) == done + one.elems + e;
        done := done + one.elems;
        ischr, soft := CompileOne(params, ischr);
      }
      assert forall e: seq<Elem> :: e + [] == e;
      if input == [] {
        return soft;
      }
      input := input[1..];
      ok := true;
    }

    /** One round of the loop. */
    method CompileOne(params: seq<string>, ischr: Option<char>) returns (quote: Option<char>, soft: bool)
      requires |params| <= NARG && input != [] && input[0] != '\n'
      modifies this
      ensures var one := ScanOne(old(input), ischr);
              && input == one.rest && quote == one.quote && soft == one.soft
              && base == old(base) + Encode(one.elems, params)
    {
      quote, soft := ischr, false;
      var c := input[0];
      if StartsName(c) {
        Name(params);
      } else if quote.Some? {
        quote, soft := Quoted(params, ischr.value);
      } else if c == '"' || c == '\'' {
        Put(c, params);
        quote := Some(c);
      } else if c == '/' {
        Slash(params);
      } else if c == '\\' {
        Continuation(params);
      } else {
        Put(c, params);
        soft := true;
      }
    }

    /** Store a character, doubling `#` when there are parameters, and read on. */
    method Put(c: char, params: seq<string>)
      requires |params| <= NARG && input != [] && c == input[0]
      modifies this
      ensures input == old(input)[1..] && base == old(base) + Encode([Ch(c)], params)
    {
      if c == '#' && |params| > 0 {
        base := base + [c];
      }
      base := base + [c];
      input := input[1..];
      EncodeOne(Ch(c), params);
    }

    /** Inside a string or a character constant. */
    method Quoted(params: seq<string>, ischr: char) returns (quote: Option<char>, soft: bool)
      requires |params| <= NARG && input != [] && input[0] != '\n' && !StartsName(input[0])
      modifies this
      ensures var one := ScanOne(old(input), Some(ischr));
              && input == one.rest && quote == one.quote && soft == one.soft
              && base == old(base) + Encode(one.elems, params)
    {
      quote, soft := Some(ischr), false;
      var c := input[0];
      if c == '\\' {
        Put(c, params);
        if input == [] || input[0] == '\n' {
          return;
        }
        if input[0] == '\\' {
          ghost var b := Backslash(input);
          EncodeAppend([Ch(c)], b.elems, params);
          Continuation(params);
          return;
        }
        EncodeTwo(Ch(c), Ch(input[0]), params);
        EncodeOne(Ch(c), params);
        EncodeOne(Ch(input[0]), params);
        Put(input[0], params);
      } else {
        if c == ischr {
          quote := None;
        }
        Put(c, params);
      }
      soft := true;
    }

    method Slash(params: seq<string>)
      requires |params| <= NARG && input != [] && input[0] == '/'
      modifies this
      ensures var one := ScanOne(old(input), None);
              input == one.rest && base == old(base) + Encode(one.elems, params)
    {
      input := input[1..];
      if input != [] && input[0] == '/' {
        input := input[1..];
        assert input == old(input)[2..];
        while input != [] && input[0] != '\n'
          invariant SkipLine(input) == SkipLine(old(input)[2..]) && base == old(base)
          decreases |input|
        {
          input := input[1..];
        }
      } else if input != [] && input[0] == '*' {
        input := input[1..];
        assert input == old(input)[2..];
        while input != [] && input[0] != '\n'
          invariant SkipComment(input) == SkipComment(old(input)[2..]) && base == old(base)
          decreases |input|
        {
          if input[0] == '*' && |input| > 1 && input[1] == '/' {
            input := input[2..];
            break;
          }
          input := input[1..];
        }
      } else {
        base := base + ['/'];
        EncodeOne(Ch('/'), params);
      }
    }

    /** A backslash outside quotes, or the second of two inside. */
    method Continuation(params: seq<string>)
      requires |params| <= NARG && input != [] && input[0] == '\\'
      modifies this
      ensures var b := Backslash(old(input));
              input == b.rest && base == old(base) + Encode(b.elems, params)
    {
      EncodeOne(Ch('\\'), params);
      input := input[1..];
      if input != [] && input[0] == '\n' {
        input := input[1..];
        return;
      }
      if input != [] && input[0] == '\r' {
        input := input[1..];
        if input != [] && input[0] == '\n' {
          input := input[1..];
          return;
        }
      }
      base := base + ['\\'];
    }

    method Name(params: seq<string>)
      requires |params| <= NARG && input != [] && StartsName(input[0])
      modifies this
      ensures var n := 1 + NameLength(old(input)[1..]);
              input == old(input)[n..] && base == old(base) + Encode([Ident(old(input)[..n])], params)
    {
      hide NameLength, ParamIndex;
      var n := NameEnd();
      var symb := input[..n];
      var i := FindParam(params, symb);
      base := base + if i >= |params| then symb else ['#', 'a' + i as char];
      input := input[n..];
      EncodeOne(Ident(symb), params);
    }

    /** Where the name at the front of the input ends. */
    method NameEnd() returns (n: nat)
      requires input != []
      ensures 1 <= n <= |input| && n == 1 + NameLength(input[1..])
    {
      hide InName;
      n := 1;
      while n < |input| && InName(input[n])
        invariant 1 <= n <= |input| && NameLength(input[1..]) == n - 1 + NameLength(input[n..])
      {
        assert input[n..][1..] == input[n + 1..];
        n := n + 1;
      }
    }
  }

  method FindParam(params: seq<string>, symb: string) returns (i: nat)
    ensures i == ParamIndex(params, symb)
  {
    i := 0;
    assert params[0..] == params;
    while i < |params| && params[i] != symb
      invariant i <= |params| && ParamIndex(params, symb) == i + ParamIndex(params[i..], symb)
    {
      assert params[i..][1..] == params[i + 1..];
      i := i + 1;
    }
  }

  /** The loop of `macexpand` over the encoded body. */
  method ExpandBody(macro: string, args: seq<string>) returns (r: Option<string>)
    ensures r == Expand(macro, args)
  {
    var cp := 0;
    var b: string := [];
    assert macro[0..] == macro && forall v: string :: b + v == v;
    while cp < |macro|
      invariant cp <= |macro|
      invariant var e := Expand(macro[cp..], args);
                Expand(macro, args) == if e.None? then None else Some(b + e.value)
    {
      var c := macro[cp];
      ghost var b0 := b;
      assert cp + 1 < |macro| ==> macro[cp..][2..] == macro[cp + 2..];
      assert macro[cp..][1..] == macro[cp + 1..];
      cp := cp + 1;
      if c == '\n' {
        c := ' ';
      }
      if c != '#' {
        b := b + [c];
        assert forall v: string :: b0 + ([c] + v) == b + v;
        continue;
      }
      if cp == |macro| {
        return None;
      }
      c := macro[cp];
      cp := cp + 1;
      if c == '#' {
        b := b + [c];
        assert forall v: string :: b0 + ([c] + v) == b + v;
        continue;
      }
      var i := c as int - 'a' as int;
      if 0 <= i < |args| {
        b := b + args[i];
        assert forall v: string :: b0 + (args[i] + v) == b + v;
      }
    }
    assert macro[cp..] == [];
    assert b + [] == b;
    r := Some(b);
  }

  /** The expansion of a stored macro whose arguments have been read. */
  method ExpandStored(m: Macro, args: seq<string>) returns (r: Option<string>)
    ensures r == ExpandMacro(m, args)
  {
    if m.nargs == -1 {
      return Some(m.body);
    }
    r := ExpandBody(m.body, args);
  }
}
