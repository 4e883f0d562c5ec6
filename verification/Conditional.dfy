/**
 Conditional assembly: `#ifdef`, `#ifndef`, `#else` and `#endif` are handled by skipping
 characters and counting nested conditions, without ever building a tree. For every
 well-nested source the lines that reach the lexer are those whose conditions hold.
 */
module Conditional {
  import opened Wrappers
  import opened MacroBody
  import opened Directive

  /**
   The skipping loop of `macif`, at the beginning of a line when `bol`, inside `l` nested
   conditions. It stops behind the line of its `#endif` or, unless it was started by an
   `#else`, of its `#else`.
   */
  function Skip(s: string, bol: bool, l: nat, fromElse: bool): (r: Option<string>)
    ensures r.Some? ==> |r.value| < |s|
    decreases |s|
  {
    if s == [] then None
    else if s[0] != '#' then Skip(s[1..], s[0] == '\n' || (bol && IsSpace(s[0])), l, fromElse)
    else if !bol then Skip(s[1..], bol, l, fromElse)
    else
      var sym := GetSym(s[1..]);
      if sym.None? then None
      else
        var (name, rest) := (sym.value.name, sym.value.rest);
        if name == "endif" then
          if l > 0 then Skip(rest, bol, l - 1, fromElse) else MacEnd(rest)
        else if name == "ifdef" || name == "ifndef" then Skip(rest, bol, l + 1, fromElse)
        else if l == 0 && !fromElse && name == "else" then MacEnd(rest)
        else Skip(rest, bol, l, fromElse)
  }

  /** `macif` for `#ifdef` and `#ifndef`: where reading goes on. */
  function MacIf(s: string, negated: bool, macros: set<string>): (r: Option<string>)
    ensures r.Some? ==> |r.value| < |s|
  {
    var sym := GetSym(s);
    if sym.None? then None
    else if sym.value.name == [] then MacEnd(sym.value.rest)
    else
      var com := GetCom(sym.value.rest);
      if com.None? then None
      else if com.value.0 != '\n' then MacEnd(com.value.1)
      else if (sym.value.name in macros) != negated then Some(com.value.1)
      else Skip(com.value.1, true, 0, false)
  }

  datatype Output = Output(lines: seq<string>, macros: set<string>)

  function LineLength(s: string): (n: nat)
    ensures n <= |s|
  {
    if s == [] || s[0] == '\n' then 0 else 1 + LineLength(s[1..])
  }

  /** An `#undef` without a name is only diagnosed. */
  function Without(macros: set<string>, name: string): set<string> {
    if name == [] then macros else macros - {name}
  }

  /** A directive, behind its `#`: where reading goes on, and the macros defined then. */
  function DoMacro(s: string, macros: set<string>): (r: Option<(string, set<string>)>)
    ensures r.Some? ==> |r.value.0| <= |s|
  {
    var sym := GetSym(s);
    if sym.None? then None
    else
      var (name, rest) := (sym.value.name, sym.value.rest);
      if name == "define" then
        var d := MacDef(rest);
        if d.None? then None
        else Some((d.value.0, if d.value.1.None? then macros else macros + {d.value.1.value.0}))
      else if name == "undef" then
        var arg := GetSym(rest);
        var after := if arg.None? then None else MacEnd(arg.value.rest);
        if after.None? then None else Some((after.value, Without(macros, arg.value.name)))
      else
        var after :=
          if name == "ifdef" then MacIf(rest, false, macros)
          else if name == "ifndef" then MacIf(rest, true, macros)
          else if name == "else" then Skip(rest, true, 0, true)
          else MacEnd(rest);
        if after.None? then None else Some((after.value, macros))
  }

  /** The lines that reach the lexer, and the macros defined at the end; None is an end-of-file exit. */
  function Run(s: string, macros: set<string>): Option<Output>
    decreases |s|
  {
    if s == [] then Some(Output([], macros))
    else
      var t := SkipBlanks(s);
      if t != [] && t[0] == '#' then
        var d := DoMacro(t[1..], macros);
        if d.None? then None else Run(d.value.0, d.value.1)
      else
        var n := LineLength(s);
        if n == |s| then Some(Output([s], macros))
        else
          var more := Run(s[n + 1..], macros);
          if more.None? then None else Some(Output([s[..n]] + more.value.lines, more.value.macros))
  }

  // ----- sources as trees -----

  /** How a directive is written: blanks before and behind the `#`, and what follows the word. */
  datatype Form = Form(indent: string, gap: string, tail: string) {
    predicate Valid() {
      && Blank(indent) && Blank(gap) && '\n' !in tail
      && (tail != [] ==> !SymPart(tail[0])) && Quiet(tail)
    }

    /** The line with `word`, and what follows it. */
    function Line(word: string, rest: string): string {
      indent + (['#'] + (gap + word + Nl(tail, rest)))
    }
  }

  /** Text that does not start with a `#`, blanks aside. */
  predicate Quiet(t: string) {
    var u := SkipBlanks(t);
    u == [] || u[0] != '#'
  }

  /** A source is a list of items; a condition holds two more lists. */
  datatype Source =
    | Nil
    | Text(line: string, next: Source)
    | Define(form: Form, next: Source)
    | Undef(form: Form, next: Source)
    | Other(word: string, form: Form, next: Source)
    | Cond(negated: bool, form: Form, body: Source, hasElse: bool, elseForm: Form, alt: Source, endForm: Form, next: Source)

  /** The text of a source, followed by `rest`. */
  function Render(src: Source, rest: string): string {
    match src
    case Nil => rest
    case Text(line, next) => Nl(line, Render(next, rest))
    case Define(form, next) => form.Line("define", Render(next, rest))
    case Undef(form, next) => form.Line("undef", Render(next, rest))
    case Other(word, form, next) => form.Line(word, Render(next, rest))
    case Cond(negated, form, body, hasElse, elseForm, alt, endForm, next) =>
      var end := endForm.Line("endif", Render(next, rest));
      form.Line(if negated then "ifndef" else "ifdef",
                Render(body, if hasElse then elseForm.Line("else", Render(alt, end)) else end))
  }

  /** The name a line gives behind its word. */
  function Named(form: Form): string {
    LineSym(form.tail).name
  }

  /** The lines whose enclosing conditions all hold where they stand. */
  function Active(src: Source, macros: set<string>): Output {
    match src
    case Nil => Output([], macros)
    case Text(line, next) =>
      var more := Active(next, macros);
      Output([line] + more.lines, more.macros)
    case Define(form, next) => Active(next, macros + {Named(form)})
    case Undef(form, next) => Active(next, Without(macros, Named(form)))
    case Other(_, _, next) => Active(next, macros)
    case Cond(negated, form, body, hasElse, _, alt, _, next) =>
      var chosen := if (Named(form) in macros) != negated then Active(body, macros)
                    else if hasElse then Active(alt, macros) else Output([], macros);
      var more := Active(next, chosen.macros);
      Output(chosen.lines + more.lines, more.macros)
  }

  /** A word that is no directive: the line is diagnosed and dropped. */
  predicate IsUnknown(word: string) {
    IsName(word) && word !in {"ifdef", "ifndef", "else", "endif", "include", "line", "define", "undef", "pragma"}
  }

  predicate IsText(line: string) {
    '\n' !in line && '#' !in line
  }

  /**
   Directives may be indented. A definition is any line the assembler accepts and the next line
   does not continue; behind the name of a condition there are blanks and comments; an `#else`
   or `#endif` may be followed by anything.
   */
  predicate WellFormed(src: Source) {
    match src
    case Nil => true
    case Text(line, next) => IsText(line) && WellFormed(next)
    case Define(form, next) => form.Valid() && Defines(form.tail) && WellFormed(next)
    case Undef(form, next) => form.Valid() && WellFormed(next)
    case Other(word, form, next) => IsUnknown(word) && form.Valid() && WellFormed(next)
    case Cond(negated, form, body, hasElse, elseForm, alt, endForm, next) =>
      && form.Valid() && Named(form) != [] && Trailing(LineSym(form.tail).rest)
      && elseForm.Valid() && endForm.Valid()
      && WellFormed(body) && WellFormed(alt) && WellFormed(next)
  }

  // ----- skipping what was rendered -----

  /** A line that does not start with `#` is skipped whole. */
  lemma {:induction false} SkipText(line: string, rest: string, bol: bool, l: nat, fromElse: bool)
    requires '\n' !in line && (bol ==> Quiet(line))
    ensures Skip(Nl(line, rest), bol, l, fromElse) == Skip(rest, true, l, fromElse)
    decreases line
  {
    hide GetSym, IsSpace;
    HashEndsBlanks();
    var s := Nl(line, rest);
    if line == [] {
      assert s[0] == '\n' && s[1..] == rest;
    } else {
      NlDrop(line, rest, 1);
      SkipText(line[1..], rest, bol && IsSpace(s[0]), l, fromElse);
    }
  }

  lemma {:induction false} SkipIndent(indent: string, s: string, l: nat, fromElse: bool)
    requires Blank(indent)
    ensures Skip(indent + s, true, l, fromElse) == Skip(s, true, l, fromElse)
    decreases indent
  {
    hide GetSym;
    if indent == [] {
      assert indent + s == s;
    } else {
      HashIsNoBlank(indent);
      assert (indent + s)[1..] == indent[1..] + s;
      SkipIndent(indent[1..], s, l, fromElse);
    }
  }

  lemma HashIsNoBlank(indent: string)
    requires Blank(indent) && indent != []
    ensures indent[0] != '#' && Blank(indent[1..])
  {
  }

  /** What the loop does at a directive with name `word`. */
  lemma SkipDirective(word: string, form: Form, rest: string, l: nat, fromElse: bool)
    requires IsName(word) && form.Valid()
    ensures Skip(form.Line(word, rest), true, l, fromElse) ==
              if word == "endif" && l == 0 then Some(rest)
              else if word == "else" && l == 0 && !fromElse then Some(rest)
              else Skip(rest, true,
                        if word == "endif" then l - 1 else if word == "ifdef" || word == "ifndef" then l + 1 else l,
                        fromElse)
  {
    hide GetSym, SymPart, MacEnd, IsName, Skip, Blank, Quiet;
    var after := Nl(form.tail, rest);
    SkipIndent(form.indent, ['#'] + (form.gap + word + after), l, fromElse);
    AfterWord(form, rest);
    SkipAtDirective(form.gap, word, after, l, fromElse);
    MacEndExact(form.tail, rest);
    SkipText(form.tail, rest, true, l, fromElse);
    SkipText(form.tail, rest, true, l + 1, fromElse);
    if l > 0 {
      SkipText(form.tail, rest, true, l - 1, fromElse);
    }
  }

  lemma AfterWord(form: Form, rest: string)
    requires form.Valid()
    ensures !SymPart(Nl(form.tail, rest)[0])
  {
    NewlineEndsSym();
    assert Nl(form.tail, rest)[0] == if form.tail == [] then '\n' else form.tail[0];
  }

  lemma SkipAtDirective(gap: string, word: string, after: string, l: nat, fromElse: bool)
    requires Blank(gap) && IsName(word) && after != [] && !SymPart(after[0])
    ensures Skip(['#'] + (gap + word + after), true, l, fromElse) ==
              if word == "endif" then (if l > 0 then Skip(after, true, l - 1, fromElse) else MacEnd(after))
              else if word == "ifdef" || word == "ifndef" then Skip(after, true, l + 1, fromElse)
              else if l == 0 && !fromElse && word == "else" then MacEnd(after)
              else Skip(after, true, l, fromElse)
  {
    hide GetSym, SymPart, MacEnd, Blank;
    var s := gap + word + after;
    assert (['#'] + s)[1..] == s;
    GetSymExact(gap, word, after);
  }

  lemma Words()
    ensures IsName("ifdef") && IsName("ifndef") && IsName("else") && IsName("endif") && IsName("define") && IsName("undef")
    ensures "ifdef" !in {"ifndef", "else", "endif", "define", "undef"}
    ensures "ifndef" !in {"else", "endif", "define", "undef"}
    ensures "else" !in {"endif", "define", "undef"} && "endif" !in {"define", "undef"} && "define" != "undef"
  {
    assert "ifdef"[0] == 'i' && "endif"[0] == 'e' && "undef"[0] == 'u' && "define"[0] == 'd' && "ifndef"[0] == 'i';
  }

  lemma TextIsQuiet(line: string)
    requires IsText(line)
    ensures '\n' !in line && Quiet(line)
  {
    SkipBlanksInLine(line, []);
    var u := SkipBlanks(line);
    assert u != [] ==> u[0] in line;
  }

  /** A well-nested source inside a skipped region is skipped whole, whatever is nested in it. */
  lemma {:induction false} SkipRender(src: Source, rest: string, l: nat, fromElse: bool)
    requires WellFormed(src)
    ensures Skip(Render(src, rest), true, l, fromElse) == Skip(rest, true, l, fromElse)
    decreases src
  {
    hide IsName, IsText, GetSym, Skip, Form.Line, Form.Valid, Defines, Trailing, LineSym, Quiet;
    Words();
    match src
    case Nil =>
    case Text(line, next) =>
      TextIsQuiet(line);
      SkipText(line, Render(next, rest), true, l, fromElse);
      SkipRender(next, rest, l, fromElse);
    case Define(form, next) =>
      SkipDirective("define", form, Render(next, rest), l, fromElse);
      SkipRender(next, rest, l, fromElse);
    case Undef(form, next) =>
      SkipDirective("undef", form, Render(next, rest), l, fromElse);
      SkipRender(next, rest, l, fromElse);
    case Other(word, form, next) =>
      SkipDirective(word, form, Render(next, rest), l, fromElse);
      SkipRender(next, rest, l, fromElse);
    case Cond(negated, form, body, hasElse, elseForm, alt, endForm, next) =>
      var end := endForm.Line("endif", Render(next, rest));
      var middle := if hasElse then elseForm.Line("else", Render(alt, end)) else end;
      SkipDirective(if negated then "ifndef" else "ifdef", form, Render(body, middle), l, fromElse);
      SkipRender(body, middle, l + 1, fromElse);
      if hasElse {
        SkipDirective("else", elseForm, Render(alt, end), l + 1, fromElse);
        SkipRender(alt, end, l + 1, fromElse);
      }
      SkipDirective("endif", endForm, Render(next, rest), l + 1, fromElse);
      SkipRender(next, rest, l, fromElse);
  }

  // ----- reading what was rendered -----

  /** Reading a directive, indented or not: its word has been read, and its tail comes next. */
  lemma RunDirective(word: string, form: Form, rest: string, macros: set<string>)
    requires IsName(word) && form.Valid()
    ensures GetSym(form.gap + word + Nl(form.tail, rest)) == Some(Sym(word, Nl(form.tail, rest)))
    ensures Run(form.Line(word, rest), macros) ==
              var d := DoMacro(form.gap + word + Nl(form.tail, rest), macros);
              if d.None? then None else Run(d.value.0, d.value.1)
  {
    hide DoMacro, SymPart, SymStart, GetSym, Blank, Quiet, IsName;
    var s := form.gap + word + Nl(form.tail, rest);
    AfterWord(form, rest);
    GetSymExact(form.gap, word, Nl(form.tail, rest));
    HashEndsBlanks();
    SkipBlanksExact(form.indent, ['#'] + s);
    assert (['#'] + s)[1..] == s;
  }

  lemma HashEndsBlanks()
    ensures !IsSpace('#')
  {
  }

  lemma RunText(line: string, rest: string, macros: set<string>)
    requires IsText(line)
    ensures Run(Nl(line, rest), macros) == Then([line], Run(rest, macros))
  {
    hide DoMacro;
    var s := Nl(line, rest);
    TextIsQuiet(line);
    SkipBlanksInLine(line, rest);
    assert SkipBlanks(s)[0] != '#';
    LineLengthExact(line, rest);
    assert s[..|line|] == line && s[|line| + 1..] == rest;
  }

  lemma {:induction false} LineLengthExact(line: string, rest: string)
    requires '\n' !in line
    ensures LineLength(Nl(line, rest)) == |line|
  {
    if line != [] {
      NlDrop(line, rest, 1);
      LineLengthExact(line[1..], rest);
    }
  }

  function Then(lines: seq<string>, more: Option<Output>): Option<Output> {
    if more.None? then None else Some(Output(lines + more.value.lines, more.value.macros))
  }

  lemma RunDefine(form: Form, rest: string, macros: set<string>)
    requires form.Valid() && Defines(form.tail)
    ensures Run(form.Line("define", rest), macros) == Run(rest, macros + {Named(form)})
  {
    hide GetSym, MacEnd, Run, IsName, SymPart, MacDef, LineSym, Defines, Form.Line, Blank, Quiet;
    Words();
    RunDirective("define", form, rest, macros);
    MacDefInLine(form.tail, rest);
  }

  lemma RunUndef(form: Form, rest: string, macros: set<string>)
    requires form.Valid()
    ensures Run(form.Line("undef", rest), macros) == Run(rest, Without(macros, Named(form)))
  {
    hide GetSym, MacEnd, Run, IsName, SymPart, Form.Line, Blank, Quiet, LineSym;
    Words();
    RunDirective("undef", form, rest, macros);
    GetSymInLine(form.tail, rest);
    MacEndExact(LineSym(form.tail).rest, rest);
  }

  lemma RunOther(word: string, form: Form, rest: string, macros: set<string>)
    requires IsUnknown(word) && form.Valid()
    ensures Run(form.Line(word, rest), macros) == Run(rest, macros)
  {
    hide GetSym, MacEnd, Run, IsName, SymPart, Form.Line, Blank, Quiet, MacDef, MacIf, Skip;
    RunDirective(word, form, rest, macros);
    MacEndExact(form.tail, rest);
  }

  lemma RunEndif(form: Form, rest: string, macros: set<string>)
    requires form.Valid()
    ensures Run(form.Line("endif", rest), macros) == Run(rest, macros)
  {
    hide GetSym, MacEnd, Run, IsName, SymPart, Form.Line, Blank, Quiet;
    Words();
    RunDirective("endif", form, rest, macros);
    MacEndExact(form.tail, rest);
  }

  lemma RunElse(elseForm: Form, alt: Source, endForm: Form, rest: string, macros: set<string>)
    requires elseForm.Valid() && endForm.Valid() && WellFormed(alt)
    ensures Run(elseForm.Line("else", Render(alt, endForm.Line("endif", rest))), macros) == Run(rest, macros)
  {
    hide GetSym, MacEnd, Run, IsName, SymPart, Skip, Form.Line, Blank, Quiet;
    Words();
    var end := endForm.Line("endif", rest);
    RunDirective("else", elseForm, Render(alt, end), macros);
    SkipText(elseForm.tail, Render(alt, end), true, 0, true);
    SkipRender(alt, end, 0, true);
    SkipDirective("endif", endForm, rest, 0, true);
  }

  lemma RunIf(negated: bool, form: Form, rest: string, macros: set<string>)
    requires form.Valid() && Named(form) != [] && Trailing(LineSym(form.tail).rest)
    ensures Run(form.Line(if negated then "ifndef" else "ifdef", rest), macros) ==
              if (Named(form) in macros) != negated then Run(rest, macros)
              else
                var after := Skip(rest, true, 0, false);
                if after.None? then None else Run(after.value, macros)
  {
    hide GetSym, MacEnd, Run, IsName, SymPart, Skip, GetCom, Form.Line, Blank, Quiet, LineSym, Trailing;
    Words();
    var word := if negated then "ifndef" else "ifdef";
    RunDirective(word, form, rest, macros);
    GetSymInLine(form.tail, rest);
    GetComInLine(LineSym(form.tail).rest, rest);
  }

  /** A last line without a newline is delivered too. */
  lemma UnfinishedLine(line: string, macros: set<string>)
    requires IsText(line) && line != []
    ensures Run(line, macros) == Some(Output([line], macros))
  {
    hide DoMacro;
    TextIsQuiet(line);
    WholeLine(line);
  }

  lemma {:induction false} WholeLine(line: string)
    requires '\n' !in line
    ensures LineLength(line) == |line|
  {
    if line != [] {
      WholeLine(line[1..]);
    }
  }

  /** A line with a `#` alone is dropped. */
  lemma NullDirective(t: string, rest: string, macros: set<string>)
    requires '\n' !in t && LineSym(t).name == []
    ensures DoMacro(Nl(t, rest), macros) == Some((rest, macros))
  {
    hide GetSym, MacEnd, LineSym, MacIf, MacDef, Skip;
    Words();
    GetSymInLine(t, rest);
    MacEndExact(LineSym(t).rest, rest);
  }

  /** A condition without a name is diagnosed and dropped. */
  lemma NamelessCondition(t: string, rest: string, negated: bool, macros: set<string>)
    requires '\n' !in t && LineSym(t).name == []
    ensures MacIf(Nl(t, rest), negated, macros) == Some(rest)
  {
    hide GetSym, MacEnd, LineSym, Skip, GetCom;
    GetSymInLine(t, rest);
    MacEndExact(LineSym(t).rest, rest);
  }

  /** So is one with other text behind its name. */
  lemma CrowdedCondition(t: string, gap: string, c: char, behind: string, rest: string, negated: bool, macros: set<string>)
    requires '\n' !in t && LineSym(t).name != [] && LineSym(t).rest == gap + [c] + behind
    requires Blank(gap) && !IsSpace(c) && c != '/'
    ensures MacIf(Nl(t, rest), negated, macros) == Some(rest)
  {
    hide GetSym, MacEnd, LineSym, Skip, IsSpace, Blank;
    GetSymInLine(t, rest);
    var s := [c] + Nl(behind, rest);
    assert Nl(gap + [c] + behind, rest) == gap + s;
    SkipBlanksExact(gap, s);
    assert s[0] == c && s[1..] == Nl(behind, rest);
    NewlineIsSpace();
    assert '\n' !in behind;
    MacEndExact(behind, rest);
  }

  /** A definition without a name is diagnosed and dropped. */
  lemma NamelessDefinition(t: string, rest: string)
    requires '\n' !in t && LineSym(t).name == []
    ensures MacDef(Nl(t, rest)) == Some((rest, None))
  {
    hide GetSym, MacEnd, LineSym, Scan;
    GetSymInLine(t, rest);
    MacEndExact(LineSym(t).rest, rest);
  }

  /**
   Conditional assembly is what its nesting says: reading a well-nested source delivers
   exactly the lines whose enclosing conditions hold where they stand, with the macros
   defined and undefined on the way, and then goes on with what follows.
   */
  lemma {:induction false} RunRender(src: Source, rest: string, macros: set<string>)
    requires WellFormed(src)
    ensures var a := Active(src, macros);
            Run(Render(src, rest), macros) == Then(a.lines, Run(rest, a.macros))
    decreases src
  {
    hide Run, Skip, Form.Line, Form.Valid, IsName, IsText, Named, Defines, Trailing, LineSym, Quiet;
    match src
    case Nil =>
      ThenNothing(Run(rest, macros));
    case Text(line, next) =>
      RunText(line, Render(next, rest), macros);
      RunRender(next, rest, macros);
      ThenThen([line], Active(next, macros).lines, Run(rest, Active(next, macros).macros));
    case Define(form, next) =>
      RunDefine(form, Render(next, rest), macros);
      RunRender(next, rest, macros + {Named(form)});
    case Undef(form, next) =>
      RunUndef(form, Render(next, rest), macros);
      RunRender(next, rest, Without(macros, Named(form)));
    case Other(word, form, next) =>
      RunOther(word, form, Render(next, rest), macros);
      RunRender(next, rest, macros);
    case Cond(negated, form, body, hasElse, elseForm, alt, endForm, next) =>
      var after := Render(next, rest);
      var end := endForm.Line("endif", after);
      var middle := if hasElse then elseForm.Line("else", Render(alt, end)) else end;
      RunIf(negated, form, Render(body, middle), macros);
      Words();
      var chosen := if (Named(form) in macros) != negated then Active(body, macros)
                    else if hasElse then Active(alt, macros) else Output([], macros);
      if (Named(form) in macros) != negated {
        RunRender(body, middle, macros);
        if hasElse {
          RunElse(elseForm, alt, endForm, after, chosen.macros);
        } else {
          RunEndif(endForm, after, chosen.macros);
        }
      } else {
        SkipRender(body, middle, 0, false);
        if hasElse {
          SkipDirective("else", elseForm, Render(alt, end), 0, false);
          RunRender(alt, end, macros);
          RunEndif(endForm, after, chosen.macros);
        } else {
          SkipDirective("endif", endForm, after, 0, false);
          ThenNothing(Run(after, macros));
        }
      }
      assert Run(Render(src, rest), macros) == Then(chosen.lines, Run(after, chosen.macros));
      RunRender(next, rest, chosen.macros);
      ThenThen(chosen.lines, Active(next, chosen.macros).lines, Run(rest, Active(next, chosen.macros).macros));
  }

  lemma ThenNothing(more: Option<Output>)
    ensures Then([], more) == more
  {
    if more.Some? {
      assert [] + more.value.lines == more.value.lines;
    }
  }

  lemma ThenThen(a: seq<string>, b: seq<string>, more: Option<Output>)
    ensures Then(a, Then(b, more)) == Then(a + b, more)
  {
    if more.Some? {
      assert a + (b + more.value.lines) == a + b + more.value.lines;
    }
  }

  /** A whole source file. */
  lemma SourceDeliversActive(src: Source, macros: set<string>)
    requires WellFormed(src)
    ensures Run(Render(src, []), macros) == Some(Active(src, macros))
  {
    RunRender(src, [], macros);
    var a := Active(src, macros);
    assert a.lines + [] == a.lines;
  }

  // ----- the running preprocessor -----

  class Preprocessor {
    var input: string
    var table: map<string, Macro>
    var out: seq<string>

    constructor (input: string, table: map<string, Macro>)
      ensures this.input == input && this.table == table && out == []
    {
      this.input := input;
      this.table := table;
      out := [];
    }

    /** The names of the macros that are defined. */
    ghost function Macros(): set<string>
      reads this`table
    {
      table.Keys
    }

    method GetSymbol() returns (ok: bool, name: string)
      modifies this`input
      ensures ok <==> GetSym(old(input)).Some?
      ensures ok ==> GetSym(old(input)) == Some(Sym(name, input))
    {
      hide SymPart, SymStart;
      SkipSpaces();
      name := [];
      if input == [] {
        return false, name;
      }
      if !SymStart(input[0]) {
        return true, name;
      }
      var n := 1;
      assert input[1..] == input[n..];
      while n < |input| && SymPart(input[n])
        invariant 1 <= n <= |input| && SymLength(input[1..]) == n - 1 + SymLength(input[n..])
      {
        assert input[n..][1..] == input[n + 1..];
        n := n + 1;
      }
      if n == |input| {
        return false, name;
      }
      name := input[..n];
      input := input[n..];
      ok := true;
    }

    method SkipSpaces()
      modifies this`input
      ensures input == SkipBlanks(old(input))
    {
      while input != [] && IsSpace(input[0]) && input[0] != '\n'
        invariant SkipBlanks(input) == SkipBlanks(old(input))
        decreases |input|
      {
        input := input[1..];
      }
    }

    /** Behind the end of a comment, or at the newline that breaks it. */
    method FinishComment() returns (ok: bool)
      modifies this`input
      ensures ok <==> ComEnd(old(input)).Some?
      ensures ok ==> input == ComEnd(old(input)).value
    {
      while input != [] && input[0] != '\n'
        invariant ComEnd(input) == ComEnd(old(input))
        decreases |input|
      {
        if |input| > 2 && input[0] == '*' && input[1] == '/' {
          input := input[2..];
          return true;
        }
        input := input[1..];
      }
      ok := input != [];
    }

    /** The next character that is neither blank nor comment. */
    method NextChar() returns (ok: bool, c: char)
      modifies this`input
      ensures ok <==> GetCom(old(input)).Some?
      ensures ok ==> GetCom(old(input)) == Some((c, input))
    {
      hide MacEnd, ComEnd;
      c := ' ';
      while true
        invariant GetCom(input) == GetCom(old(input))
        decreases |input|
      {
        ghost var before := input;
        SkipSpaces();
        if input == [] || input == "/" {
          return false, c;
        }
        c := input[0];
        if c != '/' {
          input := input[1..];
          return true, c;
        }
        c := input[1];
        input := input[2..];
        if c == '/' {
          ok := FinishLine();
          return ok, '\n';
        }
        if c != '*' {
          return true, c;
        }
        ok := FinishComment();
        if !ok {
          return;
        }
        c := input[0];
        input := input[1..];
        if c == '\n' {
          return true, c;
        }
      }
    }

    method FinishLine() returns (ok: bool)
      modifies this`input
      ensures ok <==> MacEnd(old(input)).Some?
      ensures ok ==> input == MacEnd(old(input)).value
    {
      while input != [] && input[0] != '\n'
        invariant MacEnd(input) == MacEnd(old(input))
        decreases |input|
      {
        input := input[1..];
      }
      ok := input != [];
      if ok {
        input := input[1..];
      }
    }

    /** The loop at `skip:` in `macif`. */
    method SkipGroup(fromElse: bool) returns (ok: bool)
      modifies this`input
      ensures ok <==> Skip(old(input), true, 0, fromElse).Some?
      ensures ok ==> input == Skip(old(input), true, 0, fromElse).value
    {
      hide GetSym, MacEnd, IsSpace;
      var bol := true;
      var l := 0;
      while input != []
        invariant 0 <= l && Skip(input, bol, l, fromElse) == Skip(old(input), true, 0, fromElse)
        decreases |input|
      {
        var c := input[0];
        if c != '#' {
          input := input[1..];
          if !IsSpace(c) {
            bol := false;
          }
          if c == '\n' {
            bol := true;
          }
          continue;
        }
        if !bol {
          input := input[1..];
          continue;
        }
        input := input[1..];
        var name;
        ok, name := GetSymbol();
        if !ok {
          return;
        }
        if name == "endif" {
          if l > 0 {
            l := l - 1;
            continue;
          }
          ok := FinishLine();
          return;
        }
        if name == "ifdef" || name == "ifndef" {
          l := l + 1;
          continue;
        }
        if l == 0 && !fromElse && name == "else" {
          ok := FinishLine();
          return;
        }
      }
      ok := false;
    }

    /** `macif(0)` and `macif(1)`. */
    method EnterIf(negated: bool) returns (ok: bool)
      modifies this`input
      ensures ok <==> MacIf(old(input), negated, Macros()).Some?
      ensures ok ==> input == MacIf(old(input), negated, Macros()).value
    {
      hide GetSym, MacEnd, GetCom, Skip;
      var name;
      ok, name := GetSymbol();
      if !ok {
        return;
      }
      if name == [] {
        ok := FinishLine();
        return;
      }
      var c;
      ok, c := NextChar();
      if !ok {
        return;
      }
      if c != '\n' {
        ok := FinishLine();
        return;
      }
      if (name in table) == negated {
        ok := SkipGroup(false);
      }
    }

    /** `getsymdots`. */
    method Parameter() returns (ok: bool, p: string, dots: bool)
      modifies this`input
      ensures ok <==> GetSymDots(old(input)).Some?
      ensures ok ==> GetSymDots(old(input)) == Some((p, dots, input))
    {
      hide GetSym;
      dots := false;
      ok, p := GetSymbol();
      if !ok || p != [] || input[0] != '.' {
        return;
      }
      if |input| == 1 || (input[1] == '.' && |input| == 2) {
        return false, p, dots;
      }
      input := if input[1] == '.' then input[3..] else input[2..];
      p, dots := "__VA_ARGS__", true;
    }

    /** The parameters, from the first one on. */
    method ParameterList(name: string) returns (ok: bool, h: Head)
      modifies this`input
      ensures ok <==> Params(old(input), name, []).Some?
      ensures ok ==> Params(old(input), name, []) == Some(h) && input == h.rest
    {
      hide GetSymDots, SkipBlanks;
      h := Head(false, name, None, input);
      var got: seq<string> := [];
      while true
        invariant |got| <= NARG && Params(input, name, got) == Params(old(input), name, [])
        decreases |input|
      {
        var p, dots;
        ok, p, dots := Parameter();
        if !ok {
          return;
        }
        if p == [] || |got| >= NARG {
          h := Head(false, name, None, input);
          return;
        }
        SkipSpaces();
        if input == [] {
          return false, h;
        }
        var c := input[0];
        input := input[1..];
        got := got + [p];
        if c == ')' {
          h := Head(true, name, Some(got), input);
          return;
        }
        if c != ',' || dots {
          h := Head(false, name, None, input);
          return;
        }
      }
    }

    method ReadHead() returns (ok: bool, h: Head)
      modifies this`input
      ensures ok <==> DefHead(old(input)).Some?
      ensures ok ==> DefHead(old(input)) == Some(h) && input == h.rest
    {
      hide GetSym, Params, SkipBlanks;
      var name;
      ok, name := GetSymbol();
      h := Head(false, name, None, input);
      if !ok || name == [] {
        return;
      }
      if input[0] != '(' {
        h := Head(true, name, None, input);
        return;
      }
      input := input[1..];
      SkipSpaces();
      if input == [] {
        return false, h;
      }
      if input[0] == ')' {
        input := input[1..];
        h := Head(true, name, Some([]), input);
        return;
      }
      ok, h := ParameterList(name);
    }

    /** `macdef`: an accepted definition is stored under its name. */
    method Definition() returns (ok: bool)
      modifies this`input, this`table
      ensures ok <==> MacDef(old(input)).Some?
      ensures ok ==> var d := MacDef(old(input)).value;
                     && input == d.0
                     && table == if d.1.None? then old(table) else old(table)[d.1.value.0 := d.1.value.1]
      ensures !ok ==> table == old(table)
    {
      hide DefHead, MacEnd, Scan, SkipBlanks, Compile;
      var h;
      ok, h := ReadHead();
      if !ok {
        return;
      }
      if !h.ok {
        ok := FinishLine();
        return;
      }
      SkipSpaces();
      var definer := new Definer(input);
      var macro;
      ok, macro := definer.CompileBody(h.params);
      if ok {
        input := definer.input;
        table := table[h.name := macro];
      }
    }

    /** `domacro`. */
    method Directive() returns (ok: bool)
      modifies this`input, this`table
      ensures ok <==> DoMacro(old(input), old(Macros())).Some?
      ensures ok ==> DoMacro(old(input), old(Macros())) == Some((input, Macros()))
    {
      hide GetSym, MacEnd, MacIf, Skip, MacDef;
      var name;
      ok, name := GetSymbol();
      if !ok {
        return;
      }
      if name == "define" {
        ghost var d := MacDef(input);
        ok := Definition();
        assert ok && d.value.1.Some? ==> table.Keys == old(table).Keys + {d.value.1.value.0};
      } else if name == "undef" {
        var arg;
        ok, arg := GetSymbol();
        if ok {
          ok := FinishLine();
        }
        if ok {
          table := if arg == [] then table else table - {arg};
          assert arg != [] ==> table.Keys == old(table).Keys - {arg};
        }
      } else if name == "ifdef" {
        ok := EnterIf(false);
      } else if name == "ifndef" {
        ok := EnterIf(true);
      } else if name == "else" {
        ok := SkipGroup(true);
      } else {
        ok := FinishLine();
      }
    }

    /** The whole input: for a well-nested source, the active lines come out, in order. */
    method Preprocess(ghost src: Source) returns (ok: bool)
      requires WellFormed(src) && input == Render(src, []) && out == []
      modifies this
      ensures ok && out == Active(src, old(Macros())).lines && Macros() == Active(src, old(Macros())).macros
    {
      hide DoMacro, SkipBlanks, LineLength, WellFormed, Render, Active;
      SourceDeliversActive(src, Macros());
      ThenNothing(Run(input, Macros()));
      while input != []
        invariant Run(old(input), old(Macros())) == Then(out, Run(input, Macros()))
        decreases |input|
      {
        var t := SkipBlanks(input);
        if t != [] && t[0] == '#' {
          input := t[1..];
          ok := Directive();
          if !ok {
            assert false;
          }
        } else {
          var n := LineLength(input);
          if n == |input| {
            ThenThen(out, [input], Run([], Macros()));
            assert [input] + [] == [input];
            out := out + [input];
            input := [];
          } else {
            ThenThen(out, [input[..n]], Run(input[n + 1..], Macros()));
            out := out + [input[..n]];
            input := input[n + 1..];
          }
        }
      }
      assert out + [] == out;
      ok := true;
    }
  }
}
