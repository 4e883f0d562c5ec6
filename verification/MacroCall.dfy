/**
 The arguments of a macro call, as `macexpand` collects them: commas separate them unless
 parentheses or quotes enclose the comma, and a comment counts as a blank.
 */
module MacroCall {
  import opened Wrappers
  import opened MacroBody

  /** How much argument text fits before `too much text in macro expansion`. */
  const LIMIT: nat := 1996

  datatype Outcome =
    | Args(args: seq<string>, rest: string)
    | Bad
    | TooBig
    | Mismatch
    | EndOfFile

  /** Arguments finished, the text of the one being read, open parentheses and the open quote. */
  datatype Reading = Reading(done: seq<string>, cur: string, depth: nat, quote: Option<char>) {
    function Put(text: string): Reading { this.(cur := cur + text) }
    function Used(): nat { Stored(done) + |cur| }
  }

  /** The room finished arguments take, each with the NUL behind it. */
  function Stored(args: seq<string>): nat {
    if args == [] then 0 else Stored(args[..|args| - 1]) + |args[|args| - 1]| + 1
  }

  /** To behind the end of a comment. A star that another star precedes is not looked at again. */
  function SkipRemark(s: string): (r: Option<string>)
    ensures r.Some? ==> |r.value| <= |s|
    decreases |s|
  {
    if s == [] || s == "*" then None
    else if s[0] != '*' then SkipRemark(s[1..])
    else if s[1] == '/' then Some(s[2..])
    else SkipRemark(s[2..])
  }

  predicate IsQuote(c: char) {
    c == '"' || c == '\''
  }

  function Deeper(depth: nat, c: char): nat
    requires c == ')' ==> depth > 0
  {
    if c == '(' then depth + 1 else if c == ')' then depth - 1 else depth
  }

  function Take(s: string, st: Reading, nargs: nat, dots: bool): Outcome
    decreases |s|
  {
    if st.quote.Some? then TakeQuoted(s, st, nargs, dots)
    else if st.Used() >= LIMIT then TooBig
    else if s == [] || s == "/" then EndOfFile
    else if IsQuote(s[0]) then Take(s[1..], st.Put([s[0]]).(quote := Some(s[0])), nargs, dots)
    else if s[0] == '/' && s[1] == '*' then
      var r := SkipRemark(s[2..]);
      if r.None? then EndOfFile else Take(r.value, st.Put(" "), nargs, dots)
    else if s[0] == '/' && s[1] == '/' then
      var r := SkipLine(s[2..]);
      if r == [] then EndOfFile else Take(r[1..], st.Put(" "), nargs, dots)
    else if st.depth == 0 && s[0] == ',' && !(|st.done| + 1 == nargs && dots) then
      if |st.done| + 2 > nargs then Mismatch
      else Take(s[1..], Reading(st.done + [st.cur], [], 0, None), nargs, dots)
    else if st.depth == 0 && s[0] == ',' then Take(s[1..], st.Put(","), nargs, dots)
    else if st.depth == 0 && s[0] == ')' then
      if |st.done| + 1 != nargs then Mismatch else Args(st.done + [st.cur], s[1..])
    else
      Take(s[1..], st.Put([if s[0] == '\n' then ' ' else s[0]]).(depth := Deeper(st.depth, s[0])), nargs, dots)
  }

  /** Inside quotes; the character behind a backslash is not looked at. */
  function TakeQuoted(s: string, st: Reading, nargs: nat, dots: bool): Outcome
    requires st.quote.Some?
    decreases |s|, 0
  {
    if s == [] || s == "\\" then EndOfFile
    else if s[0] == '\\' then
      if st.Used() + 1 >= LIMIT then TooBig else Take(s[2..], st.Put(s[..2]), nargs, dots)
    else if s[0] == '\n' then Bad
    else if s[0] == st.quote.value then Take(s[1..], st.Put([s[0]]).(quote := None), nargs, dots)
    else if st.Used() >= LIMIT then TooBig
    else Take(s[1..], st.Put([s[0]]), nargs, dots)
  }

  /** The call behind the macro's name. */
  function Call(s: string, nargs: nat, dots: bool): Outcome {
    var t := SkipBlanks(s);
    if t == [] then EndOfFile
    else if t[0] != '(' then Bad
    else if |t| == 1 then EndOfFile
    else if t[1] == ')' then (if nargs == 0 then Args([], t[2..]) else Mismatch)
    else Take(t[1..], Reading([], [], 0, None), nargs, dots)
  }

  // ----- writing a call -----

  function JoinArgs(args: seq<string>): string
    requires args != []
  {
    if |args| == 1 then args[0] else args[0] + "," + JoinArgs(args[1..])
  }

  /** Read over an argument: balanced, and no comment, newline, or comma or parenthesis of the call in it. */
  function Walk(a: string, quote: Option<char>, depth: nat, commas: bool): Option<nat>
    decreases |a|
  {
    if a == [] then (if quote.None? then Some(depth) else None)
    else if quote.Some? then
      if a == "\\" || a[0] == '\n' then None
      else if a[0] == '\\' then Walk(a[2..], quote, depth, commas)
      else Walk(a[1..], if a[0] == quote.value then None else quote, depth, commas)
    else if IsQuote(a[0]) then Walk(a[1..], Some(a[0]), depth, commas)
    else if a[0] == '\n' || (a[0] == '/' && |a| > 1 && (a[1] == '/' || a[1] == '*')) then None
    else if depth == 0 && ((a[0] == ',' && !commas) || a[0] == ')') then None
    else Walk(a[1..], None, Deeper(depth, a[0]), commas)
  }

  predicate Closed(a: string, commas: bool) {
    Walk(a, None, 0, commas) == Some(0)
  }

  /** One round in an argument: what it takes off the text, and where it leaves the reading. */
  function Bite(a: string, quote: Option<char>): (k: nat)
    requires a != []
    ensures 0 < k
  {
    if quote.Some? && a[0] == '\\' then 2 else 1
  }

  function Advance(a: string, st: Reading): Reading
    requires a != [] && Bite(a, st.quote) <= |a|
    requires st.quote.None? && a[0] == ')' ==> st.depth > 0
  {
    var st' := st.Put(a[..Bite(a, st.quote)]);
    if st.quote.Some? then (if a[0] == st.quote.value && a[0] != '\\' then st'.(quote := None) else st')
    else if IsQuote(a[0]) then st'.(quote := Some(a[0]))
    else st'.(depth := Deeper(st.depth, a[0]))
  }

  predicate ValidQuote(quote: Option<char>) {
    quote.Some? ==> IsQuote(quote.value)
  }

  lemma WalkStep(a: string, st: Reading, commas: bool)
    requires a != [] && ValidQuote(st.quote) && Walk(a, st.quote, st.depth, commas).Some?
    ensures var k := Bite(a, st.quote);
            && k <= |a| && (st.quote.None? && a[0] == ')' ==> st.depth > 0) && ValidQuote(Advance(a, st).quote)
            && Walk(a, st.quote, st.depth, commas) == Walk(a[k..], Advance(a, st).quote, Advance(a, st).depth, commas)
  {
  }

  lemma TakeStep(a: string, t: string, st: Reading, nargs: nat, dots: bool)
    requires a != [] && t != [] && (t[0] == ',' || t[0] == ')') && ValidQuote(st.quote)
    requires Walk(a, st.quote, st.depth, dots && |st.done| + 1 == nargs).Some?
    ensures Bite(a, st.quote) <= |a| && (st.quote.None? && a[0] == ')' ==> st.depth > 0)
    ensures var r := Take(a + t, st, nargs, dots);
            || r == Take(a[Bite(a, st.quote)..] + t, Advance(a, st), nargs, dots)
            || (r == TooBig && st.Used() + |a| >= LIMIT)
  {
    var s, k := a + t, Bite(a, st.quote);
    WalkStep(a, st, dots && |st.done| + 1 == nargs);
    assert s[0] == a[0] && s[1] == if |a| > 1 then a[1] else t[0];
    assert s[k..] == a[k..] + t;
    assert s[..k] == a[..k];
    assert a[..1] == [a[0]];
  }

  /** An argument is read to its end, whatever room is left. */
  lemma {:induction false} Across(a: string, t: string, st: Reading, nargs: nat, dots: bool)
    requires t != [] && (t[0] == ',' || t[0] == ')') && ValidQuote(st.quote)
    requires Walk(a, st.quote, st.depth, dots && |st.done| + 1 == nargs).Some?
    ensures var d := Walk(a, st.quote, st.depth, dots && |st.done| + 1 == nargs).value;
            Take(a + t, st, nargs, dots) == Take(t, Reading(st.done, st.cur + a, d, None), nargs, dots)
    decreases |a|
  {
    hide Advance, Bite, Take, Walk, Stored;
    var commas := dots && |st.done| + 1 == nargs;
    if a == [] {
      WalkEnd(a, st.quote, st.depth, commas);
      assert a + t == t && st.cur + a == st.cur;
    } else {
      WalkStep(a, st, commas);
      TakeStep(a, t, st, nargs, dots);
      var k, st' := Bite(a, st.quote), Advance(a, st);
      AdvanceText(a, st);
      Across(a[k..], t, st', nargs, dots);
      assert st.cur + a[..k] + a[k..] == st.cur + a;
      if st.Used() + |a| >= LIMIT {
        TakeFull(t, Reading(st.done, st.cur + a, Walk(a, st.quote, st.depth, commas).value, None), nargs, dots);
      }
    }
  }

  lemma WalkEnd(a: string, quote: Option<char>, depth: nat, commas: bool)
    requires a == [] && Walk(a, quote, depth, commas).Some?
    ensures quote.None? && Walk(a, quote, depth, commas) == Some(depth)
  {
  }

  lemma TakeFull(s: string, st: Reading, nargs: nat, dots: bool)
    requires st.quote.None? && st.Used() >= LIMIT
    ensures Take(s, st, nargs, dots) == TooBig
  {
  }

  lemma AdvanceText(a: string, st: Reading)
    requires a != [] && Bite(a, st.quote) <= |a| && (st.quote.None? && a[0] == ')' ==> st.depth > 0)
    ensures var st' := Advance(a, st);
            st'.done == st.done && st'.cur == st.cur + a[..Bite(a, st.quote)]
  {
  }

  // ----- the round trip -----

  lemma StoredMore(done: seq<string>, a: string)
    ensures Stored(done + [a]) == Stored(done) + |a| + 1
  {
    assert (done + [a])[..|done|] == done;
  }

  lemma {:induction false} StoredGrows(done: seq<string>, args: seq<string>)
    ensures Stored(done + args) >= Stored(done) + |args|
    decreases |args|
  {
    if args == [] {
      assert done + args == done;
    } else {
      var n := |args| - 1;
      StoredGrows(done, args[..n]);
      StoredMore(done + args[..n], args[n]);
      assert done + args[..n] + [args[n]] == done + args;
    }
  }

  /** The last argument of a variadic macro may have commas of its own. */
  ghost predicate AllClosed(args: seq<string>, dots: bool) {
    forall i :: 0 <= i < |args| ==> Closed(args[i], dots && i == |args| - 1)
  }

  /** What ends an argument outside all parentheses. */
  lemma TakeEnd(st: Reading, more: string, nargs: nat, dots: bool)
    requires st.depth == 0 && st.quote.None?
    ensures |st.done| + 1 == nargs ==>
              Take([')'] + more, st, nargs, dots)
              == (if st.Used() >= LIMIT then TooBig else Args(st.done + [st.cur], more))
    ensures |st.done| + 1 < nargs ==>
              Take([','] + more, st, nargs, dots)
              == (if st.Used() >= LIMIT then TooBig else Take(more, Reading(st.done + [st.cur], [], 0, None), nargs, dots))
  {
    assert ([')'] + more)[1..] == more && ([','] + more)[1..] == more;
  }

  lemma JoinStep(args: seq<string>, rest: string)
    requires args != []
    ensures JoinArgs(args) + ")" + rest
         == args[0] + if |args| == 1 then [')'] + rest else [','] + (JoinArgs(args[1..]) + ")" + rest)
  {
    if |args| == 1 {
      Regroup(args[0], [], [')'], rest);
    } else {
      Regroup(args[0], [','], JoinArgs(args[1..]) + ")", rest);
      Regroup(args[0], [','], JoinArgs(args[1..]), [')']);
    }
  }

  lemma Regroup(a: string, b: string, c: string, d: string)
    ensures a + b + c + d == a + (b + (c + d)) == a + b + (c + d)
    ensures b == [] ==> a + c + d == a + (c + d)
  {
  }

  lemma ClosedTail(args: seq<string>, dots: bool)
    requires args != [] && AllClosed(args, dots)
    ensures Closed(args[0], dots && |args| == 1) && AllClosed(args[1..], dots)
  {
    hide Closed;
    assert forall i :: 0 <= i < |args[1..]| ==> args[1..][i] == args[i + 1];
  }

  lemma {:induction false} TakeAll(args: seq<string>, rest: string, done: seq<string>, nargs: nat, dots: bool)
    requires args != [] && |done| + |args| == nargs && AllClosed(args, dots)
    ensures Take(JoinArgs(args) + ")" + rest, Reading(done, [], 0, None), nargs, dots)
         == if Stored(done + args) > LIMIT then TooBig else Args(done + args, rest)
    decreases |args|
  {
    hide Take, Walk, JoinArgs, Stored, AllClosed;
    var a, st := args[0], Reading(done, [], 0, None);
    var more := if |args| == 1 then rest else JoinArgs(args[1..]) + ")" + rest;
    var t := [if |args| == 1 then ')' else ','] + more;
    JoinStep(args, rest);
    ClosedTail(args, dots);
    Across(a, t, st, nargs, dots);
    assert [] + a == a;
    TakeEnd(Reading(done, a, 0, None), more, nargs, dots);
    StoredMore(done, a);
    assert done + [a] + args[1..] == done + args;
    if |args| == 1 {
      assert args == [a];
    } else {
      StoredGrows(done + [a], args[1..]);
      TakeAll(args[1..], rest, done + [a], nargs, dots);
    }
  }

  /** A call written out is read back, unless its only argument is empty or there is too much text. */
  lemma CallRoundTrip(args: seq<string>, rest: string, dots: bool)
    requires AllClosed(args, dots)
    ensures var text := "(" + ((if args == [] then "" else JoinArgs(args)) + ")" + rest);
            Call(text, |args|, dots) == Args(args, rest) <==> args != [""] && Stored(args) <= LIMIT
  {
    hide Take, JoinArgs, Stored, AllClosed;
    var inner := (if args == [] then "" else JoinArgs(args)) + ")" + rest;
    var text := "(" + inner;
    assert SkipBlanks(text) == text && text[1..] == inner;
    if args == [] {
      NoArgsStored(args);
      assert text[2..] == rest;
    } else {
      TakeAll(args, rest, [], |args|, dots);
      assert [] + args == args;
      FirstOfCall(args, rest, dots);
    }
  }

  lemma NoArgsStored(args: seq<string>)
    requires args == []
    ensures Stored(args) == 0
  {
  }

  lemma FirstOfCall(args: seq<string>, rest: string, dots: bool)
    requires args != [] && AllClosed(args, dots)
    ensures (JoinArgs(args) + ")" + rest)[0] == ')' <==> args == [""]
  {
    var a := args[0];
    assert Closed(a, dots && 0 == |args| - 1);
    if a != [] {
      assert (JoinArgs(args) + ")" + rest)[0] == a[0];
    }
  }

  /**
   Defining a macro, calling it and expanding it replaces the parameters by the arguments. Of a
   variadic macro the last parameter takes the rest of the call, commas and all.
   */
  lemma CallMeansSubstitution(body: string, params: seq<string>, dots: bool, args: seq<string>, rest: string)
    requires |params| == |args| <= NARG && Scan(body, None, false).Some?
    requires AllClosed(args, dots) && args != [""] && Stored(args) <= LIMIT
    ensures var elems := Scan(body, None, false).value.0;
            var text := "(" + ((if args == [] then "" else JoinArgs(args)) + ")" + rest);
            var read := Call(text, |params|, dots);
            && read == Args(args, rest)
            && (params != [] || '#' !in Subst(elems, params, args) <==>
                  ExpandMacro(Compile(elems, Some(params)), read.args) == Some(Subst(elems, params, args)))
  {
    hide ExpandMacro, Compile, Subst, Scan, Call, JoinArgs, AllClosed, Stored;
    CallRoundTrip(args, rest, dots);
    CompileThenExpand(body, Some(params), args);
  }

  // ----- what may be in an argument -----

  /** What reads over an argument also reads over it one parenthesis deeper, where commas are free. */
  lemma {:induction false} WalkDeeper(a: string, t: string, quote: Option<char>, depth: nat, commas: bool)
    requires t != [] && t[0] != '/' && t[0] != '*' && Walk(a, quote, depth, false).Some?
    ensures Walk(a + t, quote, depth + 1, commas) == Walk(t, None, Walk(a, quote, depth, false).value + 1, commas)
    decreases |a|
  {
    var s := a + t;
    if a == [] {
      assert s == t;
    } else {
      assert s[0] == a[0] && s[1] == if |a| > 1 then a[1] else t[0];
      if quote.Some? && a[0] == '\\' {
        assert s[2..] == a[2..] + t;
        WalkDeeper(a[2..], t, quote, depth, commas);
      } else {
        assert s[1..] == a[1..] + t;
        var q := if quote.Some? then (if a[0] == quote.value then None else quote) else if IsQuote(a[0]) then Some(a[0]) else None;
        WalkDeeper(a[1..], t, q, if quote.None? && !IsQuote(a[0]) then Deeper(depth, a[0]) else depth, commas);
      }
    }
  }

  lemma {:induction false} WalkJoined(args: seq<string>, commas: bool)
    requires args != [] && AllClosed(args, false)
    ensures Walk(JoinArgs(args) + ")", None, 1, commas) == Some(0)
    decreases |args|
  {
    var a := args[0];
    ClosedTail(args, false);
    if |args| == 1 {
      WalkDeeper(a, ")", None, 0, commas);
      assert Walk(")", None, 1, commas) == Some(0) by { assert ")"[1..] == ""; }
    } else {
      var t := "," + (JoinArgs(args[1..]) + ")");
      assert JoinArgs(args) + ")" == a + t;
      WalkDeeper(a, t, None, 0, commas);
      assert t[1..] == JoinArgs(args[1..]) + ")";
      WalkJoined(args[1..], commas);
    }
  }

  /** A call inside an argument is part of it, commas and all. */
  lemma NestedCallIsClosed(args: seq<string>, commas: bool)
    requires args != [] && AllClosed(args, false)
    ensures Closed("(" + (JoinArgs(args) + ")"), commas)
  {
    hide JoinArgs, AllClosed;
    var s := "(" + (JoinArgs(args) + ")");
    assert s[0] == '(' && s[1..] == JoinArgs(args) + ")";
    WalkJoined(args, commas);
  }

  lemma {:induction false} WalkQuoted(q: char, x: string, commas: bool)
    requires forall i :: 0 <= i < |x| ==> x[i] != q && x[i] != '\\' && x[i] != '\n'
    requires q == '"' || q == '\''
    ensures Walk(x + [q], Some(q), 0, commas) == Some(0)
  {
    var s := x + [q];
    if x == [] {
      assert s[0] == q && s[1..] == [];
    } else {
      assert s[1..] == x[1..] + [q];
      WalkQuoted(q, x[1..], commas);
    }
  }

  /** Quoted text is part of an argument whatever commas, parentheses and slashes are in it. */
  lemma QuotedIsClosed(q: char, x: string, commas: bool)
    requires q == '"' || q == '\''
    requires forall i :: 0 <= i < |x| ==> x[i] != q && x[i] != '\\' && x[i] != '\n'
    ensures Closed([q] + (x + [q]), commas)
  {
    var s := [q] + (x + [q]);
    assert s[1..] == x + [q];
    WalkQuoted(q, x, commas);
  }

  // ----- what is not read as it is written -----

  /** A newline in an argument is a blank. */
  lemma NewlineIsBlank(more: string, st: Reading, nargs: nat, dots: bool)
    requires st.quote.None? && st.Used() < LIMIT
    ensures Take(['\n'] + more, st, nargs, dots) == Take(more, st.Put(" "), nargs, dots)
  {
    var s := ['\n'] + more;
    assert s[0] == '\n' && s[1..] == more;
    assert s != "/";
  }

  /** A line comment in an argument is a blank, together with its newline. */
  lemma LineCommentIsBlank(text: string, more: string, st: Reading, nargs: nat, dots: bool)
    requires st.quote.None? && st.Used() < LIMIT && '\n' !in text
    ensures Take("//" + Nl(text, more), st, nargs, dots) == Take(more, st.Put(" "), nargs, dots)
  {
    var s := "//" + Nl(text, more);
    assert s[0] == '/' && s[1] == '/' && s[2..] == Nl(text, more);
    SkipLineExact(text, more);
    assert Nl([], more)[1..] == more;
  }

  /** A comment that is closed is a blank; behind one that is not, the file ends. */
  lemma CommentIsBlank(s: string, st: Reading, nargs: nat, dots: bool)
    requires st.quote.None? && st.Used() < LIMIT
    ensures var r := SkipRemark(s);
            Take("/*" + s, st, nargs, dots) == if r.Some? then Take(r.value, st.Put(" "), nargs, dots) else EndOfFile
  {
    var text := "/*" + s;
    assert text[0] == '/' && text[1] == '*' && text[2..] == s;
  }

  /** A newline inside quotes is an error, and so is the end of the file anywhere. */
  lemma CutOff(more: string, st: Reading, nargs: nat, dots: bool)
    ensures st.quote.Some? ==> Take(['\n'] + more, st, nargs, dots) == Bad
    ensures st.quote.Some? || st.Used() < LIMIT ==> Take([], st, nargs, dots) == EndOfFile
  {
    var s := ['\n'] + more;
    assert s[0] == '\n' && s != "\\";
  }

  /** Blanks, but no newline, may stand before the parenthesis. */
  lemma {:induction false} BlanksBeforeCall(gap: string, s: string, nargs: nat, dots: bool)
    requires forall i :: 0 <= i < |gap| ==> IsSpace(gap[i]) && gap[i] != '\n'
    ensures Call(gap + s, nargs, dots) == Call(s, nargs, dots)
  {
    hide IsSpace, Take;
    if gap == [] {
      assert gap + s == s;
    } else {
      assert (gap + s)[1..] == gap[1..] + s;
      BlanksBeforeCall(gap[1..], s, nargs, dots);
    }
  }

  /** Without a parenthesis there is no call. */
  lemma NoParenthesis(c: char, more: string, nargs: nat, dots: bool)
    requires c != '(' && (!IsSpace(c) || c == '\n')
    ensures Call([c] + more, nargs, dots) == Bad
  {
  }

  /** Too few arguments. */
  lemma {:induction false} TakeTooFew(args: seq<string>, rest: string, done: seq<string>, nargs: nat)
    requires args != [] && |done| + |args| < nargs && AllClosed(args, false) && Stored(done + args) <= LIMIT
    ensures Take(JoinArgs(args) + ")" + rest, Reading(done, [], 0, None), nargs, false) == Mismatch
    decreases |args|
  {
    hide Take, Walk, JoinArgs, Stored, AllClosed;
    var a, st := args[0], Reading(done, [], 0, None);
    var more := if |args| == 1 then rest else JoinArgs(args[1..]) + ")" + rest;
    var t := [if |args| == 1 then ')' else ','] + more;
    JoinStep(args, rest);
    ClosedTail(args, false);
    Across(a, t, st, nargs, false);
    assert [] + a == a;
    StoredMore(done, a);
    assert done + [a] + args[1..] == done + args;
    StoredGrows(done + [a], args[1..]);
    TakeEnd(Reading(done, a, 0, None), more, nargs, false);
    TakeEarly(Reading(done, a, 0, None), more, nargs);
    if |args| > 1 {
      TakeTooFew(args[1..], rest, done + [a], nargs);
    }
  }

  /** What ends an argument with the wrong number of arguments read. */
  lemma TakeEarly(st: Reading, more: string, nargs: nat)
    requires st.depth == 0 && st.quote.None? && st.Used() < LIMIT
    ensures |st.done| + 1 != nargs ==> Take([')'] + more, st, nargs, false) == Mismatch
    ensures |st.done| + 1 >= nargs ==> Take([','] + more, st, nargs, false) == Mismatch
  {
    var s, u := [')'] + more, [','] + more;
    assert s[0] == ')' && s != "/" && u[0] == ',' && u != "/";
  }

  /** Too many arguments. */
  lemma {:induction false} TakeTooMany(args: seq<string>, rest: string, done: seq<string>, nargs: nat)
    requires |done| + |args| > nargs && (|done| < nargs || (nargs == 0 && done == [])) && AllClosed(args, false)
    requires Stored(done + args) <= LIMIT
    ensures Take(JoinArgs(args) + ")" + rest, Reading(done, [], 0, None), nargs, false) == Mismatch
    decreases |args|
  {
    hide Take, Walk, JoinArgs, Stored, AllClosed;
    var a, st := args[0], Reading(done, [], 0, None);
    var more := if |args| == 1 then rest else JoinArgs(args[1..]) + ")" + rest;
    var t := [if |args| == 1 then ')' else ','] + more;
    JoinStep(args, rest);
    ClosedTail(args, false);
    Across(a, t, st, nargs, false);
    assert [] + a == a;
    StoredMore(done, a);
    assert done + [a] + args[1..] == done + args;
    StoredGrows(done + [a], args[1..]);
    TakeEnd(Reading(done, a, 0, None), more, nargs, false);
    TakeEarly(Reading(done, a, 0, None), more, nargs);
    if |done| + 1 < nargs {
      TakeTooMany(args[1..], rest, done + [a], nargs);
    }
  }

  /** A call with another number of arguments than the macro has parameters is refused. */
  lemma WrongNumber(args: seq<string>, rest: string, nargs: nat)
    requires args != [] && args != [""] && |args| != nargs && AllClosed(args, false) && Stored(args) <= LIMIT
    ensures Call("(" + (JoinArgs(args) + ")" + rest), nargs, false) == Mismatch
  {
    hide Take, JoinArgs, Stored, AllClosed;
    var inner := JoinArgs(args) + ")" + rest;
    assert SkipBlanks("(" + inner) == "(" + inner && ("(" + inner)[1..] == inner;
    FirstOfCall(args, rest, false);
    assert [] + args == args;
    if |args| < nargs {
      TakeTooFew(args, rest, [], nargs);
    } else {
      TakeTooMany(args, rest, [], nargs);
    }
  }

  // ----- where a comment closes -----

  /** How many stars stand directly before position `k`. */
  function Stars(s: string, k: nat): (n: nat)
    requires k <= |s|
    ensures n <= k && (forall i :: k - n <= i < k ==> s[i] == '*') && (n < k ==> s[k - n - 1] != '*')
  {
    if k == 0 || s[k - 1] != '*' then 0 else 1 + Stars(s, k - 1)
  }

  /** A slash behind an odd number of stars. */
  predicate OddSlash(s: string, k: nat) {
    k < |s| && s[k] == '/' && Stars(s, k) % 2 == 1
  }

  /** A slash behind a star, where a comment should close. */
  predicate StarSlash(s: string, k: nat) {
    0 < k < |s| && s[k] == '/' && s[k - 1] == '*'
  }

  /** Dropping text up to a point that an even number of stars precedes keeps the parity behind it. */
  lemma {:induction false} StarsDrop(s: string, m: nat, k: nat)
    requires m <= k <= |s| && Stars(s, m) % 2 == 0
    ensures Stars(s[m..], k - m) % 2 == Stars(s, k) % 2
    decreases k
  {
    if k > m {
      assert s[m..][k - m - 1] == s[k - 1];
      if s[k - 1] == '*' {
        StarsDrop(s, m, k - 1);
      }
    }
  }

  lemma OddSlashDrop(s: string, m: nat, j: nat)
    requires m <= j && m <= |s| && Stars(s, m) % 2 == 0
    ensures OddSlash(s, j) <==> OddSlash(s[m..], j - m)
  {
    if j < |s| {
      StarsDrop(s, m, j);
    }
  }

  /** The first two characters, where the scanner does not close. */
  lemma FirstStep(s: string) returns (m: nat)
    requires s != [] && s != "*" && !(s[0] == '*' && s[1] == '/')
    ensures 1 <= m <= |s| && Stars(s, m) % 2 == 0 && SkipRemark(s) == SkipRemark(s[m..])
    ensures forall j: nat :: j < m ==> !OddSlash(s, j)
  {
    m := if s[0] == '*' then 2 else 1;
    assert Stars(s, 0) == 0 && Stars(s, 1) == m - 1;
  }

  lemma CloseNow(s: string) returns (k: nat)
    requires s == [] || s == "*" || (s[0] == '*' && s[1] == '/')
    ensures k <= |s| && (forall j: nat :: j < k ==> !OddSlash(s, j))
    ensures if k < |s| then OddSlash(s, k) && SkipRemark(s) == Some(s[k + 1..]) else SkipRemark(s) == None
  {
    k := if |s| > 1 then 1 else |s|;
    if |s| > 1 {
      assert Stars(s, 1) == 1;
    }
  }

  /** The scanner closes a comment at the first slash behind an odd number of stars, and nowhere else. */
  lemma {:induction false} SkipRemarkExact(s: string) returns (k: nat)
    ensures k <= |s| && (forall j: nat :: j < k ==> !OddSlash(s, j))
    ensures if k < |s| then OddSlash(s, k) && SkipRemark(s) == Some(s[k + 1..]) else SkipRemark(s) == None
    decreases |s|
  {
    hide OddSlash, SkipRemark, Stars;
    if s == [] || s == "*" || (s[0] == '*' && s[1] == '/') {
      k := CloseNow(s);
    } else {
      var m := FirstStep(s);
      k := SkipRemarkExact(s[m..]);
      forall j: nat | m <= j ensures OddSlash(s, j) <==> OddSlash(s[m..], j - m) { OddSlashDrop(s, m, j); }
      k := k + m;
      assert k < |s| ==> s[m..][k - m + 1..] == s[k + 1..];
    }
  }

  /**
   So a comment is closed where it should be, at its first slash behind a star, if and only if
   the number of stars there is odd.
   */
  lemma CommentClosesIff(s: string, k: nat)
    requires StarSlash(s, k) && forall j: nat :: j < k ==> !StarSlash(s, j)
    ensures SkipRemark(s) == Some(s[k + 1..]) <==> Stars(s, k) % 2 == 1
  {
    hide SkipRemark;
    var i := SkipRemarkExact(s);
    forall j: nat | j < k ensures !OddSlash(s, j) { OddIsStar(s, j); }
    assert OddSlash(s, k) <==> Stars(s, k) % 2 == 1;
    assert |s[k + 1..]| == |s| - k - 1;
    if i < |s| {
      assert i >= k;
      assert |s[i + 1..]| == |s| - i - 1;
    } else {
      assert !OddSlash(s, k);
    }
  }

  lemma OddIsStar(s: string, j: nat)
    ensures OddSlash(s, j) ==> StarSlash(s, j)
  {
  }

  /** The smallest comment that is not closed. */
  lemma TwoStarsStayOpen(rest: string)
    ensures SkipRemark("**/" + rest) != Some(rest)
  {
    var s := "**/" + rest;
    assert s[3..] == rest;
    assert Stars(s, 1) == 1 && Stars(s, 2) == 2;
    assert StarSlash(s, 2);
    CommentClosesIff(s, 2);
  }

  // ----- the reader -----

  /** The unread input. */
  class Caller {
    var input: string

    method GetBlankFree()
      modifies this
      ensures input == SkipBlanks(old(input))
    {
      while input != [] && IsSpace(input[0]) && input[0] != '\n'
        invariant SkipBlanks(input) == SkipBlanks(old(input))
        decreases |input|
      {
        input := input[1..];
      }
    }

    /** To behind a comment; false is an end-of-file exit. */
    method Remark() returns (ok: bool)
      modifies this
      ensures ok == SkipRemark(old(input)).Some? && (ok ==> input == SkipRemark(old(input)).value)
    {
      while input != []
        invariant SkipRemark(input) == SkipRemark(old(input))
        decreases |input|
      {
        var c := input[0];
        input := input[1..];
        if c == '*' {
          if input == [] {
            return false;
          }
          c := input[0];
          input := input[1..];
          if c == '/' {
            return true;
          }
        }
      }
      ok := false;
    }

    method LineRemark()
      modifies this
      ensures input == SkipLine(old(input))
    {
      while input != [] && input[0] != '\n'
        invariant SkipLine(input) == SkipLine(old(input))
        decreases |input|
      {
        input := input[1..];
      }
    }

    /** From behind an opening quote to behind the closing one, or to an outcome that ends the call. */
    method Quoted(st0: Reading, ghost nargs: nat, ghost dots: bool) returns (st: Reading, o: Option<Outcome>)
      requires st0.quote.Some?
      modifies this
      ensures |input| <= |old(input)|
      ensures o.Some? ==> Take(old(input), st0, nargs, dots) == o.value
      ensures o.None? ==> st.quote.None? && Take(old(input), st0, nargs, dots) == Take(input, st, nargs, dots)
    {
      st, o := st0, None;
      while true
        invariant st.quote.Some? && o.None? && |input| <= |old(input)|
        invariant Take(old(input), st0, nargs, dots) == TakeQuoted(input, st, nargs, dots)
        decreases |input|
      {
        if input == [] || input == "\\" {
          return st, Some(EndOfFile);
        }
        var c := input[0];
        if c == '\\' {
          if st.Used() + 1 >= LIMIT {
            return st, Some(TooBig);
          }
          st, input := st.Put(input[..2]), input[2..];
        } else if c == '\n' {
          return st, Some(Bad);
        } else if c == st.quote.value {
          st, input := st.Put([c]).(quote := None), input[1..];
          return;
        } else {
          if st.Used() >= LIMIT {
            return st, Some(TooBig);
          }
          st, input := st.Put([c]), input[1..];
        }
      }
    }

    /** The loop over the arguments, from behind the opening parenthesis. */
    method SplitArgs(nargs: nat, dots: bool) returns (o: Outcome)
      modifies this
      ensures o == Take(old(input), Reading([], [], 0, None), nargs, dots)
    {
      var st := Reading([], [], 0, None);
      while true
        invariant st.quote.None?
        invariant Take(old(input), Reading([], [], 0, None), nargs, dots) == Take(input, st, nargs, dots)
        decreases |input|
      {
        var next;
        st, next := Round(st, nargs, dots);
        if next.Some? {
          return next.value;
        }
      }
    }

    /** One round: the reading goes on, or the call is over. */
    method Round(st0: Reading, nargs: nat, dots: bool) returns (st: Reading, o: Option<Outcome>)
      requires st0.quote.None?
      modifies this
      ensures o.Some? ==> Take(old(input), st0, nargs, dots) == o.value
      ensures o.None? ==> |input| < |old(input)| && st.quote.None?
                          && Take(old(input), st0, nargs, dots) == Take(input, st, nargs, dots)
    {
      st, o := st0, None;
      if st.Used() >= LIMIT {
        return st, Some(TooBig);
      }
      if input == [] || input == "/" {
        return st, Some(EndOfFile);
      }
      var c := input[0];
      if IsQuote(c) {
        input := input[1..];
        st, o := Quoted(st.Put([c]).(quote := Some(c)), nargs, dots);
        return;
      }
      if c == '/' && input[1] == '*' {
        input := input[2..];
        var ok := Remark();
        return st.Put(" "), if ok then None else Some(EndOfFile);
      }
      if c == '/' && input[1] == '/' {
        input := input[2..];
        LineRemark();
        if input == [] {
          return st, Some(EndOfFile);
        }
        c := '\n';
      }
      input := input[1..];
      if st.depth == 0 {
        if c == ',' {
          if |st.done| + 1 == nargs && dots {
            st := st.Put(",");
            return;
          }
          if |st.done| + 2 > nargs {
            return st, Some(Mismatch);
          }
          st := Reading(st.done + [st.cur], [], 0, None);
          return;
        }
        if c == ')' {
          return st, Some(if |st.done| + 1 != nargs then Mismatch else Args(st.done + [st.cur], input));
        }
      }
      st := st.Put([if c == '\n' then ' ' else c]).(depth := Deeper(st.depth, c));
    }

    /** The call behind the macro's name, with as many arguments as the macro has parameters. */
    method ReadCall(nargs: nat, dots: bool) returns (o: Outcome)
      modifies this
      ensures o == Call(old(input), nargs, dots)
    {
      hide Take;
      GetBlankFree();
      if input == [] {
        return EndOfFile;
      }
      if input[0] != '(' {
        return Bad;
      }
      input := input[1..];
      if input == [] {
        return EndOfFile;
      }
      if input[0] == ')' {
        return if nargs == 0 then Args([], input[1..]) else Mismatch;
      }
      o := SplitArgs(nargs, dots);
    }
  }
}
