/**
 Macro bodies as they are written: names and other characters, quoted text, comments, and
 lines joined by a backslash. What the definition loop makes of them is the text without the
 comments and the joints.
 */
module MacroSource {
  import opened Wrappers
  import opened MacroBody

  datatype Piece =
    | Name(name: string)
    | Char(c: char)
    | Quote(c: char)
    | Escape(c: char)
    | Stroke
    | Comment(text: string)
    | Joint(cr: bool)

  function Text(p: Piece): string {
    match p
    case Name(name) => name
    case Char(c) => [c]
    case Quote(c) => [c]
    case Escape(c) => ['\\', c]
    case Stroke => ['\\']
    case Comment(text) => "/*" + text + "*/"
    case Joint(cr) => if cr then "\\\r\n" else "\\\n"
  }

  function Write(ps: seq<Piece>): string {
    if ps == [] then [] else Text(ps[0]) + Write(ps[1..])
  }

  /** What is left of a piece in the body. */
  function Visible(ps: seq<Piece>): string {
    if ps == [] then []
    else (if ps[0].Comment? || ps[0].Joint? then [] else Text(ps[0])) + Visible(ps[1..])
  }

  function Elems(p: Piece): seq<Elem> {
    match p
    case Name(name) => [Ident(name)]
    case Char(c) => [Ch(c)]
    case Quote(c) => [Ch(c)]
    case Escape(c) => [Ch('\\'), Ch(c)]
    case Stroke => [Ch('\\')]
    case Comment(_) => []
    case Joint(_) => []
  }

  function AllElems(ps: seq<Piece>): seq<Elem> {
    if ps == [] then [] else Elems(ps[0]) + AllElems(ps[1..])
  }

  /** The open quote behind a piece. */
  function Quoting(p: Piece, quote: Option<char>): Option<char> {
    if !p.Quote? then quote else if quote.None? then Some(p.c) else None
  }

  predicate HasEnd(text: string) {
    exists j :: 0 <= j < |text| - 1 && text[j] == '*' && text[j + 1] == '/'
  }

  /** Where a piece may stand, `next` being the character behind it. */
  predicate Placed(p: Piece, quote: Option<char>, next: char) {
    match p
    case Name(name) =>
      name != [] && StartsName(name[0]) && (forall i :: 0 <= i < |name| ==> InName(name[i])) && !InName(next)
    case Char(c) =>
      && !StartsName(c) && c != '\n' && c != '\\'
      && (quote.Some? ==> c != quote.value)
      && (quote.None? ==> c != '"' && c != '\'' && (c == '/' ==> next != '/' && next != '*'))
    case Quote(c) => (c == '"' || c == '\'') && (quote.Some? ==> quote.value == c)
    case Escape(c) => quote.Some? && c != '\n' && (c == '\\' ==> next != '\n' && next != '\r')
    case Stroke => quote.None? && next != '\n' && next != '\r'
    case Comment(text) => quote.None? && '\n' !in text && !HasEnd(text)
    case Joint(_) => quote.None?
  }

  /** A body from its pieces on, inside `quote` or not, `end` being what follows. */
  predicate Fits(ps: seq<Piece>, quote: Option<char>, end: string)
    requires end != []
  {
    if ps == [] then end[0] == '\n' || quote.None?
    else
      && Placed(ps[0], quote, (Write(ps[1..]) + end)[0])
      && Fits(ps[1..], Quoting(ps[0], quote), end)
  }

  lemma {:induction false} SkipCommentExact(text: string, more: string)
    requires '\n' !in text && !HasEnd(text)
    ensures SkipComment(text + ("*/" + more)) == more
  {
    var s := text + ("*/" + more);
    if text == [] {
      assert s == "*/" + more && s[2..] == more;
    } else {
      assert s[1..] == text[1..] + ("*/" + more);
      assert s[0] == text[0] && s[1] == if |text| > 1 then text[1] else '*';
      assert !HasEnd(text[1..]) by { NoEndTail(text); }
      SkipCommentExact(text[1..], more);
    }
  }

  lemma NoEndTail(text: string)
    requires text != [] && !HasEnd(text)
    ensures !HasEnd(text[1..]) && (|text| > 1 ==> !(text[0] == '*' && text[1] == '/'))
  {
  }

  lemma ScanComment(text: string, more: string)
    requires '\n' !in text && !HasEnd(text)
    ensures ScanOne(Text(Comment(text)) + more, None) == Scanned([], more, None, false)
  {
    hide SkipComment;
    var s := Text(Comment(text)) + more;
    assert s[0] == '/' && s[1] == '*';
    assert s[2..] == text + ("*/" + more);
    SkipCommentExact(text, more);
  }

  lemma ScanQuotedName(name: string, more: string, quote: Option<char>)
    requires name != [] && StartsName(name[0]) && (forall i :: 0 <= i < |name| ==> InName(name[i]))
    requires more != [] && !InName(more[0])
    ensures ScanOne(name + more, quote) == Scanned([Ident(name)], more, quote, false)
  {
    hide StartsName, InName;
    var s := name + more;
    assert s[1..] == name[1..] + more;
    NameLengthExact(name[1..], more);
    assert s[..|name|] == name && s[|name|..] == more;
  }

  /** One round takes one piece. */
  lemma ScanPiece(p: Piece, more: string, quote: Option<char>)
    requires more != [] && Placed(p, quote, more[0])
    ensures var s := Text(p) + more;
            && s != [] && s[0] != '\n'
            && var one := ScanOne(s, quote);
               one.elems == Elems(p) && one.rest == more && one.quote == Quoting(p, quote)
  {
    var s := Text(p) + more;
    match p
    case Name(name) => ScanQuotedName(name, more, quote);
    case Comment(text) => ScanComment(text, more);
    case Char(c) =>
      assert s[1..] == more && s[1] == more[0];
    case Quote(c) =>
      assert s[1..] == more;
    case Escape(c) =>
      assert s[1..] == [c] + more && s[2..] == more;
      assert s[1..][1..] == more && s[1..][1] == more[0];
      EscapeSteps(c, more, quote.value);
    case Stroke =>
      assert s[1..] == more && s[1] == more[0];
    case Joint(cr) =>
      assert s[if cr then 3 else 2..] == more;
  }

  lemma EscapeSteps(c: char, more: string, q: char)
    requires more != [] && c != '\n' && (c == '\\' ==> more[0] != '\n' && more[0] != '\r')
    ensures var one := ScanOne(['\\', c] + more, Some(q));
            one.elems == [Ch('\\'), Ch(c)] && one.rest == more && one.quote == Some(q)
  {
    var s := ['\\', c] + more;
    assert s[1..] == [c] + more && s[2..] == more;
    if c == '\\' {
      assert s[1..][1..] == more && s[1..][1] == more[0];
      assert Backslash(s[1..]) == Scanned([Ch('\\')], more, None, false);
    }
  }

  /** How a body ends: at the newline, or in a line comment before it. */
  function Ending(remark: Option<string>, rest: string): string {
    if remark.None? then Nl([], rest) else "//" + Nl(remark.value, rest)
  }

  lemma ScanNewline(rest: string, quote: Option<char>, soft: bool)
    ensures Scan(Nl([], rest), quote, soft) == Some(([], rest))
  {
    assert Nl([], rest)[0] == '\n' && Nl([], rest)[1..] == rest;
  }

  lemma ScanEnding(remark: Option<string>, rest: string, quote: Option<char>, soft: bool)
    requires (remark.Some? ==> quote.None? && '\n' !in remark.value)
    ensures Scan(Ending(remark, rest), quote, soft) == Some(([], rest))
  {
    var s := Ending(remark, rest);
    ScanNewline(rest, quote, soft);
    ScanNewline(rest, quote, false);
    if remark.Some? {
      assert s[0] == '/' && s[1] == '/' && s[2..] == Nl(remark.value, rest);
      SkipLineExact(remark.value, rest);
      var one := ScanOne(s, quote);
      assert one == Scanned([], Nl([], rest), quote, false);
      hide ScanOne;
      var none: seq<Elem> := [];
      assert one.elems + none == none;
    }
  }

  /**
   The definition loop takes a body as it is written, over as many lines as it joins: every
   piece gives its elements, comments and joints give none, and reading goes on behind the
   line that ends the body.
   */
  lemma {:induction false} ScanPieces(ps: seq<Piece>, quote: Option<char>, soft: bool, remark: Option<string>, rest: string)
    requires Fits(ps, quote, Ending(remark, rest)) && (remark.Some? ==> '\n' !in remark.value)
    ensures Scan(Write(ps) + Ending(remark, rest), quote, soft) == Some((AllElems(ps), rest))
    decreases ps
  {
    hide ScanOne, Placed;
    var end := Ending(remark, rest);
    if ps == [] {
      assert Write(ps) + end == end;
      assert remark.Some? ==> end[0] == '/';
      ScanEnding(remark, rest, quote, soft);
    } else {
      var p, more := ps[0], Write(ps[1..]) + end;
      assert Write(ps) + end == Text(p) + more;
      ScanPiece(p, more, quote);
      var one := ScanOne(Text(p) + more, quote);
      ScanPieces(ps[1..], one.quote, one.soft, remark, rest);
    }
  }

  lemma {:induction false} SpellAppend(a: seq<Elem>, b: seq<Elem>)
    ensures Spell(a + b) == Spell(a) + Spell(b)
  {
    if a == [] {
      assert a + b == b;
    } else {
      assert (a + b)[1..] == a[1..] + b;
      SpellAppend(a[1..], b);
    }
  }

  /** So the body is the joined text without the comments. */
  lemma {:induction false} ElemsSpellVisible(ps: seq<Piece>)
    ensures Spell(AllElems(ps)) == Visible(ps)
  {
    if ps != [] {
      SpellAppend(Elems(ps[0]), AllElems(ps[1..]));
      ElemsSpellVisible(ps[1..]);
      SpellPiece(ps[0]);
    }
  }

  lemma SpellPiece(p: Piece)
    ensures Spell(Elems(p)) == if p.Comment? || p.Joint? then [] else Text(p)
  {
    var e := Elems(p);
    if |e| == 1 {
      assert e[1..] == [];
    } else if |e| == 2 {
      assert e[1..] == [e[1]] && [e[1]][1..] == [];
      assert Spell(e[1..]) == [e[1].c] + Spell([]);
    }
  }

  /** Inside quotes a slash is a character like any other, whatever follows it. */
  lemma QuotedSlashStays(q: char, next: char)
    requires q == '"' || q == '\''
    ensures Placed(Char('/'), Some(q), next) && Elems(Char('/')) == [Ch('/')]
  {
  }
}
