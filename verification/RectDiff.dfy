/** Rectangles of pixels, and the drawing of one rectangle outside of another in paint. */
module RectDiff {
  import opened PixelGraph

  /** The pixels from `min` up to and not including `max`. */
  datatype Rectangle = Rectangle(min: Pt, max: Pt) {
    predicate Has(p: Pt) {
      min.x <= p.x < max.x && min.y <= p.y < max.y
    }

    predicate Canonical() {
      min.x <= max.x && min.y <= max.y
    }

    function Dx(): int { max.x - min.x }
    function Dy(): int { max.y - min.y }
  }

  function Rect(x0: int, y0: int, x1: int, y1: int): Rectangle {
    Rectangle(Pt(x0, y0), Pt(x1, y1))
  }

  predicate RectInRect(r: Rectangle, s: Rectangle) {
    s.min.x <= r.min.x && r.max.x <= s.max.x && s.min.y <= r.min.y && r.max.y <= s.max.y
  }

  predicate RectXRect(r: Rectangle, s: Rectangle) {
    r.min.x < s.max.x && s.min.x < r.max.x && r.min.y < s.max.y && s.min.y < r.max.y
  }

  /** One call of the drawing primitive: the rectangle, and the source and mask points at its corner. */
  datatype Draw = Draw(r: Rectangle, sp: Pt, mp: Pt)

  /** The source and mask pixels a draw uses for `p`. */
  function SourceAt(d: Draw, p: Pt): (Pt, Pt) {
    (Pt(d.sp.x + p.x - d.r.min.x, d.sp.y + p.y - d.r.min.y),
     Pt(d.mp.x + p.x - d.r.min.x, d.mp.y + p.y - d.r.min.y))
  }

  /** How often `p` is drawn. */
  function Times(out: seq<Draw>, p: Pt): nat {
    if out == [] then 0
    else Times(out[..|out| - 1], p) + if out[|out| - 1].r.Has(p) then 1 else 0
  }

  /** Every pixel is drawn once if it was carved off `whole.r` and is not drawn otherwise, from where `whole` has it. */
  ghost predicate Carved(whole: Draw, rest: Rectangle, top: Rectangle, out: seq<Draw>) {
    && (forall p :: Times(out, p) == if whole.r.Has(p) && !rest.Has(p) then 1 else 0)
    && (forall p :: rest.Has(p) ==> whole.r.Has(p))
    && (forall p :: whole.r.Has(p) && top.Has(p) ==> rest.Has(p))
    && (forall i, p :: 0 <= i < |out| ==> SourceAt(out[i], p) == SourceAt(whole, p))
  }

  lemma CarveStep(whole: Draw, rest: Rectangle, top: Rectangle, out: seq<Draw>, d: Draw, rest': Rectangle)
    requires Carved(whole, rest, top, out)
    requires forall p :: rest.Has(p) <==> d.r.Has(p) || rest'.Has(p)
    requires forall p :: d.r.Has(p) ==> !rest'.Has(p) && !top.Has(p)
    requires forall p :: SourceAt(d, p) == SourceAt(whole, p)
    ensures Carved(whole, rest', top, out + [d])
  {
    hide SourceAt;
    assert (out + [d])[..|out|] == out;
  }

  function Offset(p: Pt, from: Pt, to: Pt): Pt {
    Pt(p.x + to.x - from.x, p.y + to.y - from.y)
  }

  /** `bot` without `top` is drawn, every pixel once and with the source pixel it has in a draw of all of `bot`. */
  method GenDrawDiff(bot0: Rectangle, top: Rectangle, sp: Pt, mp: Pt) returns (out: seq<Draw>)
    requires bot0.Canonical() && top.Canonical()
    ensures forall p :: Times(out, p) == if bot0.Has(p) && !top.Has(p) then 1 else 0
    ensures forall i, p :: 0 <= i < |out| ==> SourceAt(out[i], p) == SourceAt(Draw(bot0, sp, mp), p)
    ensures |out| <= 4
  {
    var bot, origin, whole := bot0, bot0.min, Draw(bot0, sp, mp);
    out := [];
    if bot.Dx() * bot.Dy() == 0 {
      assert forall p :: !bot0.Has(p) by { NoArea(bot); }
      return;
    }
    if RectInRect(bot, top) {
      return;
    }
    if top.Dx() * top.Dy() == 0 || !RectXRect(bot, top) {
      assert forall p :: !(bot0.Has(p) && top.Has(p)) by { NoArea(top); }
      out := [whole];
      assert out[..0] == [];
      return;
    }
    assert Carved(whole, bot, top, out);
    hide Carved, SourceAt, Times;
    if bot.min.x < top.min.x {
      out, bot := Carve(whole, bot, top, out, Rect(bot.min.x, bot.min.y, top.min.x, bot.max.y), bot.(min := bot.min.(x := top.min.x)));
    }
    if bot.max.x > top.max.x {
      out, bot := Carve(whole, bot, top, out, Rect(top.max.x, bot.min.y, bot.max.x, bot.max.y), bot.(max := bot.max.(x := top.max.x)));
    }
    if bot.min.y < top.min.y {
      out, bot := Carve(whole, bot, top, out, Rect(bot.min.x, bot.min.y, bot.max.x, top.min.y), bot.(min := bot.min.(y := top.min.y)));
    }
    if bot.max.y > top.max.y {
      out, bot := Carve(whole, bot, top, out, Rect(bot.min.x, top.max.y, bot.max.x, bot.max.y), bot.(max := bot.max.(y := top.max.y)));
    }
    assert forall p :: bot.Has(p) ==> top.Has(p);
    CarvedAll(whole, bot, top, out);
  }

  /** Draw one piece, aligned with the origin of the whole, and go on with the rest. */
  method Carve(whole: Draw, ghost rest: Rectangle, ghost top: Rectangle, out: seq<Draw>, r: Rectangle, rest': Rectangle)
    returns (out': seq<Draw>, bot: Rectangle)
    requires Carved(whole, rest, top, out)
    requires forall p :: rest.Has(p) <==> r.Has(p) || rest'.Has(p)
    requires forall p :: r.Has(p) ==> !rest'.Has(p) && !top.Has(p)
    ensures bot == rest' && Carved(whole, rest', top, out') && |out'| == |out| + 1
  {
    var d := Draw(r, Offset(whole.sp, whole.r.min, r.min), Offset(whole.mp, whole.r.min, r.min));
    CarveStep(whole, rest, top, out, d, rest');
    out', bot := out + [d], rest';
  }

  lemma CarvedAll(whole: Draw, rest: Rectangle, top: Rectangle, out: seq<Draw>)
    requires Carved(whole, rest, top, out) && forall p :: rest.Has(p) ==> top.Has(p)
    ensures forall p :: Times(out, p) == if whole.r.Has(p) && !top.Has(p) then 1 else 0
    ensures forall i, p :: 0 <= i < |out| ==> SourceAt(out[i], p) == SourceAt(whole, p)
  {
  }

  lemma NoArea(r: Rectangle)
    ensures r.Dx() * r.Dy() == 0 ==> forall p :: !r.Has(p)
  {
  }
}
