/**
 Column widths of a table in abaco: columns get the widest their cells ask for if that fits,
 and otherwise share what there is above their minimum widths.
 */
module TableWidth {
  import opened Wrappers

  /** A cell; `spec` is the width its tag asks for, worked out for the width at hand. */
  datatype Cell = Cell(col: nat, colspan: nat, minw: int, maxw: int, spec: Option<int>)

  function Max(a: int, b: int): int { if a > b then a else b }

  /** Division as C has it, towards zero. */
  function Div(a: int, b: int): int
    requires b > 0
  {
    if a >= 0 then a / b else -((-a) / b)
  }

  function Sum(w: seq<int>): int {
    if w == [] then 0 else Sum(w[..|w| - 1]) + w[|w| - 1]
  }

  lemma SumLast(w: seq<int>, i: nat)
    requires i < |w|
    ensures Sum(w[..i + 1]) == Sum(w[..i]) + w[i]
  {
    assert w[..i + 1][..i] == w[..i];
  }

  // ----- spanning cells -----

  function Span(c: Cell, ncol: nat): nat
    requires c.col < ncol
  {
    if c.colspan == 0 then ncol - c.col else c.colspan
  }

  predicate Fits(c: Cell, ncol: nat) {
    c.col < ncol && c.col + Span(c, ncol) <= ncol
  }

  /** What a spanning cell wants from the columns themselves. */
  function Wanted(c: Cell, ncol: nat, spacing: int, sep: int, doMax: bool): int
    requires c.col < ncol
  {
    var n := Span(c, ncol);
    (if doMax then c.maxw else c.minw) - (spacing * (n - 1) + n * sep)
  }

  /** The part of `rem` for a column of width `w` among `n` that have `aw`: whole percents of it. */
  function Share(w: nat, aw: nat, rem: nat, n: nat): nat
    requires n > 0
  {
    if aw > 0 then w * 100 / aw * rem / 100 else rem / n
  }

  function Widened(c: Cell, width: seq<nat>, ncol: nat, spacing: int, sep: int, doMax: bool): (r: seq<nat>)
    requires Fits(c, ncol) && |width| == ncol
    ensures |r| == ncol
  {
    var n := Span(c, ncol);
    var aw := Total(width[c.col..c.col + n]);
    var rem := Wanted(c, ncol, spacing, sep, doMax) - aw;
    if c.colspan == 1 || rem <= 0 then width
    else seq(ncol, i requires 0 <= i < ncol =>
                     if c.col <= i < c.col + n then width[i] + Share(width[i], aw, rem, n) else width[i])
  }

  /** The sum of widths, which are never negative. */
  function Total(w: seq<nat>): (t: nat)
    ensures t == Sum(w)
  {
    if w == [] then 0 else Total(w[..|w| - 1]) + w[|w| - 1]
  }

  function FixedCols(cells: seq<Cell>, width: seq<nat>, ncol: nat, spacing: int, sep: int, doMax: bool): (r: seq<nat>)
    requires |width| == ncol && forall k :: 0 <= k < |cells| ==> Fits(cells[k], ncol)
    ensures |r| == ncol
  {
    if cells == [] then width
    else Widened(cells[|cells| - 1], FixedCols(cells[..|cells| - 1], width, ncol, spacing, sep, doMax), ncol, spacing, sep, doMax)
  }

  lemma ShareBound(w: nat, aw: nat, rem: nat, n: nat)
    requires n > 0 && aw > 0
    ensures Share(w, aw, rem, n) * aw <= w * rem
  {
    var d := w * 100 / aw;
    var e := d * rem / 100;
    assert d * aw <= w * 100;
    assert e * 100 <= d * rem;
    assert e * 100 * aw <= d * rem * aw by { assert (d * rem - e * 100) * aw >= 0; }
    assert d * aw * rem <= w * 100 * rem by { assert (w * 100 - d * aw) * rem >= 0; }
    assert (e * aw) * 100 <= (w * rem) * 100;
  }

  /** A share is the whole part of so many hundredths of `rem` as the column has whole percents of `aw`. */
  lemma ShareExact(w: nat, aw: nat, rem: nat, n: nat)
    requires n > 0
    ensures aw > 0 ==> exists p: nat :: p * aw <= 100 * w < (p + 1) * aw
                                        && Share(w, aw, rem, n) * 100 <= p * rem < Share(w, aw, rem, n) * 100 + 100
    ensures aw == 0 ==> n * Share(w, aw, rem, n) <= rem < n * Share(w, aw, rem, n) + n
  {
    if aw > 0 {
      var p := w * 100 / aw;
      DivMod(w * 100, aw);
      DivMod(p * rem, 100);
      Distribute(p, 1, aw);
      assert aw * p == p * aw;
      assert Share(w, aw, rem, n) == p * rem / 100;
      hide Share;
      assert p * aw <= 100 * w < (p + 1) * aw;
    } else {
      DivMod(rem, n);
    }
  }

  /** All shares of the first `k` of `w`. */
  function Shares(w: seq<nat>, aw: nat, rem: nat, k: nat): nat
    requires k <= |w|
  {
    if k == 0 then 0 else Shares(w, aw, rem, k - 1) + Share(w[k - 1], aw, rem, |w|)
  }

  lemma Distribute(a: int, b: int, c: int)
    ensures (a + b) * c == a * c + b * c
  {
  }

  lemma Cancel(a: int, b: int, c: int)
    requires c > 0 && a * c <= b * c
    ensures a <= b
  {
  }

  lemma {:induction false} SharesBound(w: seq<nat>, aw: nat, rem: nat, k: nat)
    requires k <= |w| && aw > 0
    ensures Shares(w, aw, rem, k) * aw <= Total(w[..k]) * rem
  {
    if k > 0 {
      SharesBound(w, aw, rem, k - 1);
      assert w[..k][..k - 1] == w[..k - 1];
      ShareBound(w[k - 1], aw, rem, |w|);
      hide *;
      Distribute(Shares(w, aw, rem, k - 1), Share(w[k - 1], aw, rem, |w|), aw);
      Distribute(Total(w[..k - 1]), w[k - 1], rem);
      SharesStep(w, aw, rem, k);
      TotalStep(w, k);
    }
  }

  lemma SharesStep(w: seq<nat>, aw: nat, rem: nat, k: nat)
    requires 0 < k <= |w|
    ensures Shares(w, aw, rem, k) == Shares(w, aw, rem, k - 1) + Share(w[k - 1], aw, rem, |w|)
  {
  }

  lemma TotalStep(w: seq<nat>, k: nat)
    requires 0 < k <= |w|
    ensures Total(w[..k]) == Total(w[..k - 1]) + w[k - 1]
  {
    assert w[..k][..k - 1] == w[..k - 1];
  }

  lemma {:induction false} EqualShares(w: seq<nat>, rem: nat, k: nat)
    requires k <= |w|
    ensures Shares(w, 0, rem, k) == k * if k == 0 then 0 else rem / |w|
  {
    if k > 0 {
      EqualShares(w, rem, k - 1);
      Distribute(k - 1, 1, rem / |w|);
    }
  }

  /** Spanned columns together never get more than is missing. */
  lemma SharesAtMost(w: seq<nat>, rem: nat)
    ensures Shares(w, Total(w), rem, |w|) <= rem
  {
    hide Shares;
    var aw := Total(w);
    if aw > 0 {
      SharesBound(w, aw, rem, |w|);
      assert w[..|w|] == w;
      Cancel(Shares(w, aw, rem, |w|), rem, aw);
    } else {
      EqualShares(w, rem, |w|);
    }
  }

  lemma ShareEnough(w: nat, aw: nat, rem: nat, n: nat)
    requires n > 0 && aw > 0
    ensures 100 * (Share(w, aw, rem, n) * aw) >= 100 * (w * rem) - aw * (rem + 100)
  {
    var d := w * 100 / aw;
    var e := d * rem / 100;
    DivMod(w * 100, aw);
    DivMod(d * rem, 100);
    assert Share(w, aw, rem, n) == e;
    hide Share;
    NonNegative(e * 100 - (d * rem - 100), aw);
    assert d * aw == aw * d;
    NonNegative(d * aw - (w * 100 - aw), rem);
    LinearCore(w, aw, rem, d, e);
  }

  lemma NonNegative(a: int, b: int)
    requires a >= 0 && b >= 0
    ensures a * b >= 0
  {
  }

  /** The two roundings put together. */
  lemma LinearCore(w: int, aw: int, rem: int, d: int, e: int)
    requires (e * 100 - (d * rem - 100)) * aw >= 0 && (d * aw - (w * 100 - aw)) * rem >= 0
    ensures 100 * (e * aw) >= 100 * (w * rem) - aw * (rem + 100)
  {
    assert (e * 100 - (d * rem - 100)) * aw == 100 * (e * aw) - d * rem * aw + 100 * aw;
    assert (d * aw - (w * 100 - aw)) * rem == d * aw * rem - 100 * (w * rem) + aw * rem;
    assert d * rem * aw == d * aw * rem;
  }

  lemma {:induction false} SharesEnough(w: seq<nat>, aw: nat, rem: nat, k: nat)
    requires k <= |w| && aw > 0
    ensures 100 * (Shares(w, aw, rem, k) * aw) >= 100 * (Total(w[..k]) * rem) - k * (aw * (rem + 100))
  {
    hide Share, Shares, Total;
    if k > 0 {
      SharesEnough(w, aw, rem, k - 1);
      ShareEnough(w[k - 1], aw, rem, |w|);
      SharesStep(w, aw, rem, k);
      TotalStep(w, k);
      Distribute(Shares(w, aw, rem, k - 1), Share(w[k - 1], aw, rem, |w|), aw);
      Distribute(Total(w[..k - 1]), w[k - 1], rem);
      Distribute(k - 1, 1, aw * (rem + 100));
    } else {
      NoneShared(w, aw, rem);
    }
  }

  lemma NoneShared(w: seq<nat>, aw: nat, rem: nat)
    ensures Shares(w, aw, rem, 0) == 0 && Total(w[..0]) == 0
  {
  }

  /** And together they get what is missing but for one percent and one pixel a column. */
  lemma SharesAtLeast(w: seq<nat>, rem: nat)
    requires w != []
    ensures 100 * Shares(w, Total(w), rem, |w|) >= 100 * rem - |w| * (rem + 100)
  {
    hide Shares, Total, Share;
    var aw, n := Total(w), |w|;
    var s := Shares(w, aw, rem, n);
    if aw > 0 {
      SharesEnough(w, aw, rem, n);
      assert w[..n] == w;
      assert 100 * (s * aw) == (100 * s) * aw;
      assert 100 * (aw * rem) - n * (aw * (rem + 100)) == (100 * rem - n * (rem + 100)) * aw by {
        assert n * (aw * (rem + 100)) == (n * (rem + 100)) * aw;
      }
      Cancel(100 * rem - n * (rem + 100), 100 * s, aw);
    } else {
      EqualShares(w, rem, n);
      DivMod(rem, n);
      assert n * rem >= 0;
      Distribute(rem, 100, n);
    }
  }

  lemma {:induction false} TotalPlus(w: seq<nat>, v: seq<nat>, aw: nat, rem: nat, k: nat)
    requires |v| == |w| && k <= |w| && forall i :: 0 <= i < |w| ==> v[i] == w[i] + Share(w[i], aw, rem, |w|)
    ensures Total(v[..k]) == Total(w[..k]) + Shares(w, aw, rem, k)
  {
    if k > 0 {
      hide Share;
      TotalPlus(w, v, aw, rem, k - 1);
      TotalStep(w, k);
      TotalStep(v, k);
    }
  }

  /**
   Widening for a cell shrinks no column, touches only spanned ones, and gives them what is
   missing and no more, but for one percent and one pixel a column.
   */
  lemma WidenedBound(c: Cell, width: seq<nat>, ncol: nat, spacing: int, sep: int, doMax: bool)
    requires Fits(c, ncol) && |width| == ncol
    ensures var r := Widened(c, width, ncol, spacing, sep, doMax);
            var n := Span(c, ncol);
            var (w, aw) := (Wanted(c, ncol, spacing, sep, doMax), Total(width[c.col..c.col + n]));
            && Total(r[c.col..c.col + n]) <= Max(aw, w)
            && (c.colspan != 1 && w > aw ==> 100 * Total(r[c.col..c.col + n]) >= 100 * w - n * (w - aw + 100))
            && (forall i :: 0 <= i < ncol ==> r[i] >= width[i])
            && (forall i :: 0 <= i < ncol && !(c.col <= i < c.col + n) ==> r[i] == width[i])
  {
    hide Share, Total, Wanted;
    var r := Widened(c, width, ncol, spacing, sep, doMax);
    var n := Span(c, ncol);
    var w, v := width[c.col..c.col + n], r[c.col..c.col + n];
    var rem := Wanted(c, ncol, spacing, sep, doMax) - Total(w);
    if c.colspan != 1 && rem > 0 {
      TotalPlus(w, v, Total(w), rem, n);
      SharesAtMost(w, rem);
      SharesAtLeast(w, rem);
      assert w[..n] == w && v[..n] == v;
    }
  }

  /** `cellwidth`: what a cell gets from its columns, with the spacing and separators inside it. */
  function CellWidth(c: Cell, width: seq<nat>, ncol: nat, spacing: int, sep: int): int
    requires Fits(c, ncol) && |width| == ncol
  {
    if c.colspan == 1 then width[c.col]
    else
      var n := if c.colspan == 0 then ncol - c.col else c.colspan;
      spacing * (n - 1) + n * sep + Total(width[c.col..c.col + n])
  }

  /** A spanning cell that was too narrow gets the width it asks for and no more, but for the rounding. */
  lemma CellGetsWidth(c: Cell, width: seq<nat>, ncol: nat, spacing: int, sep: int, doMax: bool)
    requires Fits(c, ncol) && |width| == ncol && c.colspan != 1
    ensures var was := CellWidth(c, width, ncol, spacing, sep);
            var got := CellWidth(c, Widened(c, width, ncol, spacing, sep, doMax), ncol, spacing, sep);
            var asked := if doMax then c.maxw else c.minw;
            if was >= asked then got == was
            else got <= asked && 100 * got >= 100 * asked - Span(c, ncol) * (asked - was + 100)
  {
    hide Total, Share;
    WidenedBound(c, width, ncol, spacing, sep, doMax);
  }

  // ----- squeezing -----

  /** A column's part of the room `w`, in proportion to its part of `d`. */
  function Part(least: int, most: int, w: int, d: int): int
    requires d > 0
  {
    Div((most - least) * w, d)
  }

  /** Between minimum and maximum widths, in proportion to the room each column leaves. */
  function Squeezed(minw: seq<nat>, maxw: seq<nat>, tw: int): (r: seq<int>)
    requires |minw| == |maxw|
    ensures |r| == |minw|
  {
    var w, d := tw - Total(minw), Total(maxw) - Total(minw);
    seq(|minw|, i requires 0 <= i < |minw| =>
                  if w <= 0 || d <= 0 then minw[i] else minw[i] + Part(minw[i], maxw[i], w, d))
  }

  ghost predicate Between(minw: seq<nat>, r: seq<int>, maxw: seq<nat>) {
    |minw| == |r| == |maxw| && forall i :: 0 <= i < |r| ==> minw[i] <= r[i] <= maxw[i]
  }

  lemma PartBounds(least: int, most: int, w: nat, d: nat)
    requires least <= most && 0 < w < d
    ensures 0 <= Part(least, most, w, d) <= most - least
    ensures (most - least) * w - d < Part(least, most, w, d) * d <= (most - least) * w
  {
    var x := most - least;
    NonNegative(x, w);
    NonNegative(x, d - w);
    DivMod(x * w, d);
    Quotient(x * w, d);
    assert Part(least, most, w, d) == x * w / d;
    hide Part;
    var e := x * w / d;
    Distribute(w, d - w, x);
    assert x * w == w * x && x * (d - w) == (d - w) * x && d * x == x * d && d * e == e * d;
    Cancel(e, x, d);
  }

  /** A column whose maximum is below its minimum loses what one the other way round would gain. */
  lemma PartNegates(least: int, most: int, w: int, d: int)
    requires d > 0
    ensures Part(least, most, w, d) == -Part(most, least, w, d)
  {
    var x := (least - most) * w;
    assert (most - least) * w == -x;
    DivNegates(x, d);
  }

  lemma DivNegates(x: int, d: int)
    requires d > 0
    ensures Div(-x, d) == -Div(x, d)
  {
    if x == 0 {
      Quotient(0, d);
      assert 0 / d == 0;
    }
  }

  lemma SumNone(w: seq<int>)
    requires w == []
    ensures Sum(w) == 0
  {
  }

  lemma {:induction false} SqueezedSum(minw: seq<nat>, maxw: seq<nat>, r: seq<int>, w: nat, d: nat, k: nat)
    requires |minw| == |maxw| == |r| && k <= |r| && 0 < w < d
    requires forall i :: 0 <= i < |r| ==> minw[i] <= maxw[i] && r[i] == minw[i] + Part(minw[i], maxw[i], w, d)
    ensures var g, x := Sum(r[..k]) - Total(minw[..k]), Total(maxw[..k]) - Total(minw[..k]);
            x * w - k * d <= g * d <= x * w && (k > 0 ==> x * w - k * d < g * d)
  {
    hide Part, Sum, Total;
    if k == 0 {
      SumNone(r[..0]);
    } else {
      SqueezedSum(minw, maxw, r, w, d, k - 1);
      var x := maxw[k - 1] - minw[k - 1];
      PartBounds(minw[k - 1], maxw[k - 1], w, d);
      TotalStep(minw, k);
      TotalStep(maxw, k);
      SumLast(r, k - 1);
      var g, y := Sum(r[..k - 1]) - Total(minw[..k - 1]), Total(maxw[..k - 1]) - Total(minw[..k - 1]);
      Distribute(g, Part(minw[k - 1], maxw[k - 1], w, d), d);
      Distribute(y, x, w);
      Distribute(k - 1, 1, d);
    }
  }

  lemma CancelStrict(g: int, w: int, n: int, d: int)
    requires d > 0 && d * w - n * d < g * d <= d * w
    ensures w - n < g <= w
  {
    Cancel(g, w, d);
    assert (w - n) * d == w * d - n * d;
    assert (g - (w - n)) * d > 0;
  }

  /** Squeezed widths lie between minimum and maximum and miss the width to fill by less than one per column. */
  lemma SqueezedFits(minw: seq<nat>, maxw: seq<nat>, tw: int)
    requires |minw| == |maxw| > 0 && Between(minw, minw, maxw) && tw < Total(maxw)
    ensures Between(minw, Squeezed(minw, maxw, tw), maxw)
    ensures tw < Total(minw) ==> Sum(Squeezed(minw, maxw, tw)) == Total(minw)
    ensures Total(minw) <= tw ==> tw - |minw| < Sum(Squeezed(minw, maxw, tw)) <= tw
  {
    hide Sum, Total, Part;
    var r, n := Squeezed(minw, maxw, tw), |minw|;
    var w, d := tw - Total(minw), Total(maxw) - Total(minw);
    if w <= 0 {
      assert r == minw;
    } else {
      forall i | 0 <= i < n ensures minw[i] <= r[i] <= maxw[i] {
        PartBounds(minw[i], maxw[i], w, d);
      }
      SqueezedSum(minw, maxw, r, w, d, n);
      assert r[..n] == r && minw[..n] == minw && maxw[..n] == maxw;
      CancelStrict(Sum(r) - Total(minw), w, n, d);
    }
  }

  /** A squeezed column is narrower than its minimum exactly when its maximum is too far below that. */
  lemma NarrowedIff(minw: seq<nat>, maxw: seq<nat>, tw: int, i: nat)
    requires |minw| == |maxw| && i < |minw| && tw < Total(maxw)
    ensures Squeezed(minw, maxw, tw)[i] < minw[i] <==>
              var w, d := tw - Total(minw), Total(maxw) - Total(minw);
              w > 0 && (minw[i] - maxw[i]) * w >= d
  {
    hide Total;
    var w, d := tw - Total(minw), Total(maxw) - Total(minw);
    if w > 0 {
      NegativeIff(minw[i], maxw[i], w, d);
    }
  }

  lemma NegativeIff(least: nat, most: nat, w: nat, d: nat)
    requires 0 < w < d
    ensures Part(least, most, w, d) < 0 <==> (least - most) * w >= d
  {
    var x := (most - least) * w;
    assert (least - most) * w == -x;
    DivNegative(x, d);
  }

  lemma DivNegative(x: int, d: nat)
    requires d > 0
    ensures Div(x, d) < 0 <==> -x >= d
  {
    if x < 0 {
      Quotient(-x, d);
      assert Div(x, d) == -((-x) / d);
    } else {
      Quotient(x, d);
      assert Div(x, d) == x / d;
    }
  }

  lemma Quotient(a: nat, d: nat)
    requires d > 0
    ensures 0 <= a / d && (a / d > 0 <==> a >= d)
  {
    var q := a / d;
    assert a == q * d + a % d;
    if q > 0 {
      assert (q - 1) * d >= 0;
    }
  }

  // ----- the whole table -----

  /** A cell that asks for a width gets it as its maximum, but never less than its minimum. */
  function Asked(c: Cell): Cell {
    if c.spec.Some? then c.(maxw := Max(c.spec.value, c.minw)) else c
  }

  function AskedAll(cells: seq<Cell>): (r: seq<Cell>)
    ensures |r| == |cells| && forall k :: 0 <= k < |cells| ==> r[k] == Asked(cells[k])
  {
    seq(|cells|, k requires 0 <= k < |cells| => Asked(cells[k]))
  }

  /** The widest a cell of this column alone asks for, or zero. */
  function Widest(cells: seq<Cell>, col: nat, doMax: bool): nat {
    if cells == [] then 0
    else
      var c := cells[|cells| - 1];
      var before := Widest(cells[..|cells| - 1], col, doMax);
      if c.colspan == 1 && c.col == col then Max(before, if doMax then c.maxw else c.minw) else before
  }

  function WidestAll(cells: seq<Cell>, ncol: nat, doMax: bool): (r: seq<nat>)
    ensures |r| == ncol && forall i :: 0 <= i < ncol ==> r[i] == Widest(cells, i, doMax)
  {
    seq(ncol, i requires 0 <= i < ncol => Widest(cells, i, doMax))
  }

  /** What a cell asks of its column: a width from its tag counts, but never below its minimum. */
  function Ask(c: Cell, doMax: bool): int {
    if !doMax then c.minw
    else match c.spec
      case None => c.maxw
      case Some(w) => if w < c.minw then c.minw else w
  }

  lemma {:induction false} WidestIsMax(cells: seq<Cell>, col: nat, doMax: bool)
    ensures var r := Widest(cells, col, doMax);
            && (forall k :: 0 <= k < |cells| && cells[k].colspan == 1 && cells[k].col == col ==>
                  (if doMax then cells[k].maxw else cells[k].minw) <= r)
            && (r == 0 || exists k :: 0 <= k < |cells| && cells[k].colspan == 1 && cells[k].col == col
                                      && r == if doMax then cells[k].maxw else cells[k].minw)
  {
    if cells != [] {
      var n := |cells| - 1;
      WidestIsMax(cells[..n], col, doMax);
      assert forall k :: 0 <= k < n ==> cells[..n][k] == cells[k];
      var c := cells[n];
      assert c.colspan == 1 && c.col == col ==> Widest(cells, col, doMax) >= if doMax then c.maxw else c.minw;
    }
  }

  /** A column is as wide as the most that a cell of its own asks for. */
  lemma ColumnIsWidestAsk(cells: seq<Cell>, col: nat, doMax: bool)
    ensures var r := Widest(AskedAll(cells), col, doMax);
            && (forall k :: 0 <= k < |cells| && cells[k].colspan == 1 && cells[k].col == col ==> Ask(cells[k], doMax) <= r)
            && (r == 0 || exists k :: 0 <= k < |cells| && cells[k].colspan == 1 && cells[k].col == col
                                      && r == Ask(cells[k], doMax))
  {
    hide Widest;
    var all := AskedAll(cells);
    WidestIsMax(all, col, doMax);
    forall k | 0 <= k < |cells|
      ensures all[k].colspan == cells[k].colspan && all[k].col == cells[k].col
      ensures (if doMax then all[k].maxw else all[k].minw) == Ask(cells[k], doMax)
    {
    }
    var r := Widest(all, col, doMax);
    if r != 0 {
      var k :| 0 <= k < |all| && all[k].colspan == 1 && all[k].col == col && r == if doMax then all[k].maxw else all[k].minw;
      assert r == Ask(cells[k], doMax);
    }
  }

  ghost predicate AllFit(cells: seq<Cell>, ncol: nat) {
    forall k :: 0 <= k < |cells| ==> Fits(cells[k], ncol)
  }

  /** Minimum or maximum widths of the columns. */
  ghost function Columns(cells: seq<Cell>, ncol: nat, spacing: int, sep: int, doMax: bool): (r: seq<nat>)
    requires AllFit(cells, ncol)
    ensures |r| == ncol
  {
    FixedCols(cells, WidestAll(cells, ncol, doMax), ncol, spacing, sep, doMax)
  }

  /** `stretch`: the table has a width of its own to fill. */
  ghost function Laid(minw: seq<nat>, maxw: seq<nat>, tw: int, stretch: bool): (r: seq<int>)
    requires |minw| == |maxw| > 0
    ensures |r| == |minw|
  {
    if Total(maxw) > tw then Squeezed(minw, maxw, tw) else Stretched(maxw, tw, stretch)
  }

  /** What is left over is shared out evenly, if the table has a width to fill. */
  ghost function Stretched(maxw: seq<nat>, tw: int, stretch: bool): (r: seq<int>)
    requires maxw != []
    ensures |r| == |maxw|
  {
    var d := if stretch then (tw - Total(maxw)) / |maxw| else 0;
    seq(|maxw|, i requires 0 <= i < |maxw| => maxw[i] + d)
  }

  lemma {:induction false} SumShift(w: seq<nat>, r: seq<int>, d: nat, k: nat)
    requires |r| == |w| && k <= |w| && forall i :: 0 <= i < |w| ==> r[i] == w[i] + d
    ensures Sum(r[..k]) == Total(w[..k]) + k * d
  {
    if k > 0 {
      SumShift(w, r, d, k - 1);
      SumLast(r, k - 1);
      TotalStep(w, k);
      Distribute(k - 1, 1, d);
    }
  }

  lemma {:induction false} TotalOrdered(v: seq<nat>, w: seq<nat>, k: nat)
    requires |v| == |w| && k <= |v| && forall i :: 0 <= i < |v| ==> v[i] <= w[i]
    ensures Total(v[..k]) <= Total(w[..k])
  {
    if k > 0 {
      TotalOrdered(v, w, k - 1);
      TotalStep(v, k);
      TotalStep(w, k);
    }
  }

  /** How wide the table gets, whenever no column has a minimum above its maximum. */
  lemma LaidFits(minw: seq<nat>, maxw: seq<nat>, tw: int, stretch: bool)
    requires |minw| == |maxw| > 0 && Between(minw, minw, maxw)
    ensures var r := Laid(minw, maxw, tw, stretch);
            && Sum(r) <= Max(tw, Total(minw))
            && (forall i :: 0 <= i < |r| ==> r[i] >= minw[i])
            && (tw < Total(maxw) ==> Between(minw, r, maxw))
            && (tw < Total(minw) ==> Sum(r) == Total(minw))
            && (Total(minw) <= tw < Total(maxw) || (stretch && Total(maxw) <= tw) ==> tw - |minw| < Sum(r))
            && (!stretch && Total(maxw) <= tw ==> r == maxw)
  {
    hide Sum, Total, Squeezed;
    TotalOrdered(minw, maxw, |minw|);
    assert maxw[..|minw|] == maxw && minw[..|minw|] == minw;
    if Total(maxw) > tw {
      SqueezedFits(minw, maxw, tw);
    } else {
      LooseFits(minw, maxw, tw, stretch);
    }
  }

  /** Where the maximum widths fit, what is left over is shared out evenly or not at all. */
  lemma LooseFits(minw: seq<nat>, maxw: seq<nat>, tw: int, stretch: bool)
    requires |minw| == |maxw| > 0 && Total(maxw) <= tw
    ensures var r := Laid(minw, maxw, tw, stretch);
            && Sum(r) <= tw && (stretch ==> tw - |minw| < Sum(r)) && (!stretch ==> r == maxw)
            && (forall i :: 0 <= i < |r| ==> r[i] >= maxw[i])
            && (forall i, j :: 0 <= i < |r| && 0 <= j < |r| ==> r[i] - maxw[i] == r[j] - maxw[j])
  {
    hide Sum, Total, Squeezed;
    var r, n, room := Laid(minw, maxw, tw, stretch), |minw|, tw - Total(maxw);
    DivMod(room, n);
    Quotient(room, n);
    SumShift(maxw, r, if stretch then room / n else 0, n);
    assert r[..n] == r && maxw[..n] == maxw;
  }

  lemma DivMod(a: nat, n: nat)
    requires n > 0
    ensures n * (a / n) <= a < n * (a / n) + n
  {
  }

  /** Cells are widened for in their order, so the last spanning cell of a table always gets its width. */
  lemma LastCellSatisfied(cells: seq<Cell>, c: Cell, width: seq<nat>, ncol: nat, spacing: int, sep: int, doMax: bool)
    requires AllFit(cells + [c], ncol) && |width| == ncol && c.colspan != 1
    ensures Fits(c, ncol)
    ensures AllFit(cells, ncol) &&
            var was := CellWidth(c, FixedCols(cells, width, ncol, spacing, sep, doMax), ncol, spacing, sep);
            var got := CellWidth(c, FixedCols(cells + [c], width, ncol, spacing, sep, doMax), ncol, spacing, sep);
            var asked := if doMax then c.maxw else c.minw;
            if was >= asked then got == was
            else got <= asked && 100 * got >= 100 * asked - Span(c, ncol) * (asked - was + 100)
  {
    hide Widened, CellWidth;
    var all := cells + [c];
    assert all[|cells|] == c && all[..|cells|] == cells;
    assert forall k :: 0 <= k < |cells| ==> all[k] == cells[k];
    var before := FixedCols(cells, width, ncol, spacing, sep, doMax);
    CellGetsWidth(c, before, ncol, spacing, sep, doMax);
  }

  lemma {:induction false} WidestOrdered(cells: seq<Cell>, col: nat)
    requires forall k :: 0 <= k < |cells| ==> cells[k].minw <= cells[k].maxw
    ensures Widest(cells, col, false) <= Widest(cells, col, true)
  {
    if cells != [] {
      WidestOrdered(cells[..|cells| - 1], col);
    }
  }

  lemma {:induction false} NothingSpanned(cells: seq<Cell>, width: seq<nat>, ncol: nat, spacing: int, sep: int, doMax: bool)
    requires |width| == ncol && AllFit(cells, ncol) && forall k :: 0 <= k < |cells| ==> cells[k].colspan == 1
    ensures FixedCols(cells, width, ncol, spacing, sep, doMax) == width
  {
    if cells != [] {
      NothingSpanned(cells[..|cells| - 1], width, ncol, spacing, sep, doMax);
    }
  }

  /** Without spanning cells no column has a minimum above its maximum. */
  lemma SingleColumns(cells: seq<Cell>, ncol: nat, spacing: int, sep: int)
    requires AllFit(cells, ncol)
    requires forall k :: 0 <= k < |cells| ==> cells[k].colspan == 1 && cells[k].minw <= cells[k].maxw
    ensures var minw := Columns(cells, ncol, spacing, sep, false);
            Between(minw, minw, Columns(cells, ncol, spacing, sep, true))
  {
    NothingSpanned(cells, WidestAll(cells, ncol, false), ncol, spacing, sep, false);
    NothingSpanned(cells, WidestAll(cells, ncol, true), ncol, spacing, sep, true);
    forall i | 0 <= i < ncol ensures Widest(cells, i, false) <= Widest(cells, i, true) {
      WidestOrdered(cells, i);
    }
  }

  method GetWidth(w: array<nat>) returns (tot: nat)
    ensures tot == Total(w[..])
  {
    tot := 0;
    for i := 0 to w.Length
      invariant tot == Total(w[..i])
    {
      assert w[..][..i + 1] == w[..i + 1] && w[..][..i] == w[..i];
      TotalStep(w[..], i + 1);
      tot := tot + w[i];
    }
    assert w[..w.Length] == w[..];
  }

  class Table {
    var cells: seq<Cell>
    const ncol: nat
    const cols: array<int>
    const spacing: int
    const stretch: bool

    constructor (cells: seq<Cell>, ncol: nat, spacing: int, stretch: bool)
      requires ncol > 0 && AllFit(cells, ncol)
      ensures Valid() && fresh(cols) && this.cells == cells && this.ncol == ncol
      ensures this.spacing == spacing && this.stretch == stretch
    {
      this.cells, this.ncol, this.spacing, this.stretch := cells, ncol, spacing, stretch;
      this.cols := new int[ncol];
    }

    ghost predicate Valid()
      reads this
    {
      ncol > 0 && cols.Length == ncol && AllFit(cells, ncol)
    }

    method FixCols(width: array<nat>, sep: int, doMax: bool)
      requires Valid() && width.Length == ncol
      modifies width
      ensures width[..] == FixedCols(cells, old(width[..]), ncol, spacing, sep, doMax)
    {
      hide Widened;
      ghost var was := width[..];
      for k := 0 to |cells|
        invariant width[..] == FixedCols(cells[..k], was, ncol, spacing, sep, doMax)
      {
        assert cells[..k + 1][..k] == cells[..k];
        FixCell(cells[k], width, sep, doMax);
      }
      assert cells[..|cells|] == cells;
    }

    method FixCell(c: Cell, width: array<nat>, sep: int, doMax: bool)
      requires ncol == width.Length && Fits(c, ncol)
      modifies width
      ensures width[..] == Widened(c, old(width[..]), ncol, spacing, sep, doMax)
    {
      hide Share, Total, Wanted;
      if c.colspan == 1 {
        return;
      }
      var n := Span(c, ncol);
      var w := Wanted(c, ncol, spacing, sep, doMax);
      var aw := SpanWidth(width, c.col, n);
      var rem := w - aw;
      if rem <= 0 {
        return;
      }
      ghost var was := width[..];
      for i := c.col to c.col + n
        invariant forall j :: 0 <= j < ncol ==> width[j] == was[j] + if c.col <= j < i then Share(was[j], aw, rem, n) else 0
      {
        width[i] := width[i] + Share(width[i], aw, rem, n);
      }
    }

    method SpanWidth(width: array<nat>, col: nat, n: nat) returns (aw: nat)
      requires col + n <= width.Length
      ensures aw == Total(width[col..col + n])
    {
      ghost var part: seq<nat> := width[col..col + n];
      aw := 0;
      for k := 0 to n
        invariant aw == Total(part[..k])
      {
        TotalStep(part, k + 1);
        aw := aw + width[col + k];
      }
      assert part[..n] == part;
    }

    /** Widest cells per column; the cells keep the maximum they were given. */
    method Measure() returns (minw: array<nat>, maxw: array<nat>)
      requires Valid()
      modifies this`cells
      ensures Valid() && cells == AskedAll(old(cells)) && fresh(minw) && fresh(maxw) && minw != maxw
      ensures minw[..] == WidestAll(cells, ncol, false) && maxw[..] == WidestAll(cells, ncol, true)
    {
      hide Widest, Asked;
      maxw := new nat[ncol](_ => 0);
      minw := new nat[ncol](_ => 0);
      ghost var all := AskedAll(cells);
      NoneWidest(all[..0]);
      for k := 0 to |cells|
        invariant |all| == |cells| == |old(cells)|
        invariant forall j :: 0 <= j < |cells| ==> cells[j] == if j < k then all[j] else old(cells)[j]
        invariant forall i :: 0 <= i < ncol ==> minw[i] == Widest(all[..k], i, false) && maxw[i] == Widest(all[..k], i, true)
      {
        var c := Asked(cells[k]);
        cells := cells[k := c];
        AskedFits(old(cells)[k], ncol);
        MeasureCell(c, minw, maxw, all, k);
      }
      assert all[..|cells|] == all && cells == all;
      assert AllFit(cells, ncol) by { forall k | 0 <= k < |cells| ensures Fits(cells[k], ncol) { AskedFits(old(cells)[k], ncol); } }
    }

    method MeasureCell(c: Cell, minw: array<nat>, maxw: array<nat>, ghost all: seq<Cell>, ghost k: nat)
      requires k < |all| && all[k] == c && Fits(c, ncol) && minw.Length == maxw.Length == ncol && minw != maxw
      requires forall i :: 0 <= i < ncol ==> minw[i] == Widest(all[..k], i, false) && maxw[i] == Widest(all[..k], i, true)
      modifies minw, maxw
      ensures forall i :: 0 <= i < ncol ==> minw[i] == Widest(all[..k + 1], i, false) && maxw[i] == Widest(all[..k + 1], i, true)
    {
      assert all[..k + 1][..k] == all[..k];
      if c.colspan == 1 {
        maxw[c.col] := Max(maxw[c.col], c.maxw);
        minw[c.col] := Max(minw[c.col], c.minw);
      }
    }

    method Lay(tw: int, sep: int) returns (totw: int)
      requires Valid()
      modifies this`cells, cols
      ensures Valid() && cells == AskedAll(old(cells)) && totw == Sum(cols[..])
      ensures cols[..] == Laid(Columns(cells, ncol, spacing, sep, false), Columns(cells, ncol, spacing, sep, true), tw, stretch)
    {
      hide Sum, Total, Widest, Part, FixedCols, Laid, Squeezed;
      var minw, maxw := Measure();
      ghost var least := Columns(cells, ncol, spacing, sep, false);
      FixCols(maxw, sep, true);
      ghost var most := Columns(cells, ncol, spacing, sep, true);
      assert maxw[..] == most;
      var tmax := GetWidth(maxw);
      if tmax <= tw {
        var d := 0;
        if tw > tmax && stretch {
          d := (tw - tmax) / ncol;
        }
        totw := Stretch(maxw, d);
        LaidLoose(least, most, tw, stretch, d, cols[..]);
      } else {
        FixCols(minw, sep, false);
        assert minw[..] == least;
        var tmin := GetWidth(minw);
        totw := Squeeze(minw, maxw, tw - tmin, tmax - tmin);
        LaidTight(least, most, tw, stretch, cols[..]);
      }
    }

    method Stretch(maxw: array<nat>, d: int) returns (totw: int)
      requires maxw.Length == ncol == cols.Length
      modifies cols
      ensures totw == Sum(cols[..]) && forall i :: 0 <= i < ncol ==> cols[i] == maxw[i] + d
    {
      totw := 0;
      for i := 0 to ncol
        invariant totw == Sum(cols[..i]) && forall j :: 0 <= j < i ==> cols[j] == maxw[j] + d
      {
        ghost var before := cols[..i];
        cols[i] := maxw[i] + d;
        totw := totw + cols[i];
        SumNext(before, cols, i);
      }
      assert cols[..ncol] == cols[..];
    }

    method Squeeze(minw: array<nat>, maxw: array<nat>, w: int, d: int) returns (totw: int)
      requires minw.Length == maxw.Length == ncol == cols.Length
      modifies cols
      ensures totw == Sum(cols[..])
      ensures forall i :: 0 <= i < ncol ==>
        cols[i] == if w <= 0 || d <= 0 then minw[i] else minw[i] + Part(minw[i], maxw[i], w, d)
    {
      hide Part;
      totw := 0;
      for i := 0 to ncol
        invariant totw == Sum(cols[..i])
        invariant forall j :: 0 <= j < i ==>
          cols[j] == if w <= 0 || d <= 0 then minw[j] else minw[j] + Part(minw[j], maxw[j], w, d)
      {
        ghost var before := cols[..i];
        if w <= 0 || d <= 0 {
          cols[i] := minw[i];
        } else {
          cols[i] := minw[i] + Part(minw[i], maxw[i], w, d);
        }
        totw := totw + cols[i];
        SumNext(before, cols, i);
      }
      assert cols[..ncol] == cols[..];
    }
  }

  lemma NoneWidest(cells: seq<Cell>)
    requires cells == []
    ensures forall i: nat, doMax :: Widest(cells, i, doMax) == 0
  {
  }

  lemma AskedFits(c: Cell, ncol: nat)
    requires Fits(c, ncol)
    ensures Fits(Asked(c), ncol)
  {
  }

  lemma ZeroDivided(n: nat)
    requires n > 0
    ensures 0 / n == 0
  {
  }

  lemma LaidLoose(minw: seq<nat>, maxw: seq<nat>, tw: int, stretch: bool, d: int, r: seq<int>)
    requires |minw| == |maxw| == |r| > 0 && Total(maxw) <= tw
    requires d == if tw > Total(maxw) && stretch then (tw - Total(maxw)) / |maxw| else 0
    requires forall i :: 0 <= i < |r| ==> r[i] == maxw[i] + d
    ensures r == Laid(minw, maxw, tw, stretch)
  {
    hide Total, Squeezed;
    ZeroDivided(|maxw|);
  }

  lemma LaidTight(minw: seq<nat>, maxw: seq<nat>, tw: int, stretch: bool, r: seq<int>)
    requires |minw| == |maxw| == |r| > 0 && Total(maxw) > tw
    requires var w, d := tw - Total(minw), Total(maxw) - Total(minw);
             forall i :: 0 <= i < |r| ==> r[i] == if w <= 0 || d <= 0 then minw[i] else minw[i] + Part(minw[i], maxw[i], w, d)
    ensures r == Laid(minw, maxw, tw, stretch)
  {
    hide Total, Part, Stretched;
  }

  lemma SumNext(before: seq<int>, cols: array<int>, i: nat)
    requires i < cols.Length && cols[..i] == before
    ensures Sum(cols[..i + 1]) == Sum(before) + cols[i]
  {
    assert cols[..i + 1][..i] == before;
  }

  /** A spanning cell, widened for in proportion, can leave a column with a minimum above its maximum. */
  lemma SpanNarrowsColumn()
    ensures var cells := [Cell(0, 1, 0, 100, None), Cell(1, 1, 1, 1, None), Cell(0, 2, 50, 101, None)];
            && AllFit(cells, 2)
            && Columns(cells, 2, 0, 0, false) == [0, 50] && Columns(cells, 2, 0, 0, true) == [100, 1]
            && Laid([0, 50], [100, 1], 75, false) == [49, 26]
  {
    hide Total, Widened, Laid, Widest;
    var a, b, c := Cell(0, 1, 0, 100, None), Cell(1, 1, 1, 1, None), Cell(0, 2, 50, 101, None);
    var cells := [a, b, c];
    assert AllFit(cells, 2);
    forall doMax ensures FixedCols([a, b], WidestAll(cells, 2, doMax), 2, 0, 0, doMax) == WidestAll(cells, 2, doMax) {
      NothingSpanned([a, b], WidestAll(cells, 2, doMax), 2, 0, 0, doMax);
    }
    assert cells[..2] == [a, b];
    WidestOfThree(a, b, c);
    assert WidestAll(cells, 2, false) == [0, 1] && WidestAll(cells, 2, true) == [100, 1];
    WidenedTwo(c);
    LaidTwo();
  }

  lemma WidestOfThree(a: Cell, b: Cell, c: Cell)
    requires a == Cell(0, 1, 0, 100, None) && b == Cell(1, 1, 1, 1, None) && c == Cell(0, 2, 50, 101, None)
    ensures Widest([a, b, c], 0, false) == 0 && Widest([a, b, c], 1, false) == 1
    ensures Widest([a, b, c], 0, true) == 100 && Widest([a, b, c], 1, true) == 1
  {
    assert [a, b, c][..2] == [a, b] && [a, b][..1] == [a] && [a][..0] == [];
    assert Widest([a], 0, false) == 0 && Widest([a], 1, false) == 0 && Widest([a], 0, true) == 100 && Widest([a], 1, true) == 0;
    assert Widest([a, b], 0, false) == 0 && Widest([a, b], 1, false) == 1;
  }

  lemma WidenedTwo(c: Cell)
    requires c == Cell(0, 2, 50, 101, None)
    ensures Widened(c, [0, 1], 2, 0, 0, false) == [0, 50] && Widened(c, [100, 1], 2, 0, 0, true) == [100, 1]
  {
    hide Total;
    TwoColumns(0, 1);
    TwoColumns(100, 1);
  }

  lemma LaidTwo()
    ensures Laid([0, 50], [100, 1], 75, false) == [49, 26]
  {
    hide Total, Part;
    TwoColumns(100, 1);
    TwoColumns(0, 50);
    PartTwo();
  }

  lemma PartTwo()
    ensures Part(0, 100, 25, 51) == 49 && Part(50, 1, 25, 51) == -24
  {
  }

  lemma TwoColumns(x: nat, y: nat)
    ensures Total([x, y]) == x + y && [x, y][0..2] == [x, y]
  {
    assert [x, y][..1] == [x] && [x][..0] == [];
  }
}
