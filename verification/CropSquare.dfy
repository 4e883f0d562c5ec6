/**
 The square that mug crops a face from: dragged at one of nine regions, it stays a square
 inside the picture.
 */
module CropSquare {
  import opened PixelGraph
  import opened RectDiff

  datatype Region = TopLeft | Top | TopRight | Left | Middle | Right | BotLeft | Bot | BotRight

  function Min(a: int, b: int): int { if a < b then a else b }
  function Max(a: int, b: int): int { if a > b then a else b }

  /** Division by two as C has it, towards zero. */
  function Half(i: int): int {
    if i >= 0 then i / 2 else -((-i) / 2)
  }

  /** What halving loses: -1, 0 or 1. */
  function Odd(i: int): int {
    i - 2 * Half(i)
  }

  predicate Square(r: Rectangle) {
    r.Dx() == r.Dy() >= 3
  }

  predicate Held(r: Rectangle, pic: Rectangle) {
    Square(r) && RectInRect(r, pic)
  }

  /** The corner, the side or, in the middle, the size that a drag leaves alone. */
  predicate Anchored(k: Region, r: Rectangle, s: Rectangle) {
    match k
    case TopLeft => s.max == r.max
    case Top => s.max.y == r.max.y
    case TopRight => s.min.x == r.min.x && s.max.y == r.max.y
    case Left => s.max.x == r.max.x
    case Middle => s.Dx() == r.Dx()
    case Right => s.min.x == r.min.x
    case BotLeft => s.max.x == r.max.x && s.min.y == r.min.y
    case Bot => s.min.y == r.min.y
    case BotRight => s.min == r.min
  }

  /** How far twice the centre of the dragged side moves: the lost half, one way or the other. */
  predicate Drift(k: Region, r: Rectangle, s: Rectangle, toggle: int) {
    var lost := Odd(r.Dx() - s.Dx());
    var shift := if toggle == 1 then -lost else lost;
    match k
    case Top => s.min.x + s.max.x == r.min.x + r.max.x + shift
    case Bot => s.min.x + s.max.x == r.min.x + r.max.x + shift
    case Left => s.min.y + s.max.y == r.min.y + r.max.y + shift
    case Right => s.min.y + s.max.y == r.min.y + r.max.y + shift
    case _ => true
  }

  /** How far inwards the mouse pulls the dragged side or corner. */
  function Pull(k: Region, d: Pt): int {
    match k
    case TopLeft => Half(d.x + d.y)
    case Top => d.y
    case TopRight => Half(-d.x + d.y)
    case Left => d.x
    case Middle => 0
    case Right => -d.x
    case BotLeft => Half(d.x - d.y)
    case Bot => -d.y
    case BotRight => Half(-d.x - d.y)
  }

  /** How far the square may grow there: a side that moves takes the other two with it. */
  function Room(k: Region, r: Rectangle, pic: Rectangle): int {
    var (left, right) := (r.min.x - pic.min.x, pic.max.x - r.max.x);
    var (top, bottom) := (r.min.y - pic.min.y, pic.max.y - r.max.y);
    match k
    case TopLeft => Min(left, top)
    case Top => Min(Min(left, right), top)
    case TopRight => Min(right, top)
    case Left => Min(Min(top, bottom), left)
    case Middle => 0
    case Right => Min(Min(top, bottom), right)
    case BotLeft => Min(left, bottom)
    case Bot => Min(Min(left, right), bottom)
    case BotRight => Min(right, bottom)
  }

  /**
   The new side: as the mouse pulls, as far as there is room, and as before if that is under
   three. The bottom side tests the wrong sign, so it also ignores a drag that doubles the square.
   */
  function NewSide(k: Region, r: Rectangle, pic: Rectangle, d: Pt): int {
    var n := r.Dx() - Max(Pull(k, d), -Room(k, r, pic));
    if n < 3 || (k == Bot && n >= 2 * r.Dx()) then r.Dx() else n
  }

  /** The drags of a side that are dropped at once, so that the toggle stays: in by the whole side, or at the bottom out by it. */
  predicate Dropped(k: Region, r: Rectangle, pic: Rectangle, d: Pt) {
    var i := Max(Pull(k, d), -Room(k, r, pic));
    if k == Bot then -i >= r.Dx() else i >= r.Dx()
  }

  /** A coordinate's move in the middle region, kept inside the picture. */
  function Clamp(d: int, lo: int, hi: int): int {
    if d >= 0 then Min(d, hi) else Max(d, lo)
  }

  /** The other two sides `lo` and `hi` after one side moved inwards by `i` and left the size `n`. */
  function Follow(lo: int, hi: int, n: int, i: int, toggle: int): (s: (int, int))
    requires n == hi - lo - i
    ensures s.1 - s.0 == n && s.0 + s.1 == lo + hi + if toggle == 1 then -Odd(i) else Odd(i)
    ensures lo + Min(i, 0) <= s.0 && s.1 <= hi - Min(i, 0)
  {
    if toggle == 1 then (lo + Half(i), lo + Half(i) + n) else (hi - Half(i) - n, hi - Half(i))
  }

  /** A square that got too small is put back. */
  function Reset(s: Rectangle, r: Rectangle): Rectangle {
    if s.Dx() < 3 || s.Dy() < 3 then r else s
  }

  /** What a drag leaves before that: a square of the new side that may still be too small. */
  predicate Fits(k: Region, r: Rectangle, pic: Rectangle, d: Pt, s: Rectangle) {
    && s.Dx() == s.Dy() && Anchored(k, r, s)
    && Reset(s, r).Dx() == NewSide(k, r, pic, d)
    && (RectInRect(s, pic) || s.Dx() <= 0)
  }

  lemma ResetFits(k: Region, r: Rectangle, pic: Rectangle, d: Pt, s: Rectangle, toggle: int)
    requires Held(r, pic) && Fits(k, r, pic, d, s) && (k in {Top, Left, Right, Bot} ==> Drift(k, r, s, toggle))
    ensures var t := Reset(s, r);
            Held(t, pic) && Anchored(k, r, t) && Drift(k, r, t, toggle) && t.Dx() == NewSide(k, r, pic, d)
  {
    hide NewSide, Half;
    NothingLost();
  }

  /** Where a drag in the middle puts the corner. */
  function Shifted(r: Rectangle, pic: Rectangle, d: Pt): Pt {
    Pt(r.min.x + Clamp(d.x, pic.min.x - r.min.x, pic.max.x - r.max.x),
       r.min.y + Clamp(d.y, pic.min.y - r.min.y, pic.max.y - r.max.y))
  }

  lemma NothingLost()
    ensures Odd(0) == 0
  {
  }

  class Cropper {
    /** Static in the source: which side gets the half pixel. */
    var toggle: int

    constructor ()
      ensures toggle == 0
    {
      toggle := 0;
    }

    method Flip()
      modifies this
      ensures toggle == 1 - old(toggle)
    {
      toggle := 1 - toggle;
    }

    method MoveTopLeft(r: Rectangle, pic: Rectangle, d: Pt) returns (s: Rectangle)
      requires Held(r, pic)
      ensures Fits(TopLeft, r, pic, d, s)
    {
      hide Half;
      var i := Half(d.x + d.y);
      if i >= r.Dx() || i >= r.Dy() {
        return r;
      }
      i := Max(i, pic.min.x - r.min.x);
      i := Max(i, pic.min.y - r.min.y);
      s := Rect(r.min.x + i, r.min.y + i, r.max.x, r.max.y);
    }

    method MoveTopRight(r: Rectangle, pic: Rectangle, d: Pt) returns (s: Rectangle)
      requires Held(r, pic)
      ensures Fits(TopRight, r, pic, d, s)
    {
      hide Half;
      var i := Half(-d.x + d.y);
      if i >= r.Dx() || i >= r.Dy() {
        return r;
      }
      i := -Min(-i, pic.max.x - r.max.x);
      i := Max(i, pic.min.y - r.min.y);
      s := Rect(r.min.x, r.min.y + i, r.max.x - i, r.max.y);
    }

    method MoveBotLeft(r: Rectangle, pic: Rectangle, d: Pt) returns (s: Rectangle)
      requires Held(r, pic)
      ensures Fits(BotLeft, r, pic, d, s)
    {
      hide Half;
      var i := Half(d.x - d.y);
      if i >= r.Dx() || i >= r.Dy() {
        return r;
      }
      i := Max(i, pic.min.x - r.min.x);
      i := -Min(-i, pic.max.y - r.max.y);
      s := Rect(r.min.x + i, r.min.y, r.max.x, r.max.y - i);
    }

    method MoveBotRight(r: Rectangle, pic: Rectangle, d: Pt) returns (s: Rectangle)
      requires Held(r, pic)
      ensures Fits(BotRight, r, pic, d, s)
    {
      hide Half;
      var i := Half(-d.x - d.y);
      if i >= r.Dx() || i >= r.Dy() {
        return r;
      }
      i := -Min(-i, pic.max.x - r.max.x);
      i := -Min(-i, pic.max.y - r.max.y);
      s := Rect(r.min.x, r.min.y, r.max.x - i, r.max.y - i);
    }

    method MoveTop(r: Rectangle, pic: Rectangle, d: Pt) returns (s: Rectangle)
      requires Held(r, pic) && toggle in {0, 1}
      modifies this
      ensures toggle in {0, 1} && (toggle == old(toggle) ==> s == r)
      ensures Fits(Top, r, pic, d, s) && Drift(Top, r, s, toggle)
      ensures toggle == if Dropped(Top, r, pic, d) then old(toggle) else 1 - old(toggle)
    {
      hide Half, Odd;
      NothingLost();
      s := r;
      var i := d.y;
      if i < 0 {
        i := -Min(-i, pic.max.x - r.max.x);
        i := Max(i, pic.min.x - r.min.x);
      }
      i := Max(i, pic.min.y - r.min.y);
      if i >= r.Dy() {
        return;
      }
      Flip();
      var x := Follow(r.min.x, r.max.x, r.Dy() - i, i, toggle);
      s := Rect(x.0, r.min.y + i, x.1, r.max.y);
    }

    method MoveLeft(r: Rectangle, pic: Rectangle, d: Pt) returns (s: Rectangle)
      requires Held(r, pic) && toggle in {0, 1}
      modifies this
      ensures toggle in {0, 1} && (toggle == old(toggle) ==> s == r)
      ensures Fits(Left, r, pic, d, s) && Drift(Left, r, s, toggle)
      ensures toggle == if Dropped(Left, r, pic, d) then old(toggle) else 1 - old(toggle)
    {
      hide Half, Odd;
      NothingLost();
      s := r;
      var i := d.x;
      if i < 0 {
        i := -Min(-i, pic.max.y - r.max.y);
        i := Max(i, pic.min.y - r.min.y);
      }
      i := Max(i, pic.min.x - r.min.x);
      if i >= r.Dx() {
        return;
      }
      Flip();
      var y := Follow(r.min.y, r.max.y, r.Dx() - i, i, toggle);
      s := Rect(r.min.x + i, y.0, r.max.x, y.1);
    }

    method MoveRight(r: Rectangle, pic: Rectangle, d: Pt) returns (s: Rectangle)
      requires Held(r, pic) && toggle in {0, 1}
      modifies this
      ensures toggle in {0, 1} && (toggle == old(toggle) ==> s == r)
      ensures Fits(Right, r, pic, d, s) && Drift(Right, r, s, toggle)
      ensures toggle == if Dropped(Right, r, pic, d) then old(toggle) else 1 - old(toggle)
    {
      hide Half, Odd;
      NothingLost();
      s := r;
      var i := d.x;
      if i > 0 {
        i := Min(i, pic.max.y - r.max.y);
        i := -Max(-i, pic.min.y - r.min.y);
      }
      i := Min(i, pic.max.x - r.max.x);
      if -i >= r.Dx() {
        return;
      }
      Flip();
      var y := Follow(r.min.y, r.max.y, r.Dx() + i, -i, toggle);
      s := Rect(r.min.x, y.0, r.max.x + i, y.1);
    }

    method MoveBot(r: Rectangle, pic: Rectangle, d: Pt) returns (s: Rectangle)
      requires Held(r, pic) && toggle in {0, 1}
      modifies this
      ensures toggle in {0, 1} && (toggle == old(toggle) ==> s == r)
      ensures Fits(Bot, r, pic, d, s) && Drift(Bot, r, s, toggle)
      ensures toggle == if Dropped(Bot, r, pic, d) then old(toggle) else 1 - old(toggle)
    {
      hide Half, Odd;
      NothingLost();
      s := r;
      var i := d.y;
      if i > 0 {
        i := Min(i, pic.max.x - r.max.x);
        i := -Max(-i, pic.min.x - r.min.x);
      }
      i := Min(i, pic.max.y - r.max.y);
      if i >= r.Dy() {
        return;
      }
      Flip();
      var x := Follow(r.min.x, r.max.x, r.Dy() + i, -i, toggle);
      s := Rect(x.0, r.min.y, x.1, r.max.y + i);
    }

    /** The middle region moves the square as it is. */
    method MoveMiddle(r: Rectangle, pic: Rectangle, d: Pt) returns (s: Rectangle)
      requires Held(r, pic)
      ensures Held(s, pic) && s.Dx() == r.Dx() && s.min == Shifted(r, pic, d)
    {
      var x := Clamp(d.x, pic.min.x - r.min.x, pic.max.x - r.max.x);
      var y := Clamp(d.y, pic.min.y - r.min.y, pic.max.y - r.max.y);
      s := Rect(r.min.x + x, r.min.y + y, r.max.x + x, r.max.y + y);
    }

    /** One drag by `d`; a square that gets too small is put back. */
    method Move(r: Rectangle, pic: Rectangle, d: Pt, k: Region) returns (s: Rectangle, changed: bool)
      requires Held(r, pic) && toggle in {0, 1}
      modifies this
      ensures toggle in {0, 1}
      ensures Held(s, pic) && changed == (s != r)
      ensures Anchored(k, r, s) && Drift(k, r, s, toggle)
      ensures k != Middle ==> s.Dx() == NewSide(k, r, pic, d)
      ensures k == Middle ==> s.min == Shifted(r, pic, d)
      ensures k in {Top, Left, Right, Bot} ==> toggle == if Dropped(k, r, pic, d) then old(toggle) else 1 - old(toggle)
      ensures k in {TopLeft, TopRight, Middle, BotLeft, BotRight} ==> toggle == old(toggle)
    {
      hide NewSide, Fits, Half, Dropped;
      match k {
        case TopLeft => s := MoveTopLeft(r, pic, d);
        case Top => s := MoveTop(r, pic, d);
        case TopRight => s := MoveTopRight(r, pic, d);
        case Left => s := MoveLeft(r, pic, d);
        case Middle => s := MoveMiddle(r, pic, d);
        case Right => s := MoveRight(r, pic, d);
        case BotLeft => s := MoveBotLeft(r, pic, d);
        case Bot => s := MoveBot(r, pic, d);
        case BotRight => s := MoveBotRight(r, pic, d);
      }
      if k != Middle {
        ResetFits(k, r, pic, d, s, toggle);
      }
      s := Reset(s, r);
      changed := s != r;
    }

    /** Any sequence of drags keeps the square. */
    method Drags(r0: Rectangle, pic: Rectangle, drags: seq<(Pt, Region)>) returns (r: Rectangle)
      requires Held(r0, pic) && toggle in {0, 1}
      modifies this
      ensures Held(r, pic) && toggle in {0, 1}
      ensures (forall i :: 0 <= i < |drags| ==> drags[i].1 == Middle) ==> r.Dx() == r0.Dx()
    {
      r := r0;
      for i := 0 to |drags|
        invariant Held(r, pic) && toggle in {0, 1}
        invariant (forall k :: 0 <= k < i ==> drags[k].1 == Middle) ==> r.Dx() == r0.Dx()
      {
        var changed;
        r, changed := Move(r, pic, drags[i].0, drags[i].1);
      }
    }
  }

  /**
   The half pixels are not divided equally: a side dragged in and out again by as much
   returns to its place exactly when the way was even.
   */
  lemma InAndOut(k: Region, r: Rectangle, s: Rectangle, r': Rectangle, toggle: int)
    requires k in {Top, Left, Right, Bot} && toggle in {0, 1} && Square(r) && Square(s) && Square(r')
    requires Anchored(k, r, s) && Drift(k, r, s, toggle)
    requires Anchored(k, s, r') && Drift(k, s, r', 1 - toggle) && r'.Dx() == r.Dx()
    ensures r' == r <==> (r.Dx() - s.Dx()) % 2 == 0
  {
    var i := r.Dx() - s.Dx();
    assert Odd(-i) == -Odd(i);
    assert Odd(i) == 0 <==> i % 2 == 0;
  }

  /** With room on all sides, the top side can be pulled out by the whole side and the bottom cannot. */
  lemma BottomIgnoresDoubling(r: Rectangle, pic: Rectangle)
    requires Held(r, pic)
    requires RectInRect(Rect(r.min.x - r.Dx(), r.min.y - r.Dy(), r.max.x + r.Dx(), r.max.y + r.Dy()), pic)
    ensures NewSide(Top, r, pic, Pt(0, -r.Dy())) == 2 * r.Dx()
    ensures NewSide(Bot, r, pic, Pt(0, r.Dy())) == r.Dx()
  {
  }

  // ----- the nine regions -----

  /** Which quarter, half or quarter of `lo..hi` a coordinate is in. */
  function Band(lo: int, hi: int, v: int): (k: nat)
    requires lo <= hi
    ensures k < 3
  {
    var q := (hi - lo) / 4;
    if v < lo + q then 0 else if v < hi - q then 1 else 2
  }

  function BandStart(lo: int, hi: int, k: nat): int
    requires lo <= hi && k <= 3
  {
    var q := (hi - lo) / 4;
    if k == 0 then lo else if k == 1 then lo + q else if k == 2 then hi - q else hi
  }

  /** The `i`-th of the nine regions in reading order. */
  function Cell(r: Rectangle, i: nat): Rectangle
    requires r.Canonical() && i < 9
  {
    Rect(BandStart(r.min.x, r.max.x, i % 3), BandStart(r.min.y, r.max.y, i / 3),
         BandStart(r.min.x, r.max.x, i % 3 + 1), BandStart(r.min.y, r.max.y, i / 3 + 1))
  }

  lemma BandExact(lo: int, hi: int, v: int, k: nat)
    requires lo <= hi && k < 3
    ensures BandStart(lo, hi, k) <= v < BandStart(lo, hi, k + 1) <==> lo <= v < hi && k == Band(lo, hi, v)
  {
  }

  /** A point is in one region and no other if it is in the square, and in none if it is not. */
  lemma CellExact(r: Rectangle, p: Pt, i: nat)
    requires r.Canonical() && i < 9
    ensures Cell(r, i).Has(p) <==>
              r.Has(p) && i == 3 * Band(r.min.y, r.max.y, p.y) + Band(r.min.x, r.max.x, p.x)
  {
    hide Band, BandStart;
    BandExact(r.min.x, r.max.x, p.x, i % 3);
    BandExact(r.min.y, r.max.y, p.y, i / 3);
  }

  /** The nine regions; they partition the square, and none is empty exactly from side four on. */
  method RList(r: Rectangle) returns (ra: array<Rectangle>)
    requires r.Canonical()
    ensures ra.Length == 9 && forall i :: 0 <= i < 9 ==> ra[i] == Cell(r, i)
    ensures forall p, i :: 0 <= i < 9 && ra[i].Has(p) ==> r.Has(p)
    ensures forall p :: r.Has(p) ==> exists i :: 0 <= i < 9 && ra[i].Has(p)
    ensures forall p, i, j :: 0 <= i < j < 9 && ra[i].Has(p) ==> !ra[j].Has(p)
    ensures (forall i :: 0 <= i < 9 ==> ra[i].Dx() > 0 && ra[i].Dy() > 0) <==> r.Dx() >= 4 && r.Dy() >= 4
  {
    ra := Cells(r);
    CellsNonEmpty(r);
    hide Cell, Band;
    forall p, i: nat | i < 9
      ensures Cell(r, i).Has(p) <==> r.Has(p) && i == 3 * Band(r.min.y, r.max.y, p.y) + Band(r.min.x, r.max.x, p.x)
    {
      CellExact(r, p, i);
    }
    forall p | r.Has(p) ensures exists i :: 0 <= i < 9 && ra[i].Has(p) {
      assert ra[3 * Band(r.min.y, r.max.y, p.y) + Band(r.min.x, r.max.x, p.x)].Has(p);
    }
  }

  method Cells(r: Rectangle) returns (ra: array<Rectangle>)
    requires r.Canonical()
    ensures fresh(ra) && ra.Length == 9 && forall i :: 0 <= i < 9 ==> ra[i] == Cell(r, i)
  {
    ra := new Rectangle[9](_ => r);
    var y := r.Dy() / 4;
    Row(ra, 0, Rect(r.min.x, r.min.y, r.max.x, r.min.y + y));
    Row(ra, 3, Rect(r.min.x, r.min.y + y, r.max.x, r.max.y - y));
    Row(ra, 6, Rect(r.min.x, r.max.y - y, r.max.x, r.max.y));
  }

  lemma CellsNonEmpty(r: Rectangle)
    requires r.Canonical()
    ensures (forall i :: 0 <= i < 9 ==> Cell(r, i).Dx() > 0 && Cell(r, i).Dy() > 0) <==> r.Dx() >= 4 && r.Dy() >= 4
  {
    assert Cell(r, 0).Dx() == r.Dx() / 4 && Cell(r, 0).Dy() == r.Dy() / 4;
  }

  /** Three regions side by side. */
  method Row(ra: array<Rectangle>, at: nat, tr: Rectangle)
    requires at + 3 <= ra.Length && tr.Canonical()
    modifies ra
    ensures forall i :: 0 <= i < ra.Length && !(at <= i < at + 3) ==> ra[i] == old(ra[i])
    ensures var x := tr.Dx() / 4;
            && ra[at] == tr.(max := tr.max.(x := tr.min.x + x))
            && ra[at + 1] == Rect(tr.min.x + x, tr.min.y, tr.max.x - x, tr.max.y)
            && ra[at + 2] == tr.(min := tr.min.(x := tr.max.x - x))
  {
    ra[at] := tr.(max := tr.max.(x := tr.min.x + tr.Dx() / 4));
    ra[at + 1] := Rect(ra[at].max.x, tr.min.y, tr.max.x - tr.Dx() / 4, tr.max.y);
    ra[at + 2] := tr.(min := tr.min.(x := ra[at + 1].max.x));
  }
}
