/**
 Paint's flood fill: a recursive scan-line fill over a packed bit mask, with the last
 scan line cached. The fill marks exactly the pixels that walks over the four
 neighbours and the two right-hand diagonals reach from the seed.
 */
module FloodFill {
  import opened PixelGraph

  // ----- the packed mask -----

  function BitMask(i: nat): bv8
    requires i < 8
  {
    match i
    case 0 => 0x80 case 1 => 0x40 case 2 => 0x20 case 3 => 0x10
    case 4 => 0x08 case 5 => 0x04 case 6 => 0x02 case 7 => 0x01
  }

  predicate Common(b: bv8, m: bv8) {
    b & m != 0
  }

  function Or(b: bv8, m: bv8): bv8 {
    b | m
  }

  predicate TestBit(b: bv8, i: nat)
    requires i < 8
  {
    Common(b, BitMask(i))
  }

  lemma SetOneBit(b: bv8, i: nat, j: nat)
    requires i < 8 && j < 8
    ensures TestBit(Or(b, BitMask(i)), j) <==> (i == j || TestBit(b, j))
  {
    hide BitMask, Common, Or;
    MasksApart(i, j);
    OrMask(b, BitMask(i), BitMask(j));
  }

  lemma OrMask(b: bv8, m: bv8, n: bv8)
    ensures Common(Or(b, m), n) <==> Common(m, n) || Common(b, n)
  {
    assert (b | m) & n == (b & n) | (m & n);
  }

  lemma MasksApart(i: nat, j: nat)
    requires i < 8 && j < 8
    ensures Common(BitMask(i), BitMask(j)) <==> i == j
  {
    match i
    case 0 => case 1 => case 2 => case 3 => case 4 => case 5 => case 6 => case 7 =>
  }

  lemma NoBits(i: nat)
    requires i < 8
    ensures !TestBit(0, i)
  {
    AndZero(BitMask(i));
  }

  lemma AndZero(m: bv8)
    ensures 0 & m == 0
  {
  }

  /** Rows of the mask do not overlap. */
  lemma RowsApart(y: int, a: int, y': int, a': int, width: int)
    requires 0 <= a < width && 0 <= a' < width
    ensures y * width + a == y' * width + a' <==> y == y' && a == a'
  {
    if y != y' {
      var d := if y < y' then y' - y else y - y';
      MulAtLeast(d, width);
      assert d * width == if y < y' then y' * width - y * width else y * width - y' * width;
    }
  }

  lemma MulAtLeast(d: int, width: int)
    requires d >= 1 && width >= 0
    ensures d * width >= width
  {
  }

  lemma RowFits(y: int, a: int, h: int, width: int)
    requires 0 <= a < width && 0 <= y < h
    ensures 0 <= y * width + a < width * h
  {
    MulAtLeast(h - y, width);
    assert (h - y) * width == h * width - y * width;
  }

  class Mask {
    const w: nat
    const h: nat
    const width: nat
    const bits: array<bv8>
    ghost var marks: set<Pt>

    ghost predicate Valid()
      reads this, bits
    {
      && width == (w + 7) / 8 && bits.Length == width * h
      && (forall p :: p in marks ==> 0 <= p.x < w && 0 <= p.y < h)
      && forall x, y :: 0 <= x < w && 0 <= y < h ==> Stored(x, y) == (Pt(x, y) in marks)
    }

    ghost predicate Stored(x: int, y: int)
      requires 0 <= x < w && 0 <= y < h && width == (w + 7) / 8 && bits.Length == width * h
      reads bits
    {
      RowFits(y, x / 8, h, width);
      TestBit(bits[y * width + x / 8], x % 8)
    }

    constructor (w: nat, h: nat)
      ensures Valid() && fresh(bits) && marks == {} && this.w == w && this.h == h
    {
      this.w := w;
      this.h := h;
      width := (w + 7) / 8;
      assert (w + 7) / 8 * h >= 0;
      bits := new bv8[(w + 7) / 8 * h](_ => 0);
      marks := {};
      new;
      forall x, y | 0 <= x < w && 0 <= y < h
        ensures !Stored(x, y)
      {
        RowFits(y, x / 8, h, this.width);
        NoBits(x % 8);
      }
    }

    method Get(x: int, y: int) returns (on: bool)
      requires Valid() && 0 <= x < w && 0 <= y < h
      ensures on == (Pt(x, y) in marks)
    {
      RowFits(y, x / 8, h, width);
      on := Common(bits[y * width + x / 8], BitMask(x % 8));
      assert on == Stored(x, y);
    }

    /** A line drawn in ink through row `y` of the mask. */
    method Painted(y: int, line: seq<int>, ink: int) returns (out: seq<int>)
      requires Valid() && 0 <= y < h && |line| == w
      ensures |out| == w
      ensures forall x :: 0 <= x < w ==> out[x] == if Pt(x, y) in marks then ink else line[x]
    {
      hide Valid;
      out := [];
      for x := 0 to w
        invariant |out| == x
        invariant forall k :: 0 <= k < x ==> out[k] == if Pt(k, y) in marks then ink else line[k]
      {
        var on := Get(x, y);
        out := out + [if on then ink else line[x]];
      }
    }

    method Set(x: int, y: int)
      requires Valid() && 0 <= x < w && 0 <= y < h
      modifies this, bits
      ensures Valid() && marks == old(marks) + {Pt(x, y)}
    {
      RowFits(y, x / 8, h, width);
      var i := y * width + x / 8;
      bits[i] := Or(bits[i], BitMask(x % 8));
      marks := marks + {Pt(x, y)};
      forall x', y' | 0 <= x' < w && 0 <= y' < h
        ensures Stored(x', y') == (Pt(x', y') in marks)
      {
        RowFits(y', x' / 8, h, width);
        RowsApart(y, x / 8, y', x' / 8, width);
        SetOneBit(old(bits[i]), x % 8, x' % 8);
        assert old(Stored(x', y')) == (Pt(x', y') in old(marks));
      }
    }
  }

  // ----- what holds between calls -----

  ghost predicate Reached(pic: Picture, seed: Pt, p: Pt)
    requires pic.Valid()
  {
    Reach(pic, FillStep, seed, p)
  }

  /** Every mark is a matching pixel that the fill may reach. */
  ghost predicate Sound(pic: Picture, seed: Pt, marks: set<Pt>)
    requires pic.Valid()
  {
    forall p :: p in marks ==> pic.Match(p) && Reached(pic, seed, p)
  }

  /** A marked pixel's matching neighbours in the same row are marked. */
  ghost predicate RowClosed(pic: Picture, marks: set<Pt>)
    requires pic.Valid()
  {
    forall p :: p in marks ==> Beside(pic, marks, p)
  }

  ghost predicate Beside(pic: Picture, marks: set<Pt>, p: Pt)
    requires pic.Valid()
  {
    && (pic.Match(Pt(p.x - 1, p.y)) ==> Pt(p.x - 1, p.y) in marks)
    && (pic.Match(Pt(p.x + 1, p.y)) ==> Pt(p.x + 1, p.y) in marks)
  }

  /** The pixel in row `y` at column `x`, or else the one to its right, is not left out. */
  ghost predicate Served(pic: Picture, marks: set<Pt>, x: int, y: int)
    requires pic.Valid()
  {
    && (pic.Match(Pt(x, y)) ==> Pt(x, y) in marks)
    && (pic.Match(Pt(x + 1, y)) ==> Pt(x + 1, y) in marks)
  }

  /** All steps from `p` lead to marks. */
  ghost predicate Finished(pic: Picture, marks: set<Pt>, p: Pt)
    requires pic.Valid()
  {
    Beside(pic, marks, p) && Served(pic, marks, p.x, p.y - 1) && Served(pic, marks, p.x, p.y + 1)
  }

  /** What a call has added is finished. */
  ghost predicate Added(pic: Picture, before: set<Pt>, marks: set<Pt>)
    requires pic.Valid()
  {
    before <= marks && forall p :: p in marks && p !in before ==> Finished(pic, marks, p)
  }

  lemma AddedTransitive(pic: Picture, a: set<Pt>, b: set<Pt>, c: set<Pt>)
    requires pic.Valid() && Added(pic, a, b) && Added(pic, b, c)
    ensures Added(pic, a, c)
  {
  }

  /** The columns strictly between `lo` and `hi` are served in row `y`. */
  ghost predicate ServedRun(pic: Picture, marks: set<Pt>, lo: int, hi: int, y: int)
    requires pic.Valid()
  {
    forall k :: lo < k < hi ==> Served(pic, marks, k, y)
  }

  lemma ServedRunJoin(pic: Picture, marks: set<Pt>, lo: int, mid: int, hi: int, y: int)
    requires pic.Valid() && ServedRun(pic, marks, lo, mid, y) && lo < mid && ServedRun(pic, marks, mid - 1, hi, y)
    ensures ServedRun(pic, marks, lo, hi, y)
  {
    hide Served;
  }

  lemma ServedRunMonotone(pic: Picture, a: set<Pt>, b: set<Pt>, lo: int, hi: int, y: int)
    requires pic.Valid() && a <= b && ServedRun(pic, a, lo, hi, y)
    ensures ServedRun(pic, b, lo, hi, y)
  {
    hide Picture.Match;
    forall k | lo < k < hi
      ensures Served(pic, b, k, y)
    {
      assert Served(pic, a, k, y);
    }
  }

  lemma ReachedSeed(pic: Picture, seed: Pt)
    requires pic.Valid() && pic.Match(seed)
    ensures Reached(pic, seed, seed)
  {
    ReachSeed(pic, FillStep, seed);
  }

  lemma ReachedNext(pic: Picture, seed: Pt, a: Pt, b: Pt)
    requires pic.Valid() && Reached(pic, seed, a) && pic.Match(b) && FillStep(a, b)
    ensures Reached(pic, seed, b)
  {
    ReachNext(pic, FillStep, seed, a, b);
  }

  /** Where a call may start: at a reachable pixel, or left of one. */
  ghost predicate MayStart(pic: Picture, seed: Pt, p: Pt)
    requires pic.Valid()
  {
    if pic.Match(p) then Reached(pic, seed, p)
    else pic.Match(Pt(p.x + 1, p.y)) ==> Reached(pic, seed, Pt(p.x + 1, p.y))
  }

  lemma MayStartAbove(pic: Picture, seed: Pt, p: Pt, y: int)
    requires pic.Valid() && Reached(pic, seed, p) && (y == p.y - 1 || y == p.y + 1)
    ensures MayStart(pic, seed, Pt(p.x, y))
  {
    var q := Pt(p.x, y);
    var r := Pt(p.x + 1, y);
    if pic.Match(q) {
      ReachedNext(pic, seed, p, q);
    } else if pic.Match(r) {
      ReachedNext(pic, seed, p, r);
    }
  }

  /** The pixels strictly between columns `lo` and `hi` of row `y`. */
  ghost function Run(lo: int, hi: int, y: int): (s: set<Pt>)
    ensures forall p :: p in s <==> p.y == y && lo < p.x < hi
  {
    set x | lo < x < hi :: Pt(x, y)
  }

  /** A run with one more pixel at either end. */
  lemma RunGrows(m: set<Pt>, lo: int, hi: int, y: int)
    requires lo < hi
    ensures m + Run(lo, hi + 1, y) == m + Run(lo, hi, y) + {Pt(hi, y)}
    ensures m + Run(lo - 1, hi, y) == m + Run(lo, hi, y) + {Pt(lo, y)}
  {
  }

  lemma NoRun(m: set<Pt>, x: int, y: int)
    ensures m + Run(x, x + 1, y) == m
  {
  }

  /** Matching pixels that the fill may reach, strictly between two columns. */
  ghost predicate Reachable(pic: Picture, seed: Pt, lo: int, hi: int, y: int)
    requires pic.Valid()
  {
    forall k :: lo < k < hi ==> pic.Match(Pt(k, y)) && Reached(pic, seed, Pt(k, y))
  }

  /** Adding a maximal run of reachable pixels keeps the marks sound and closed along rows. */
  lemma RunKeeps(pic: Picture, seed: Pt, marks: set<Pt>, lo: int, hi: int, y: int)
    requires pic.Valid() && Sound(pic, seed, marks) && RowClosed(pic, marks)
    requires forall k :: lo < k < hi ==> pic.Match(Pt(k, y)) && Reached(pic, seed, Pt(k, y))
    requires !pic.Match(Pt(lo, y)) && !pic.Match(Pt(hi, y))
    ensures Sound(pic, seed, marks + Run(lo, hi, y)) && RowClosed(pic, marks + Run(lo, hi, y))
  {
    hide Reached, Picture.Match;
    var all := marks + Run(lo, hi, y);
    assert Sound(pic, seed, all) by {
      forall p | p in all && p !in marks
        ensures pic.Match(p) && Reached(pic, seed, p)
      {
        assert p == Pt(p.x, y);
      }
    }
    forall p | p in all
      ensures Beside(pic, all, p)
    {
      if p in marks {
        assert Beside(pic, marks, p);
      } else {
        RunBeside(pic, all, lo, hi, p);
      }
    }
  }

  lemma RunBeside(pic: Picture, all: set<Pt>, lo: int, hi: int, p: Pt)
    requires pic.Valid() && lo < p.x < hi && Run(lo, hi, p.y) <= all
    requires !pic.Match(Pt(lo, p.y)) && !pic.Match(Pt(hi, p.y))
    ensures Beside(pic, all, p)
  {
    hide Picture.Match;
    if p.x - 1 != lo {
      assert Pt(p.x - 1, p.y) in Run(lo, hi, p.y);
    }
    if p.x + 1 != hi {
      assert Pt(p.x + 1, p.y) in Run(lo, hi, p.y);
    }
  }

  // ----- the fill -----

  class Fill {
    const pic: Picture
    const seed: Pt
    const mask: Mask
    var yscan: int
    var bscan: seq<int>

    ghost predicate Valid()
      reads this, mask, mask.bits
    {
      && pic.Valid() && mask.w == pic.w && mask.h == pic.h && mask.Valid()
      && Sound(pic, seed, mask.marks) && RowClosed(pic, mask.marks)
      && (yscan == -1 || (0 <= yscan < pic.h && bscan == pic.rows[yscan]))
    }

    /** Matching pixels that are still unmarked. */
    ghost function Todo(): set<Pt>
      requires pic.Valid()
      reads mask
    {
      pic.Matching() - mask.marks
    }

    constructor (pic: Picture, seed: Pt)
      requires pic.Valid() && pic.Match(seed)
      ensures Valid() && this.pic == pic && this.seed == seed && mask.marks == {} && fresh(mask) && fresh(mask.bits)
    {
      this.pic := pic;
      this.seed := seed;
      mask := new Mask(pic.w, pic.h);
      yscan := -1;
      bscan := [];
    }

    method MarkLeft(p: Pt) returns (lo: int)
      requires Valid() && pic.Inside(p) && yscan == p.y && (pic.Match(p) ==> Reached(pic, seed, p))
      modifies mask, mask.bits
      ensures mask.Valid() && -1 <= lo <= p.x && !pic.Match(Pt(lo, p.y))
      ensures mask.marks == old(mask.marks) + Run(lo, p.x + 1, p.y)
      ensures Reachable(pic, seed, lo, p.x + 1, p.y)
    {
      hide Reached, Mask.Valid, RowClosed, Sound, Run;
      lo := p.x;
      NoRun(mask.marks, p.x, p.y);
      while lo >= 0 && bscan[lo] == pic.colour
        invariant -1 <= lo <= p.x && mask.Valid()
        invariant mask.marks == old(mask.marks) + Run(lo, p.x + 1, p.y)
        invariant Reachable(pic, seed, lo, p.x + 1, p.y)
      {
        RunGrows(old(mask.marks), lo, p.x + 1, p.y);
        if lo < p.x {
          ReachedNext(pic, seed, Pt(lo + 1, p.y), Pt(lo, p.y));
        }
        mask.Set(lo, p.y);
        lo := lo - 1;
      }
    }

    method MarkRight(p: Pt, ghost lo: int) returns (hi: int)
      requires pic.Valid() && mask.w == pic.w && mask.h == pic.h && mask.Valid()
      requires pic.Inside(p) && yscan == p.y && bscan == pic.rows[p.y]
      requires -1 <= lo <= p.x && MayStart(pic, seed, p) && (if pic.Match(p) then lo < p.x else lo == p.x)
      requires Reachable(pic, seed, lo, p.x + 1, p.y)
      modifies mask, mask.bits
      ensures mask.Valid() && p.x < hi <= pic.w && !pic.Match(Pt(hi, p.y))
      ensures mask.marks == old(mask.marks) + Run(p.x, hi, p.y)
      ensures Reachable(pic, seed, lo, hi, p.y)
    {
      hide Reached, Mask.Valid, RowClosed, Sound, Run;
      hi := p.x + 1;
      NoRun(mask.marks, p.x, p.y);
      while hi < pic.w && bscan[hi] == pic.colour
        invariant p.x < hi <= pic.w && mask.Valid()
        invariant mask.marks == old(mask.marks) + Run(p.x, hi, p.y)
        invariant Reachable(pic, seed, lo, hi, p.y)
      {
        RunGrows(old(mask.marks), p.x, hi, p.y);
        assert Reached(pic, seed, Pt(hi, p.y)) by {
          if lo < hi - 1 {
            ReachedNext(pic, seed, Pt(hi - 1, p.y), Pt(hi, p.y));
          }
        }
        mask.Set(hi, p.y);
        hi := hi + 1;
      }
    }

    /** The two marking loops; the scan line must be the one of row `p.y`. */
    method MarkRun(p: Pt) returns (ghost lo: int, ghost hi: int)
      requires Valid() && pic.Inside(p) && yscan == p.y && MayStart(pic, seed, p)
      modifies mask, mask.bits
      ensures Valid()
      ensures -1 <= lo <= p.x < hi <= pic.w
      ensures mask.marks == old(mask.marks) + Run(lo, hi, p.y)
      ensures !pic.Match(Pt(lo, p.y)) && !pic.Match(Pt(hi, p.y))
      ensures if pic.Match(p) then lo < p.x else lo == p.x
    {
      hide Reached, Mask.Valid, Sound, RowClosed;
      var l := MarkLeft(p);
      var h := MarkRight(p, l);
      lo, hi := l, h;
      assert mask.marks == old(mask.marks) + Run(lo, hi, p.y);
      RunKeeps(pic, seed, old(mask.marks), lo, hi, p.y);
    }

    /**
     One call of `fillscan`. It terminates because a call at a matching pixel marks it,
     while a call at any other pixel recurses only further to the right.
     */
    method FillScan(p: Pt)
      requires Valid() && pic.Inside(p) && MayStart(pic, seed, p)
      modifies this`yscan, this`bscan, mask, mask.bits
      ensures Valid()
      ensures Added(pic, old(mask.marks), mask.marks)
      ensures Served(pic, mask.marks, p.x, p.y)
      decreases Todo(), pic.w - p.x, 2
    {
      hide Mask.Valid, Reached, Served, Finished, Beside, Added, ServedRun, MayStart;
      var marked := mask.Get(p.x, p.y);
      if marked {
        NothingAdded(pic, mask.marks, p);
        return;
      }
      if yscan != p.y {
        bscan := pic.rows[p.y];
        yscan := p.y;
      }
      ghost var m0, todo := mask.marks, Todo();
      ghost var lo, hi := MarkRun(p);
      ghost var m1 := mask.marks;
      assert Run(lo, hi, p.y) <= m1;
      assert pic.Match(p) ==> p in todo && p !in Todo();
      NothingAdded(pic, m1, p);
      if p.y - 1 >= 0 {
        VisitRow(p, p.y - 1, lo, hi, todo);
      }
      ghost var m2 := mask.marks;
      GrownBy(pic, m1, m2);
      NothingAdded(pic, m2, p);
      if p.y + 1 < pic.h {
        VisitRow(p, p.y + 1, lo, hi, todo);
      }
      GrownBy(pic, m2, mask.marks);
      RunFinished(pic, m0, m1, m2, mask.marks, lo, hi, p);
      RunServes(pic, mask.marks, lo, hi, p);
    }

    /** The two loops over the marked run of row `p.y`, calling into row `y`. */
    method VisitRow(p: Pt, y: int, ghost lo: int, ghost hi: int, ghost todo: set<Pt>)
      requires Valid() && pic.Inside(p) && 0 <= y < pic.h && (y == p.y - 1 || y == p.y + 1)
      requires -1 <= lo <= p.x < hi <= pic.w && Run(lo, hi, p.y) <= mask.marks
      requires !pic.Match(Pt(lo, p.y)) && !pic.Match(Pt(hi, p.y))
      requires if pic.Match(p) then lo < p.x && Todo() < todo else lo == p.x && Todo() <= todo
      modifies this`yscan, this`bscan, mask, mask.bits
      ensures Valid()
      ensures Added(pic, old(mask.marks), mask.marks)
      ensures ServedRun(pic, mask.marks, lo, hi, y)
      decreases todo, pic.w - p.x, 1
    {
      hide Mask.Valid, Reached, Served, Finished, Beside, MayStart, RowClosed;
      ghost var m0 := mask.marks;
      VisitLeft(p, y, lo, hi, todo);
      ghost var m1 := mask.marks;
      assert Run(lo, hi, p.y) <= m1;
      VisitRight(p, y, lo, hi, todo);
      AddedTransitive(pic, m0, m1, mask.marks);
      ServedRunMonotone(pic, m1, mask.marks, lo, p.x + 1, y);
      ServedRunJoin(pic, mask.marks, lo, p.x + 1, hi, y);
    }

    /** Its pixels from `p` leftwards. */
    method VisitLeft(p: Pt, y: int, ghost lo: int, ghost hi: int, ghost todo: set<Pt>)
      requires Valid() && pic.Inside(p) && 0 <= y < pic.h && (y == p.y - 1 || y == p.y + 1)
      requires -1 <= lo <= p.x < hi <= pic.w && Run(lo, hi, p.y) <= mask.marks
      requires !pic.Match(Pt(lo, p.y)) && !pic.Match(Pt(hi, p.y))
      requires if pic.Match(p) then lo < p.x && Todo() < todo else lo == p.x && Todo() <= todo
      modifies this`yscan, this`bscan, mask, mask.bits
      ensures Valid()
      ensures Added(pic, old(mask.marks), mask.marks)
      ensures ServedRun(pic, mask.marks, lo, p.x + 1, y)
      decreases todo, pic.w - p.x, 0
    {
      hide Mask.Valid, Reached, Served, Finished, Beside, MayStart;
      ghost var m0 := mask.marks;
      var x := p.x;
      while x >= 0
        invariant -1 <= x <= p.x && lo <= x && Valid()
        invariant Added(pic, m0, mask.marks) && Run(lo, hi, p.y) <= mask.marks
        invariant ServedRun(pic, mask.marks, x, p.x + 1, y)
      {
        var marked := mask.Get(x, p.y);
        if !marked {
          break;
        }
        MayStartAbove(pic, seed, Pt(x, p.y), y);
        ghost var before := mask.marks;
        FillScan(Pt(x, y));
        AddedTransitive(pic, m0, before, mask.marks);
        ServedRunMonotone(pic, before, mask.marks, x, p.x + 1, y);
        x := x - 1;
      }
    }

    /** And from `p` rightwards. */
    method VisitRight(p: Pt, y: int, ghost lo: int, ghost hi: int, ghost todo: set<Pt>)
      requires Valid() && pic.Inside(p) && 0 <= y < pic.h && (y == p.y - 1 || y == p.y + 1)
      requires -1 <= lo <= p.x < hi <= pic.w && Run(lo, hi, p.y) <= mask.marks
      requires !pic.Match(Pt(lo, p.y)) && !pic.Match(Pt(hi, p.y))
      requires if pic.Match(p) then lo < p.x && Todo() < todo else lo == p.x && Todo() <= todo
      modifies this`yscan, this`bscan, mask, mask.bits
      ensures Valid()
      ensures Added(pic, old(mask.marks), mask.marks)
      ensures ServedRun(pic, mask.marks, p.x, hi, y)
      decreases todo, pic.w - p.x, 0
    {
      hide Mask.Valid, Reached, Served, Finished, Beside, MayStart;
      ghost var m0 := mask.marks;
      var x := p.x + 1;
      while x < pic.w
        invariant p.x < x <= hi && Valid()
        invariant Added(pic, m0, mask.marks) && Run(lo, hi, p.y) <= mask.marks
        invariant ServedRun(pic, mask.marks, p.x, x, y)
      {
        var marked := mask.Get(x, p.y);
        if !marked {
          break;
        }
        MayStartAbove(pic, seed, Pt(x, p.y), y);
        ghost var before := mask.marks;
        FillScan(Pt(x, y));
        AddedTransitive(pic, m0, before, mask.marks);
        ServedRunMonotone(pic, before, mask.marks, p.x, x, y);
        x := x + 1;
      }
    }
  }

  /** The run a call marked is finished once both rows beside it have been visited. */
  lemma RunFinished(pic: Picture, m0: set<Pt>, m1: set<Pt>, m2: set<Pt>, m3: set<Pt>, lo: int, hi: int, p: Pt)
    requires pic.Valid() && m1 == m0 + Run(lo, hi, p.y) && RowClosed(pic, m3)
    requires Added(pic, m1, m2) && Added(pic, m2, m3)
    requires p.y - 1 >= 0 ==> ServedRun(pic, m2, lo, hi, p.y - 1)
    requires p.y + 1 < pic.h ==> ServedRun(pic, m3, lo, hi, p.y + 1)
    ensures Added(pic, m0, m3)
  {
    hide Picture.Match, Served, Beside, ServedRun;
    AddedTransitive(pic, m1, m2, m3);
    forall q | q in m3 && q !in m0
      ensures Finished(pic, m3, q)
    {
      if q in m1 {
        assert q in Run(lo, hi, p.y);
        assert Served(pic, m3, q.x, p.y - 1) by { ServedAt(pic, m2, m3, lo, hi, q.x, p.y - 1); }
        assert Served(pic, m3, q.x, p.y + 1) by { ServedAt(pic, m3, m3, lo, hi, q.x, p.y + 1); }
      }
    }
  }

  lemma NothingAdded(pic: Picture, marks: set<Pt>, p: Pt)
    requires pic.Valid() && RowClosed(pic, marks)
    ensures Added(pic, marks, marks)
    ensures p in marks ==> Served(pic, marks, p.x, p.y)
  {
    assert p in marks ==> Beside(pic, marks, p);
    assert p == Pt(p.x, p.y);
  }

  lemma GrownBy(pic: Picture, a: set<Pt>, b: set<Pt>)
    requires pic.Valid() && Added(pic, a, b)
    ensures a <= b
  {
  }

  lemma RunServes(pic: Picture, marks: set<Pt>, lo: int, hi: int, p: Pt)
    requires pic.Valid() && Run(lo, hi, p.y) <= marks && p.x < hi && !pic.Match(Pt(hi, p.y))
    requires if pic.Match(p) then lo < p.x else lo == p.x
    ensures Served(pic, marks, p.x, p.y)
  {
    assert p == Pt(p.x, p.y);
    if pic.Match(p) {
      assert p in Run(lo, hi, p.y);
    }
    if p.x + 1 < hi {
      assert Pt(p.x + 1, p.y) in Run(lo, hi, p.y);
    }
  }

  lemma ServedAt(pic: Picture, a: set<Pt>, b: set<Pt>, lo: int, hi: int, x: int, y: int)
    requires pic.Valid() && a <= b && lo < x < hi && (0 <= y < pic.h ==> ServedRun(pic, a, lo, hi, y))
    ensures Served(pic, b, x, y)
  {
    if 0 <= y < pic.h {
      assert Served(pic, a, x, y);
    }
  }

  /** A completed fill has marked exactly the reachable pixels. */
  lemma MarksAreReach(pic: Picture, seed: Pt, marks: set<Pt>)
    requires pic.Valid() && pic.Match(seed)
    requires Sound(pic, seed, marks) && Added(pic, {}, marks) && Served(pic, marks, seed.x, seed.y)
    ensures forall p :: p in marks <==> Reach(pic, FillStep, seed, p)
  {
    assert seed == Pt(seed.x, seed.y);
    assert Closed(pic, FillStep, marks) by {
      forall a, b | a in marks && pic.Match(b) && FillStep(a, b)
        ensures b in marks
      {
        assert Finished(pic, marks, a) && b == Pt(b.x, b.y);
      }
    }
    forall p | Reach(pic, FillStep, seed, p)
      ensures p in marks
    {
      ClosedHoldsReach(pic, FillStep, seed, marks, p);
    }
    assert forall p :: p in marks ==> Reached(pic, seed, p);
  }

  /**
   `floodfill`: the pixels reachable from the seed over pixels of the seed's colour turn
   into ink, and no other pixel changes. A seed outside the rectangle changes nothing.
   */
  method FloodFill(w: nat, h: nat, rows: seq<seq<int>>, seed: Pt, ink: int) returns (out: seq<seq<int>>)
    requires Picture(w, h, rows, 0).Valid()
    ensures Picture(w, h, out, 0).Valid()
    ensures !(0 <= seed.x < w && 0 <= seed.y < h) ==> out == rows
    ensures 0 <= seed.x < w && 0 <= seed.y < h ==>
              var pic := Picture(w, h, rows, rows[seed.y][seed.x]);
              forall x, y :: 0 <= x < w && 0 <= y < h ==>
                out[y][x] == if Reach(pic, FillStep, seed, Pt(x, y)) then ink else rows[y][x]
  {
    hide Mask.Valid, Sound, Added, RowClosed, Served, Reached, Reach;
    if !(0 <= seed.x < w && 0 <= seed.y < h) {
      return rows;
    }
    var pic := Picture(w, h, rows, rows[seed.y][seed.x]);
    var fill := new Fill(pic, seed);
    ReachedSeed(pic, seed);
    fill.FillScan(seed);
    MarksAreReach(pic, seed, fill.mask.marks);
    out := DrawThrough(fill.mask, rows, ink);
  }

  /** Draw ink through the mask. */
  method DrawThrough(mask: Mask, rows: seq<seq<int>>, ink: int) returns (out: seq<seq<int>>)
    requires mask.Valid() && Picture(mask.w, mask.h, rows, 0).Valid()
    ensures Picture(mask.w, mask.h, out, 0).Valid()
    ensures forall x, y :: 0 <= x < mask.w && 0 <= y < mask.h ==>
              out[y][x] == if Pt(x, y) in mask.marks then ink else rows[y][x]
  {
    hide Mask.Valid;
    out := [];
    for y := 0 to mask.h
      invariant |out| == y && forall j :: 0 <= j < y ==> |out[j]| == mask.w
      invariant forall x, j :: 0 <= x < mask.w && 0 <= j < y ==>
                  out[j][x] == if Pt(x, j) in mask.marks then ink else rows[j][x]
    {
      var line := mask.Painted(y, rows[y], ink);
      out := out + [line];
    }
  }

  // ----- how that region relates to the usual ones -----

  /** The filled region lies between the 4-connected and the 8-connected one. */
  lemma Sandwich(pic: Picture, seed: Pt, p: Pt)
    requires pic.Valid()
    ensures Reach(pic, Four, seed, p) ==> Reach(pic, FillStep, seed, p)
    ensures Reach(pic, FillStep, seed, p) ==> Reach(pic, Eight, seed, p)
  {
    if Reach(pic, Four, seed, p) {
      ReachMonotone(pic, Four, FillStep, seed, p);
    }
    if Reach(pic, FillStep, seed, p) {
      ReachMonotone(pic, FillStep, Eight, seed, p);
    }
  }

  /** A right-hand diagonal that leaves the 4-connected region. */
  ghost predicate Leak(pic: Picture, seed: Pt, a: Pt, b: Pt)
    requires pic.Valid()
  {
    Reach(pic, Four, seed, a) && pic.Match(b) && RightDiagonal(a, b) && !Reach(pic, Four, seed, b)
  }

  /** The fill is the 4-connected region if and only if no right-hand diagonal leaks out of it. */
  lemma FourConnectedIffNoLeak(pic: Picture, seed: Pt)
    requires pic.Valid() && pic.Match(seed)
    ensures (forall p :: Reach(pic, FillStep, seed, p) ==> Reach(pic, Four, seed, p))
            <==> (forall a, b :: !Leak(pic, seed, a, b))
  {
    if a, b :| Leak(pic, seed, a, b) {
      Sandwich(pic, seed, a);
      ReachNext(pic, FillStep, seed, a, b);
    } else {
      var region := set p | p in pic.Matching() && Reach(pic, Four, seed, p);
      ReachSeed(pic, Four, seed);
      assert Closed(pic, FillStep, region) by {
        forall a, b | a in region && pic.Match(b) && FillStep(a, b)
          ensures b in region
        {
          if Four(a, b) {
            ReachNext(pic, Four, seed, a, b);
          } else {
            assert !Leak(pic, seed, a, b);
          }
        }
      }
      forall p | Reach(pic, FillStep, seed, p)
        ensures Reach(pic, Four, seed, p)
      {
        ClosedHoldsReach(pic, FillStep, seed, region, p);
      }
    }
  }

  /**
   In a two by two picture with the seed's colour on one diagonal, the fill started at
   the left end takes the right end too, and the other way round it does not.
   */
  lemma DiagonalLeaks()
    ensures var pic := Picture(2, 2, [[1, 0], [0, 1]], 1);
            && pic.Valid()
            && Reach(pic, FillStep, Pt(0, 0), Pt(1, 1)) && !Reach(pic, Four, Pt(0, 0), Pt(1, 1))
            && !Reach(pic, FillStep, Pt(1, 1), Pt(0, 0)) && Reach(pic, Eight, Pt(1, 1), Pt(0, 0))
  {
    var pic := Picture(2, 2, [[1, 0], [0, 1]], 1);
    var l, r := Pt(0, 0), Pt(1, 1);
    assert pic.Valid() && pic.Match(l) && pic.Match(r);
    assert forall p :: pic.Match(p) ==> p == l || p == r;
    assert Walk(pic, FillStep, [l, r]);
    assert Walk(pic, Eight, [r, l]);
    assert Closed(pic, Four, {l}) && Closed(pic, FillStep, {r});
    if Reach(pic, Four, l, r) {
      ClosedHoldsReach(pic, Four, l, {l}, r);
      assert false;
    }
    if Reach(pic, FillStep, r, l) {
      ClosedHoldsReach(pic, FillStep, r, {r}, l);
      assert false;
    }
  }
}
