/** Pixels of a picture, and which of them a fill started at a seed can reach. */
module PixelGraph {

  datatype Pt = Pt(x: int, y: int)

  /** The clipped destination rectangle moved to the origin, and the colour at the seed. */
  datatype Picture = Picture(w: nat, h: nat, rows: seq<seq<int>>, colour: int) {
    predicate Valid() {
      |rows| == h && forall y :: 0 <= y < h ==> |rows[y]| == w
    }

    predicate Inside(p: Pt) {
      0 <= p.x < w && 0 <= p.y < h
    }

    predicate Match(p: Pt)
      requires Valid()
    {
      Inside(p) && rows[p.y][p.x] == colour
    }

    ghost function Matching(): (s: set<Pt>)
      requires Valid()
      ensures forall p :: p in s <==> Match(p)
    {
      set x, y | 0 <= x < w && 0 <= y < h && Match(Pt(x, y)) :: Pt(x, y)
    }
  }

  predicate Four(a: Pt, b: Pt) {
    (a.y == b.y && (b.x == a.x - 1 || b.x == a.x + 1)) || (a.x == b.x && (b.y == a.y - 1 || b.y == a.y + 1))
  }

  /** One column to the right and one row up or down. */
  predicate RightDiagonal(a: Pt, b: Pt) {
    b.x == a.x + 1 && (b.y == a.y - 1 || b.y == a.y + 1)
  }

  predicate Eight(a: Pt, b: Pt) {
    a != b && -1 <= a.x - b.x <= 1 && -1 <= a.y - b.y <= 1
  }

  predicate FillStep(a: Pt, b: Pt) {
    Four(a, b) || RightDiagonal(a, b)
  }

  type Neighbours = (Pt, Pt) -> bool

  /** A walk over matching pixels. */
  ghost predicate Walk(pic: Picture, next: Neighbours, path: seq<Pt>)
    requires pic.Valid()
  {
    && path != []
    && (forall k :: 0 <= k < |path| ==> pic.Match(path[k]))
    && (forall k :: 0 <= k < |path| - 1 ==> next(path[k], path[k + 1]))
  }

  ghost predicate Reach(pic: Picture, next: Neighbours, seed: Pt, p: Pt)
    requires pic.Valid()
  {
    exists path :: Walk(pic, next, path) && path[0] == seed && path[|path| - 1] == p
  }

  lemma ReachSeed(pic: Picture, next: Neighbours, seed: Pt)
    requires pic.Valid() && pic.Match(seed)
    ensures Reach(pic, next, seed, seed)
  {
    assert Walk(pic, next, [seed]);
  }

  lemma ReachNext(pic: Picture, next: Neighbours, seed: Pt, a: Pt, b: Pt)
    requires pic.Valid() && Reach(pic, next, seed, a) && pic.Match(b) && next(a, b)
    ensures Reach(pic, next, seed, b)
  {
    var path :| Walk(pic, next, path) && path[0] == seed && path[|path| - 1] == a;
    assert Walk(pic, next, path + [b]);
  }

  /** A set that holds the seed and every matching neighbour of its members holds all that is reachable. */
  ghost predicate Closed(pic: Picture, next: Neighbours, s: set<Pt>)
    requires pic.Valid()
  {
    forall a, b :: a in s && pic.Match(b) && next(a, b) ==> b in s
  }

  lemma ClosedHoldsReach(pic: Picture, next: Neighbours, seed: Pt, s: set<Pt>, p: Pt)
    requires pic.Valid() && seed in s && Closed(pic, next, s) && Reach(pic, next, seed, p)
    ensures p in s
  {
    var path :| Walk(pic, next, path) && path[0] == seed && path[|path| - 1] == p;
    WalkStays(pic, next, path, s);
  }

  lemma {:induction false} WalkStays(pic: Picture, next: Neighbours, path: seq<Pt>, s: set<Pt>)
    requires pic.Valid() && Walk(pic, next, path) && path[0] in s && Closed(pic, next, s)
    ensures path[|path| - 1] in s
    decreases path
  {
    if |path| > 1 {
      assert next(path[0], path[1]);
      WalkStays(pic, next, path[1..], s);
    }
  }

  /** More neighbours reach more. */
  lemma ReachMonotone(pic: Picture, fewer: Neighbours, more: Neighbours, seed: Pt, p: Pt)
    requires pic.Valid() && Reach(pic, fewer, seed, p)
    requires forall a, b :: fewer(a, b) ==> more(a, b)
    ensures Reach(pic, more, seed, p)
  {
    var path :| Walk(pic, fewer, path) && path[0] == seed && path[|path| - 1] == p;
    assert Walk(pic, more, path);
  }
}
