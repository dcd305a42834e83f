/** The image operations the extractor chains onto its ImageMagick builder
    (crop, rotate with a fill colour, gravity-anchored extent), kept as values,
    together with an abstract semantics: what each operation does to the size
    of the canvas and to the position of the cropped sprite inside it.
    Pixels are not modelled. */
module Images {

  /** Anchor of an `extent`: the edge the existing image is kept against. */
  datatype Gravity = North | South | East | West

  /** Fill colour for the area an operation exposes; the extractor only ever
      asks for transparency. */
  datatype Color = Transparent

  datatype Op =
    | Crop(w: int, h: int, x: int, y: int)
    | Rotate(background: Color, degrees: int)
    | Extent(gravity: Gravity, background: Color, w: int, h: int)

  /** A rectangle in canvas coordinates. */
  datatype Box = Box(x: int, y: int, w: int, h: int)

  /** The abstract image: its canvas size and where the cropped sprite lies. */
  datatype Canvas = Canvas(width: int, height: int, content: Box)

  /** Rotations are given a geometry only for quarter turns. */
  predicate Supported(op: Op)
  {
    op.Rotate? ==> op.degrees % 90 == 0
  }

  predicate AllSupported(ops: seq<Op>)
  {
    forall i :: 0 <= i < |ops| ==> Supported(ops[i])
  }

  /** Every crop and every extent of the chain asks for a strictly positive
      width and height. Only for such chains is the semantics below exact:
      ImageMagick reads a size of 0 as "keep the image's own dimension", and a
      negative size is no image geometry at all. */
  predicate PositiveSizes(ops: seq<Op>)
  {
    forall i :: 0 <= i < |ops| ==> (ops[i].Crop? || ops[i].Extent?) ==> 0 < ops[i].w && 0 < ops[i].h
  }

  /** Half of a signed difference, rounded toward zero: the centring offset
      on the axis an edge gravity does not name. */
  function Half(d: int): int
  {
    if d >= 0 then d / 2 else -((-d) / 2)
  }

  /** A rotation by a multiple of 90 degrees; positive angles turn clockwise. */
  function Turn(c: Canvas, degrees: int): (r: Canvas)
    requires degrees % 90 == 0
    ensures degrees % 180 == 0 ==> r.width == c.width && r.height == c.height
    ensures degrees % 180 != 0 ==> r.width == c.height && r.height == c.width
    ensures degrees % 180 == 0 ==> r.content.w == c.content.w && r.content.h == c.content.h
    ensures degrees % 180 != 0 ==> r.content.w == c.content.h && r.content.h == c.content.w
  {
    var b := c.content;
    var q := degrees % 360;
    if q == 0 then c
    else if q == 90 then Canvas(c.height, c.width, Box(c.height - b.y - b.h, b.x, b.h, b.w))
    else if q == 180 then Canvas(c.width, c.height, Box(c.width - b.x - b.w, c.height - b.y - b.h, b.w, b.h))
    else Canvas(c.height, c.width, Box(b.y, c.width - b.x - b.w, b.h, b.w))
  }

  /** `extent` to w x h: the canvas takes the target size and the existing
      image keeps its distance to the gravity edge. */
  function Place(c: Canvas, g: Gravity, w: int, h: int): (r: Canvas)
    ensures r.width == w && r.height == h
    ensures r.content.w == c.content.w && r.content.h == c.content.h
    ensures g == East ==> r.width - r.content.x == c.width - c.content.x
    ensures g == West ==> r.content.x == c.content.x
    ensures g == South ==> r.height - r.content.y == c.height - c.content.y
    ensures g == North ==> r.content.y == c.content.y
    ensures (g == East || g == West) && h == c.height ==> r.content.y == c.content.y
    ensures (g == North || g == South) && w == c.width ==> r.content.x == c.content.x
  {
    var dx := match g
      case East => w - c.width
      case West => 0
      case _ => Half(w - c.width);
    var dy := match g
      case South => h - c.height
      case North => 0
      case _ => Half(h - c.height);
    Canvas(w, h, Box(c.content.x + dx, c.content.y + dy, c.content.w, c.content.h))
  }

  /** The effect of one operation. A crop starts a fresh image whose content
      is the cropped rectangle. */
  function Step(c: Canvas, op: Op): Canvas
    requires Supported(op)
  {
    match op
    case Crop(w, h, _, _) => Canvas(w, h, Box(0, 0, w, h))
    case Rotate(_, degrees) => Turn(c, degrees)
    case Extent(g, _, w, h) => Place(c, g, w, h)
  }

  /** The effect of a chain of operations, applied first to last. */
  function Run(c: Canvas, ops: seq<Op>): Canvas
    requires AllSupported(ops)
    decreases |ops|
  {
    if ops == [] then c else Run(Step(c, ops[0]), ops[1..])
  }

  /** Running two chains one after the other is running their concatenation. */
  lemma {:induction false} RunAppend(c: Canvas, a: seq<Op>, b: seq<Op>)
    requires AllSupported(a) && AllSupported(b)
    ensures AllSupported(a + b)
    ensures Run(c, a + b) == Run(Run(c, a), b)
    decreases |a|
  {
    if a == [] {
      assert a + b == b;
    } else {
      assert (a + b)[1..] == a[1..] + b;
      RunAppend(Step(c, a[0]), a[1..], b);
    }
  }

  /** The sprite lies wholly inside the canvas. */
  predicate Inside(c: Canvas)
  {
    && 0 <= c.content.x && c.content.x + c.content.w <= c.width
    && 0 <= c.content.y && c.content.y + c.content.h <= c.height
  }

  /** An extent whose target is no smaller than the current canvas only pads. */
  predicate Grows(c: Canvas, op: Op)
  {
    op.Extent? ==> c.width <= op.w && c.height <= op.h
  }

  /** Every extent of the chain only pads the canvas it is applied to. */
  predicate OnlyGrows(c: Canvas, ops: seq<Op>)
    requires AllSupported(ops)
    decreases |ops|
  {
    ops == [] || (Grows(c, ops[0]) && OnlyGrows(Step(c, ops[0]), ops[1..]))
  }

  lemma {:induction false} OnlyGrowsAppend(c: Canvas, a: seq<Op>, b: seq<Op>)
    requires AllSupported(a) && AllSupported(b)
    ensures AllSupported(a + b)
    ensures OnlyGrows(c, a + b) <==> OnlyGrows(c, a) && OnlyGrows(Run(c, a), b)
    decreases |a|
  {
    if a == [] {
      assert a + b == b;
    } else {
      assert (a + b)[1..] == a[1..] + b;
      OnlyGrowsAppend(Step(c, a[0]), a[1..], b);
    }
  }

  /** A chain whose extents only pad never pushes the sprite off the canvas:
      crops reframe it, quarter turns carry it along, pads keep it whole. The
      sprite is inside the canvas after every step, not just at the end. */
  lemma {:induction false} GrowingKeepsInside(c: Canvas, ops: seq<Op>)
    requires AllSupported(ops) && Inside(c) && OnlyGrows(c, ops)
    ensures Inside(Run(c, ops))
    ensures forall k :: 0 <= k <= |ops| ==> Inside(Run(c, ops[..k]))
    decreases |ops|
  {
    if ops == [] {
      assert ops[..0] == [];
    } else {
      var op := ops[0];
      var next := Step(c, op);
      assert Supported(op);
      assert Inside(next) by {
        if op.Extent? {
          assert 0 <= Half(op.w - c.width) <= op.w - c.width;
          assert 0 <= Half(op.h - c.height) <= op.h - c.height;
        }
      }
      GrowingKeepsInside(next, ops[1..]);
      forall k | 0 <= k <= |ops|
        ensures Inside(Run(c, ops[..k]))
      {
        if k == 0 {
          assert ops[..k] == [];
        } else {
          assert ops[..k][1..] == ops[1..][..k - 1];
          assert Run(c, ops[..k]) == Run(next, ops[1..][..k - 1]);
        }
      }
    }
  }
}
