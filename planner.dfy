/** Per-sprite transform planning: from one frame record of a TexturePacker
    JSON-hash manifest to the chain of image operations that cuts the sprite
    out of the sheet, turns it upright and pads its trimmed borders back. */
module Planner {
  import opened Images

  datatype Rect = Rect(x: int, y: int, w: int, h: int)
  datatype Point = Point(x: int, y: int)
  datatype Size = Size(w: int, h: int)

  /** One entry of the manifest's `frames` map. `frame.w` and `frame.h` are the
      upright sprite size; a rotated sprite occupies `frame.h` x `frame.w` in
      the sheet. Nothing here is validated, as in the extractor. */
  datatype Frame = Frame(
    frame: Rect,
    rotated: bool,
    trimmed: bool,
    spriteSourceSize: Point,
    sourceSize: Size)

  /** The crop of the rectangle the sprite occupies in the sheet. */
  function CropOf(f: Frame): Op
  {
    if f.rotated then Crop(f.frame.h, f.frame.w, f.frame.x, f.frame.y)
    else Crop(f.frame.w, f.frame.h, f.frame.x, f.frame.y)
  }

  /** A rotated sprite is turned back a quarter turn counter-clockwise. */
  function TurnBack(f: Frame): seq<Op>
  {
    if f.rotated then [Rotate(Transparent, -90)] else []
  }

  /** A trimmed sprite gets its borders back, one anchored extent per side. */
  function Pads(f: Frame): seq<Op>
  {
    var w, h := f.frame.w, f.frame.h;
    var src := f.sourceSize;
    var off := f.spriteSourceSize;
    if !f.trimmed then []
    else [ Extent(East, Transparent, w + off.x, h),
           Extent(West, Transparent, src.w, h),
           Extent(South, Transparent, src.w, h + off.y),
           Extent(North, Transparent, src.w, src.h) ]
  }

  /** The whole chain built for one frame. */
  function Plan(f: Frame): (ops: seq<Op>)
    ensures AllSupported(ops)
  {
    [CropOf(f)] + TurnBack(f) + Pads(f)
  }

  /** The trimmed sprite fits inside its original canvas at its recorded offset. */
  predicate FitsSource(f: Frame)
  {
    && 0 <= f.spriteSourceSize.x && f.frame.w + f.spriteSourceSize.x <= f.sourceSize.w
    && 0 <= f.spriteSourceSize.y && f.frame.h + f.spriteSourceSize.y <= f.sourceSize.h
  }

  /** Every crop and extent size of the chain is positive exactly when the
      sprite has a positive size and, if trimmed, every pad target is positive. */
  lemma PositiveSizesIff(f: Frame)
    ensures PositiveSizes(Plan(f)) <==>
      && 0 < f.frame.w && 0 < f.frame.h
      && (f.trimmed ==>
            && 0 < f.frame.w + f.spriteSourceSize.x && 0 < f.frame.h + f.spriteSourceSize.y
            && 0 < f.sourceSize.w && 0 < f.sourceSize.h)
  {
    var p := Plan(f);
    var n := |TurnBack(f)|;
    assert p[0] == CropOf(f);
    if f.trimmed {
      assert p[n + 1] == Extent(East, Transparent, f.frame.w + f.spriteSourceSize.x, f.frame.h);
      assert p[n + 2] == Extent(West, Transparent, f.sourceSize.w, f.frame.h);
      assert p[n + 3] == Extent(South, Transparent, f.sourceSize.w, f.frame.h + f.spriteSourceSize.y);
      assert p[n + 4] == Extent(North, Transparent, f.sourceSize.w, f.sourceSize.h);
    }
  }

  /** A sprite of positive size that fits its original canvas gets a chain
      whose every size is positive. */
  lemma {:induction false} FitsGivesPositiveSizes(f: Frame)
    requires 0 < f.frame.w && 0 < f.frame.h
    requires f.trimmed ==> FitsSource(f)
    ensures PositiveSizes(Plan(f))
  {
    PositiveSizesIff(f);
  }

  /** The extractor's per-item planning: `w` and `h` are reassigned as the
      builder grows, and each builder call appends one operation. */
  method PlanFrame(f: Frame) returns (ops: seq<Op>)
    ensures ops == Plan(f)
  {
    var x, y := f.frame.x, f.frame.y;
    var w, h := f.frame.w, f.frame.h;
    var frameW, frameH := w, h;
    if f.rotated {
      frameW, frameH := h, w;
    }
    ops := [Crop(frameW, frameH, x, y)];
    if f.rotated {
      ops := ops + [Rotate(Transparent, -90)];
    }
    if f.trimmed {
      w := w + f.spriteSourceSize.x;
      ops := ops + [Extent(East, Transparent, w, h)];
      ops := ops + [Extent(West, Transparent, f.sourceSize.w, h)];
      h := h + f.spriteSourceSize.y;
      ops := ops + [Extent(South, Transparent, f.sourceSize.w, h)];
      ops := ops + [Extent(North, Transparent, f.sourceSize.w, f.sourceSize.h)];
    }
  }

  /** The order and the arguments of the chain. */
  lemma PlanShape(f: Frame)
    ensures |Plan(f)| == 1 + (if f.rotated then 1 else 0) + (if f.trimmed then 4 else 0)
    ensures Plan(f)[0] == if f.rotated then Crop(f.frame.h, f.frame.w, f.frame.x, f.frame.y)
                          else Crop(f.frame.w, f.frame.h, f.frame.x, f.frame.y)
    ensures f.rotated <==> |Plan(f)| > 1 && Plan(f)[1] == Rotate(Transparent, -90)
    ensures !f.rotated && !f.trimmed ==> Plan(f) == [Crop(f.frame.w, f.frame.h, f.frame.x, f.frame.y)]
    ensures forall i :: 1 <= i < |Plan(f)| ==> !Plan(f)[i].Crop?
    ensures f.trimmed ==>
      Plan(f)[|Plan(f)| - 4..] ==
        [ Extent(East, Transparent, f.frame.w + f.spriteSourceSize.x, f.frame.h),
          Extent(West, Transparent, f.sourceSize.w, f.frame.h),
          Extent(South, Transparent, f.sourceSize.w, f.frame.h + f.spriteSourceSize.y),
          Extent(North, Transparent, f.sourceSize.w, f.sourceSize.h) ]
  {
  }

  /** After the crop and the optional turn, the image is upright: `frame.w`
      wide, `frame.h` tall, all of it sprite. */
  lemma Upright(c: Canvas, f: Frame)
    ensures AllSupported([CropOf(f)] + TurnBack(f))
    ensures Run(c, [CropOf(f)] + TurnBack(f)) == Canvas(f.frame.w, f.frame.h, Box(0, 0, f.frame.w, f.frame.h))
  {
    var cropped := Step(c, CropOf(f));
    if f.rotated {
      assert ([CropOf(f)] + TurnBack(f))[1..] == TurnBack(f);
      assert Run(cropped, TurnBack(f)) == Run(Step(cropped, TurnBack(f)[0]), []);
    } else {
      assert [CropOf(f)] + TurnBack(f) == [CropOf(f)];
    }
  }

  /** The four pads rebuild the original canvas: starting from the upright
      sprite, the result is `sourceSize` with the sprite at `spriteSourceSize`. */
  lemma PadsRestore(f: Frame)
    requires f.trimmed
    ensures Run(Canvas(f.frame.w, f.frame.h, Box(0, 0, f.frame.w, f.frame.h)), Pads(f))
         == Canvas(f.sourceSize.w, f.sourceSize.h,
                   Box(f.spriteSourceSize.x, f.spriteSourceSize.y, f.frame.w, f.frame.h))
  {
    var p := Pads(f);
    var c0 := Canvas(f.frame.w, f.frame.h, Box(0, 0, f.frame.w, f.frame.h));
    var c1 := Step(c0, p[0]);
    var c2 := Step(c1, p[1]);
    var c3 := Step(c2, p[2]);
    var c4 := Step(c3, p[3]);
    assert p[1..][1..][1..][1..] == [];
    assert Run(c3, p[3..]) == c4;
    assert p[2..][1..] == p[3..];
    assert Run(c2, p[2..]) == c4;
    assert p[1..][1..] == p[2..];
    assert Run(c1, p[1..]) == c4;
  }

  /** The final canvas is `sourceSize` with the sprite at `spriteSourceSize`
      when trimmed, and the bare upright sprite otherwise; the size of the
      sheet the crop starts from plays no part. */
  lemma {:induction false} RestoresSourceCanvas(c: Canvas, f: Frame)
    ensures Run(c, Plan(f)) ==
      if f.trimmed then
        Canvas(f.sourceSize.w, f.sourceSize.h,
               Box(f.spriteSourceSize.x, f.spriteSourceSize.y, f.frame.w, f.frame.h))
      else
        Canvas(f.frame.w, f.frame.h, Box(0, 0, f.frame.w, f.frame.h))
  {
    var head := [CropOf(f)] + TurnBack(f);
    Upright(c, f);
    RunAppend(c, head, Pads(f));
    if f.trimmed {
      PadsRestore(f);
    }
  }

  /** Every pad only enlarges the canvas exactly when the trimmed sprite fits
      its recorded original canvas; an untrimmed plan has no pads at all. */
  lemma {:induction false} PadsOnlyGrowIff(c: Canvas, f: Frame)
    ensures OnlyGrows(c, Plan(f)) <==> !f.trimmed || FitsSource(f)
  {
    var head := [CropOf(f)] + TurnBack(f);
    var up := Canvas(f.frame.w, f.frame.h, Box(0, 0, f.frame.w, f.frame.h));
    Upright(c, f);
    OnlyGrowsAppend(c, head, Pads(f));
    assert OnlyGrows(c, head) by {
      if f.rotated {
        assert head[1..] == TurnBack(f);
        assert OnlyGrows(Step(c, CropOf(f)), TurnBack(f));
      } else {
        assert head[1..] == [];
      }
    }
    if f.trimmed {
      var p := Pads(f);
      var c1 := Step(up, p[0]);
      var c2 := Step(c1, p[1]);
      var c3 := Step(c2, p[2]);
      assert p[1..][1..][1..][1..] == [];
      assert p[2..][1..] == p[3..];
      assert p[1..][1..] == p[2..];
      assert OnlyGrows(c3, p[3..]) <==> Grows(c3, p[3]);
      assert OnlyGrows(c2, p[2..]) <==> Grows(c2, p[2]) && Grows(c3, p[3]);
      assert OnlyGrows(c1, p[1..]) <==> Grows(c1, p[1]) && Grows(c2, p[2]) && Grows(c3, p[3]);
    } else {
      assert Pads(f) == [];
    }
  }

  /** When the trimmed sprite fits its original canvas, no step of the chain
      cuts any of it off: from the crop on, it lies wholly inside the image
      after every step, and so inside the output. */
  lemma {:induction false} SpriteNeverClipped(c: Canvas, f: Frame)
    requires f.trimmed ==> FitsSource(f)
    ensures forall k :: 1 <= k <= |Plan(f)| ==> Inside(Run(c, Plan(f)[..k]))
    ensures Inside(Run(c, Plan(f)))
  {
    var p := Plan(f);
    var cropped := Step(c, p[0]);
    PadsOnlyGrowIff(c, f);
    assert OnlyGrows(cropped, p[1..]);
    GrowingKeepsInside(cropped, p[1..]);
    forall k | 1 <= k <= |p|
      ensures Inside(Run(c, p[..k]))
    {
      assert p[..k][1..] == p[1..][..k - 1];
      assert Run(c, p[..k]) == Run(cropped, p[1..][..k - 1]);
    }
    assert p[..|p|] == p;
  }

  /** A trimmed 32 x 48 sprite recorded at (4, 2) of a 40 x 52 original comes
      out 40 x 52 with the sprite at (4, 2). */
  lemma TrimExample(c: Canvas)
    ensures Run(c, Plan(Frame(Rect(0, 0, 32, 48), false, true, Point(4, 2), Size(40, 52))))
         == Canvas(40, 52, Box(4, 2, 32, 48))
  {
  }
}
