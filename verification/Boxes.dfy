/** Overlap of bounding boxes, over exact reals. */
module Boxes {
  import opened Options
  import opened RealArith

  datatype Box = Box(x: real, y: real, w: real, h: real)

  function MaxF(a: real, b: real): real {
    if a > b then a else b
  }

  function MinF(a: real, b: real): real {
    if a < b then a else b
  }

  function Area(b: Box): real {
    (b.x + b.w - b.x) * (b.y + b.h - b.y)
  }

  function OverlapWidth(a: Box, b: Box): real {
    MinF(a.x + a.w, b.x + b.w) - MaxF(a.x, b.x)
  }

  function OverlapHeight(a: Box, b: Box): real {
    MinF(a.y + a.h, b.y + b.h) - MaxF(a.y, b.y)
  }

  /** Intersection over union; a missing box, no overlap or an empty union gives zero. */
  function Iou(a: Option<Box>, b: Option<Box>): real {
    if a.None? || b.None? then 0.0
    else
      var iw, ih := OverlapWidth(a.value, b.value), OverlapHeight(a.value, b.value);
      if iw <= 0.0 || ih <= 0.0 then 0.0
      else Ratio(iw * ih, Area(a.value) + Area(b.value) - iw * ih)
  }

  function Ratio(inter: real, union: real): real {
    if union <= 0.0 then 0.0 else inter / union
  }

  lemma AreaIs(b: Box)
    ensures Area(b) == b.w * b.h
  {
    assert b.x + b.w - b.x == b.w && b.y + b.h - b.y == b.h;
  }

  lemma OverlapWithin(a: Box, b: Box)
    requires OverlapWidth(a, b) > 0.0 && OverlapHeight(a, b) > 0.0
    ensures 0.0 < OverlapWidth(a, b) * OverlapHeight(a, b) <= Area(a)
  {
    AreaIs(a);
    assert OverlapWidth(a, b) <= a.w && OverlapHeight(a, b) <= a.h;
    ProductMonotone(OverlapWidth(a, b), a.w, OverlapHeight(a, b), a.h);
  }

  lemma OverlapSymmetric(a: Box, b: Box)
    ensures OverlapWidth(a, b) == OverlapWidth(b, a) && OverlapHeight(a, b) == OverlapHeight(b, a)
  {
  }

  lemma IouOfOverlap(a: Box, b: Box, x: real)
    requires OverlapWidth(a, b) > 0.0 && OverlapHeight(a, b) > 0.0 && x == OverlapWidth(a, b) * OverlapHeight(a, b)
    ensures Iou(Some(a), Some(b)) == Ratio(x, Area(a) + Area(b) - x)
  {
    hide Area, OverlapWidth, OverlapHeight;
  }

  lemma IouSymmetric(a: Option<Box>, b: Option<Box>)
    ensures Iou(a, b) == Iou(b, a)
  {
    hide Area, OverlapWidth, OverlapHeight, Ratio;
    if a.Some? && b.Some? {
      OverlapSymmetric(a.value, b.value);
      if OverlapWidth(a.value, b.value) > 0.0 && OverlapHeight(a.value, b.value) > 0.0 {
        var x := OverlapWidth(a.value, b.value) * OverlapHeight(a.value, b.value);
        IouOfOverlap(a.value, b.value, x);
        IouOfOverlap(b.value, a.value, x);
        hide Iou;
      }
    }
  }

  /** For all boxes, negative sizes included, the overlap is a proportion; it is positive exactly when
      the boxes share an area. */
  lemma IouInUnitInterval(a: Option<Box>, b: Option<Box>)
    ensures 0.0 <= Iou(a, b) <= 1.0
    ensures Iou(a, b) > 0.0 <==>
              a.Some? && b.Some? && OverlapWidth(a.value, b.value) > 0.0 && OverlapHeight(a.value, b.value) > 0.0
  {
    hide Area, OverlapWidth, OverlapHeight;
    if a.Some? && b.Some? {
      var iw, ih := OverlapWidth(a.value, b.value), OverlapHeight(a.value, b.value);
      if iw > 0.0 && ih > 0.0 {
        OverlapWithin(a.value, b.value);
        OverlapSymmetric(a.value, b.value);
        OverlapWithin(b.value, a.value);
        PositiveRatio(iw * ih, Area(a.value) + Area(b.value) - iw * ih);
      }
    }
  }

  /** The overlap is total exactly for two equal boxes with an area. */
  lemma IouIsOneIffSame(a: Option<Box>, b: Option<Box>)
    ensures Iou(a, b) == 1.0 <==> a == b && a.Some? && a.value.w > 0.0 && a.value.h > 0.0
  {
    hide Area, OverlapWidth, OverlapHeight, Ratio;
    if a.Some? && b.Some? {
      var iw, ih := OverlapWidth(a.value, b.value), OverlapHeight(a.value, b.value);
      SelfOverlap(a.value);
      if iw > 0.0 && ih > 0.0 {
        OverlapWithin(a.value, b.value);
        OverlapSymmetric(a.value, b.value);
        OverlapWithin(b.value, a.value);
        var x, area, other := iw * ih, Area(a.value), Area(b.value);
        RatioIsOne(x, area + other - x);
        TotalOverlapIsSame(a.value, b.value);
        IouOfOverlap(a.value, b.value, x);
      }
    }
  }

  lemma TotalOverlapIsSame(a: Box, b: Box)
    requires OverlapWidth(a, b) > 0.0 && OverlapHeight(a, b) > 0.0
    ensures var x := OverlapWidth(a, b) * OverlapHeight(a, b);
            x == Area(a) == Area(b) <==> a == b
  {
    hide Area, OverlapWidth, OverlapHeight;
    OverlapSymmetric(a, b);
    FullOverlap(a, b);
    FullOverlap(b, a);
    SelfOverlap(a);
    SameExtent(a, b);
  }

  lemma RatioIsOne(x: real, m: real)
    requires 0.0 < x <= m
    ensures Ratio(x, m) == 1.0 <==> x == m
  {
    DivMul(x, m);
    SelfQuotient(m);
  }

  lemma SelfOverlap(b: Box)
    ensures OverlapWidth(b, b) == b.w && OverlapHeight(b, b) == b.h && Area(b) == b.w * b.h
  {
    AreaIs(b);
  }

  lemma FactorsEqual(u: real, a: real, v: real, b: real)
    requires 0.0 < u <= a && 0.0 < v <= b && u * v == a * b
    ensures u == a && v == b
  {
    if u < a {
      StrictProduct(u, a, v, b);
    }
    if v < b {
      StrictProduct(v, b, u, a);
    }
  }

  lemma StrictProduct(u: real, a: real, v: real, b: real)
    requires 0.0 < u < a && 0.0 < v <= b
    ensures u * v < a * b && v * u < b * a
  {
    MulStrict(u, a, v);
    MulMonotone(v, b, a);
    assert v * a == a * v && b * a == a * b && u * v == v * u;
  }

  /** An overlap as large as one of the boxes is as wide and as high as that box. */
  lemma FullOverlap(a: Box, b: Box)
    ensures OverlapWidth(a, b) > 0.0 && OverlapHeight(a, b) > 0.0
            && OverlapWidth(a, b) * OverlapHeight(a, b) == Area(a)
            ==> OverlapWidth(a, b) == a.w && OverlapHeight(a, b) == a.h
  {
    AreaIs(a);
    var iw, ih := OverlapWidth(a, b), OverlapHeight(a, b);
    assert iw <= a.w && ih <= a.h;
    hide Area, OverlapWidth, OverlapHeight;
    if iw > 0.0 && ih > 0.0 && iw * ih == Area(a) {
      FactorsEqual(iw, a.w, ih, a.h);
    }
  }

  lemma SameExtent(a: Box, b: Box)
    ensures OverlapWidth(a, b) == a.w == b.w && OverlapHeight(a, b) == a.h == b.h ==> a == b
  {
  }

  lemma PositiveRatio(x: real, m: real)
    requires 0.0 < x <= m
    ensures 0.0 < x / m <= 1.0
  {
    QuotientInUnit(x, m);
    DivMul(x, m);
  }

  // ---------- what the number means ----------

  /** The point lies in the box, borders included. */
  predicate Inside(b: Box, x: real, y: real) {
    b.x <= x <= b.x + b.w && b.y <= y <= b.y + b.h
  }

  /** `s` holds exactly the points that `a` and `b` share. */
  ghost predicate IsShared(a: Box, b: Box, s: Box) {
    forall x, y :: Inside(s, x, y) <==> Inside(a, x, y) && Inside(b, x, y)
  }

  function Shared(a: Box, b: Box): Box {
    Box(MaxF(a.x, b.x), MaxF(a.y, b.y), OverlapWidth(a, b), OverlapHeight(a, b))
  }

  lemma SharedIsShared(a: Box, b: Box)
    ensures IsShared(a, b, Shared(a, b))
  {
  }

  lemma SamePoints(a: Box, b: Box, s: Box)
    requires IsShared(a, b, s) && s.w >= 0.0 && s.h >= 0.0
    ensures OverlapWidth(a, b) == s.w && OverlapHeight(a, b) == s.h
  {
    SharedIsShared(a, b);
    var c := Shared(a, b);
    assert Inside(s, s.x, s.y) && Inside(s, s.x + s.w, s.y + s.h);
    assert Inside(c, s.x, s.y) && Inside(c, s.x + s.w, s.y + s.h);
    assert Inside(c, c.x, c.y) && Inside(c, c.x + c.w, c.y + c.h);
    assert Inside(s, c.x, c.y) && Inside(s, c.x + c.w, c.y + c.h);
  }

  /** The overlap of two boxes is the area of the box of their common points over what the two areas
      cover together; without a common point it is zero. */
  lemma IouOfCommonPoints(a: Box, b: Box, s: Box)
    requires IsShared(a, b, s)
    ensures var inter, iou := s.w * s.h, Iou(Some(a), Some(b));
      if s.w > 0.0 && s.h > 0.0
      then var union := a.w * a.h + b.w * b.h - inter; union > 0.0 && iou * union == inter
      else iou == 0.0
  {
    if s.w >= 0.0 && s.h >= 0.0 {
      SamePoints(a, b, s);
    } else {
      NothingShared(a, b, s);
    }
    hide *;
    if s.w > 0.0 && s.h > 0.0 {
      IouEquation(a, b, s.w * s.h);
    } else {
      NoOverlap(a, b);
    }
  }

  lemma IouEquation(a: Box, b: Box, inter: real)
    requires OverlapWidth(a, b) > 0.0 && OverlapHeight(a, b) > 0.0
    requires inter == OverlapWidth(a, b) * OverlapHeight(a, b)
    ensures var union := a.w * a.h + b.w * b.h - inter; union > 0.0 && Iou(Some(a), Some(b)) * union == inter
  {
    hide *;
    OverlapWithin(a, b);
    OverlapSymmetric(a, b);
    OverlapWithin(b, a);
    AreaIs(a);
    AreaIs(b);
    IouOfOverlap(a, b, inter);
    RatioTimes(inter, Area(a) + Area(b) - inter);
  }

  lemma RatioTimes(inter: real, union: real)
    requires union > 0.0
    ensures Ratio(inter, union) * union == inter
  {
    DivMul(inter, union);
  }

  lemma NoOverlap(a: Box, b: Box)
    requires OverlapWidth(a, b) <= 0.0 || OverlapHeight(a, b) <= 0.0
    ensures Iou(Some(a), Some(b)) == 0.0
  {
  }

  lemma NothingShared(a: Box, b: Box, s: Box)
    requires IsShared(a, b, s) && (s.w < 0.0 || s.h < 0.0)
    ensures OverlapWidth(a, b) < 0.0 || OverlapHeight(a, b) < 0.0
  {
    SharedIsShared(a, b);
    var c := Shared(a, b);
    assert !Inside(s, c.x, c.y);
    assert !Inside(c, c.x, c.y);
  }
}
