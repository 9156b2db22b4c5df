/**
 * BalanceScale (js/common/model/BalanceScale.js): two plates on a beam balanced on a fulcrum. The beam's
 * angle follows the difference of the plate weights, clamped where a plate bottoms out; the left plate
 * sits at the mirror image of the right plate about the fulcrum; and the scale counts the items on it.
 *
 * Lengths, weights and angles are exact reals. The cosine and sine of the angle are parameters, since
 * trigonometry is not modelled; so are the icon sizes of the item creators.
 */
module BalanceScale {
  import opened Wrappers
  import A = AbstractItemCreator

  datatype Point = Point(x: real, y: real)

  /** The constructor's options. `maxAngle` is in radians. */
  datatype Options = Options(
    location: Point, beamWidth: real, maxAngle: real, maxWeight: real,
    plateSupportHeight: real, plateDiameter: real, plateXInset: real,
    gridRows: nat, gridColumns: nat, gridXMargin: real, gridYMargin: real)

  /** The option defaults, for a given `maxAngle` (22 degrees in radians in the source). */
  function DefaultOptions(maxAngle: real): (o: Options)
    ensures o.location == Point(0.0, 0.0) && o.beamWidth == 450.0 && o.maxAngle == maxAngle && o.maxWeight == 30.0
    ensures o.plateSupportHeight == 70.0 && o.plateDiameter == 300.0 && o.plateXInset == 45.0
    ensures o.gridRows == 6 && o.gridColumns == 6 && o.gridXMargin == 2.0 && o.gridYMargin == 0.0
  {
    Options(Point(0.0, 0.0), 450.0, maxAngle, 30.0, 70.0, 300.0, 45.0, 6, 6, 2.0, 0.0)
  }

  datatype Icon = Icon(width: real, height: real)

  datatype Scale = Scale(options: Options, cellWidth: real, cellHeight: real)

  function Max(a: real, b: real): real {
    if a < b then b else a
  }

  /** The largest icon width over all item creators, starting from 0. */
  function MaxIconWidth(icons: seq<Icon>): (w: real)
    ensures w >= 0.0
    ensures forall i :: 0 <= i < |icons| ==> icons[i].width <= w
    ensures w == 0.0 || exists i :: 0 <= i < |icons| && icons[i].width == w
  {
    if |icons| == 0 then 0.0 else Max(MaxIconWidth(icons[..|icons| - 1]), icons[|icons| - 1].width)
  }

  /** The largest icon height over all item creators, starting from 0. */
  function MaxIconHeight(icons: seq<Icon>): (h: real)
    ensures h >= 0.0
    ensures forall i :: 0 <= i < |icons| ==> icons[i].height <= h
    ensures h == 0.0 || exists i :: 0 <= i < |icons| && icons[i].height == h
  {
    if |icons| == 0 then 0.0 else Max(MaxIconHeight(icons[..|icons| - 1]), icons[|icons| - 1].height)
  }

  /** The width of the grid on a plate: its columns times the cell width. */
  function GridWidth(o: Options, cellWidth: real): real {
    o.gridColumns as real * cellWidth
  }

  /**
   * The constructor. The plates must not overlap on the beam, and the grid, whose cells fit the largest
   * icon plus the margins, must not be wider than a plate; otherwise construction fails.
   */
  function New(o: Options, icons: seq<Icon>): (r: Result<Scale>)
    ensures r.Success? <==>
      && o.beamWidth - 2.0 * o.plateXInset > o.plateDiameter
      && GridWidth(o, MaxIconWidth(icons) + 2.0 * o.gridXMargin) <= o.plateDiameter
    ensures r.Success? ==> r.value.options == o
    ensures r.Success? ==> forall i :: 0 <= i < |icons| ==>
      icons[i].width + 2.0 * o.gridXMargin <= r.value.cellWidth &&
      icons[i].height + 2.0 * o.gridYMargin <= r.value.cellHeight
    ensures r.Failure? ==> r.error.InvalidOption?
  {
    var cellWidth := MaxIconWidth(icons) + 2.0 * o.gridXMargin;
    var cellHeight := MaxIconHeight(icons) + 2.0 * o.gridYMargin;
    if !(o.beamWidth - 2.0 * o.plateXInset > o.plateDiameter) then Failure(InvalidOption("plates will overlap"))
    else if !(GridWidth(o, cellWidth) <= o.plateDiameter) then Failure(InvalidOption("grid is wider than plate"))
    else Success(Scale(o, cellWidth, cellHeight))
  }

  /**
   * With the default options the plates never overlap, so the constructor succeeds exactly when the six
   * columns of the grid fit the plate: when no icon is wider than 46.
   */
  lemma DefaultsFit(maxAngle: real, icons: seq<Icon>)
    ensures New(DefaultOptions(maxAngle), icons).Success? <==> MaxIconWidth(icons) <= 46.0
  {
    var o := DefaultOptions(maxAngle);
    assert o.beamWidth - 2.0 * o.plateXInset > o.plateDiameter;
    assert GridWidth(o, MaxIconWidth(icons) + 2.0 * o.gridXMargin) == 6.0 * MaxIconWidth(icons) + 24.0;
  }

  // ---------------------------------------------------------------------------------------
  // The angle of the beam

  /** The weight difference `right - left`, clamped to `[-maxWeight, maxWeight]`. */
  function WeightDelta(leftWeight: real, rightWeight: real, maxWeight: real): (d: real)
    requires maxWeight > 0.0
    ensures -maxWeight <= d <= maxWeight
    ensures -maxWeight <= rightWeight - leftWeight <= maxWeight ==> d == rightWeight - leftWeight
    ensures rightWeight - leftWeight >= maxWeight ==> d == maxWeight
    ensures leftWeight - rightWeight >= maxWeight ==> d == -maxWeight
  {
    var delta := rightWeight - leftWeight;
    if delta > maxWeight then maxWeight
    else if delta < -maxWeight then -maxWeight
    else delta
  }

  /**
   * The beam's angle: the clamped difference as a fraction of `maxWeight`, times `maxAngle`. Within
   * `maxWeight` the angle is proportional to the difference; beyond it the scale bottoms out at `maxAngle`,
   * either way.
   */
  function Angle(leftWeight: real, rightWeight: real, maxWeight: real, maxAngle: real): (angle: real)
    requires maxWeight > 0.0 && maxAngle >= 0.0
    ensures -maxAngle <= angle <= maxAngle
    ensures -maxWeight <= rightWeight - leftWeight <= maxWeight ==>
      angle == ((rightWeight - leftWeight) / maxWeight) * maxAngle
    ensures rightWeight - leftWeight >= maxWeight ==> angle == maxAngle
    ensures leftWeight - rightWeight >= maxWeight ==> angle == -maxAngle
  {
    var d := WeightDelta(leftWeight, rightWeight, maxWeight);
    assert -maxWeight * maxAngle <= d * maxAngle <= maxWeight * maxAngle;
    assert maxWeight / maxWeight == 1.0;
    assert -maxWeight / maxWeight == -1.0;
    (d / maxWeight) * maxAngle
  }

  /** Plates of equal weight keep the beam level. */
  lemma BalancedIsLevel(w: real, maxWeight: real, maxAngle: real)
    requires maxWeight > 0.0 && maxAngle >= 0.0
    ensures Angle(w, w, maxWeight, maxAngle) == 0.0
  {
  }

  /** With a positive `maxAngle`, the beam tips right exactly when the right plate is heavier, and left exactly when the left one is. */
  lemma AngleSign(leftWeight: real, rightWeight: real, maxWeight: real, maxAngle: real)
    requires maxWeight > 0.0 && maxAngle > 0.0
    ensures Angle(leftWeight, rightWeight, maxWeight, maxAngle) > 0.0 <==> rightWeight > leftWeight
    ensures Angle(leftWeight, rightWeight, maxWeight, maxAngle) < 0.0 <==> rightWeight < leftWeight
  {
    var d := WeightDelta(leftWeight, rightWeight, maxWeight);
    assert d > 0.0 <==> rightWeight > leftWeight;
    assert d < 0.0 <==> rightWeight < leftWeight;
    DivPositive(d, maxWeight, maxAngle);
  }

  lemma DivPositive(d: real, maxWeight: real, maxAngle: real)
    requires maxWeight > 0.0 && maxAngle > 0.0
    ensures (d / maxWeight) * maxAngle > 0.0 <==> d > 0.0
    ensures (d / maxWeight) * maxAngle < 0.0 <==> d < 0.0
  {
    var q := d / maxWeight;
    assert q * maxWeight == d;
    if d > 0.0 {
      assert q > 0.0;
    } else if d < 0.0 {
      assert q < 0.0;
    } else {
      assert q == 0.0;
    }
  }

  /** Swapping the plates mirrors the angle. */
  lemma AngleAntisymmetric(leftWeight: real, rightWeight: real, maxWeight: real, maxAngle: real)
    requires maxWeight > 0.0 && maxAngle >= 0.0
    ensures Angle(rightWeight, leftWeight, maxWeight, maxAngle) == -Angle(leftWeight, rightWeight, maxWeight, maxAngle)
  {
    var d := WeightDelta(leftWeight, rightWeight, maxWeight);
    assert WeightDelta(rightWeight, leftWeight, maxWeight) == -d;
    assert Angle(rightWeight, leftWeight, maxWeight, maxAngle) == ((-d) / maxWeight) * maxAngle;
    assert Angle(leftWeight, rightWeight, maxWeight, maxAngle) == (d / maxWeight) * maxAngle;
    DivNegated(d, maxWeight, maxAngle);
  }

  lemma DivNegated(d: real, maxWeight: real, maxAngle: real)
    requires maxWeight > 0.0
    ensures ((-d) / maxWeight) * maxAngle == -((d / maxWeight) * maxAngle)
  {
    var q := d / maxWeight;
    assert q * maxWeight == d;
    assert (-q) * maxWeight == -d;
    assert (-d) / maxWeight == -q;
  }

  /** Adding weight to the right plate never tips the beam further left. */
  lemma AngleMonotone(leftWeight: real, rightWeight: real, more: real, maxWeight: real, maxAngle: real)
    requires maxWeight > 0.0 && maxAngle >= 0.0 && more >= 0.0
    ensures Angle(leftWeight, rightWeight, maxWeight, maxAngle) <= Angle(leftWeight, rightWeight + more, maxWeight, maxAngle)
  {
    var d1 := WeightDelta(leftWeight, rightWeight, maxWeight);
    var d2 := WeightDelta(leftWeight, rightWeight + more, maxWeight);
    var q1, q2 := (d1 / maxWeight) * maxAngle, (d2 / maxWeight) * maxAngle;
    assert q1 <= q2 by {
      DivMonotone(d1, d2, maxWeight, maxAngle);
    }
    assert Angle(leftWeight, rightWeight, maxWeight, maxAngle) == q1 by {
      AngleOfDelta(leftWeight, rightWeight, maxWeight, maxAngle);
    }
    assert Angle(leftWeight, rightWeight + more, maxWeight, maxAngle) == q2 by {
      AngleOfDelta(leftWeight, rightWeight + more, maxWeight, maxAngle);
    }
  }

  lemma AngleOfDelta(leftWeight: real, rightWeight: real, maxWeight: real, maxAngle: real)
    requires maxWeight > 0.0 && maxAngle >= 0.0
    ensures Angle(leftWeight, rightWeight, maxWeight, maxAngle) == (WeightDelta(leftWeight, rightWeight, maxWeight) / maxWeight) * maxAngle
  {
  }

  lemma DivMonotone(d1: real, d2: real, maxWeight: real, maxAngle: real)
    requires maxWeight > 0.0 && maxAngle >= 0.0 && d1 <= d2
    ensures (d1 / maxWeight) * maxAngle <= (d2 / maxWeight) * maxAngle
  {
    var q1 := d1 / maxWeight;
    var q2 := d2 / maxWeight;
    assert q1 * maxWeight == d1 && q2 * maxWeight == d2;
    assert (q2 - q1) * maxWeight == d2 - d1;
    assert q1 <= q2;
    assert (q2 - q1) * maxAngle >= 0.0;
  }

  // ---------------------------------------------------------------------------------------
  // The locations of the plates

  function Abs(x: real): real {
    if x < 0.0 then -x else x
  }

  /**
   * The right plate's location at the given angle: the end of the beam less the inset, then down by the
   * support height. `cosAngle` and `sinAngle` are the cosine and sine of `angle`.
   */
  function RightPlateLocation(o: Options, angle: real, cosAngle: real, sinAngle: real): (p: Point)
    ensures angle == 0.0 || (cosAngle == 1.0 && sinAngle == 0.0) ==>
      p.y + o.plateSupportHeight == o.location.y && p.x - o.location.x == o.beamWidth / 2.0 - Abs(o.plateXInset)
  {
    var hypotenuse := o.beamWidth / 2.0 - Abs(o.plateXInset);
    if angle == 0.0 then
      Point(o.location.x + o.beamWidth / 2.0 - Abs(o.plateXInset), o.location.y - o.plateSupportHeight)
    else
      Point(o.location.x + cosAngle * hypotenuse, o.location.y + sinAngle * hypotenuse - o.plateSupportHeight)
  }

  /**
   * The left plate's location, placed relative to the right plate's: the two plates are mirror images
   * about the fulcrum, so their x coordinates, and the y coordinates of the tops of their supports, average
   * to the fulcrum's.
   */
  function LeftPlateLocation(o: Options, right: Point): (p: Point)
    ensures p.x + right.x == 2.0 * o.location.x
    ensures (p.y + o.plateSupportHeight) + (right.y + o.plateSupportHeight) == 2.0 * o.location.y
  {
    var dx := right.x - o.location.x;
    var dy := (right.y + o.plateSupportHeight) - o.location.y;
    Point(o.location.x - dx, o.location.y - dy - o.plateSupportHeight)
  }

  // ---------------------------------------------------------------------------------------
  // The number of items on the scale

  function OnScale(c: A.Creator): nat {
    |c.book.itemsOnScale|
  }

  /** The number of items on the scale from the given creators. */
  function TotalOnScale(creators: seq<A.Creator>): (n: nat)
    ensures |creators| == 0 ==> n == 0
  {
    if |creators| == 0 then 0 else TotalOnScale(creators[..|creators| - 1]) + OnScale(creators[|creators| - 1])
  }

  /** The count over two lists of creators is the sum of the counts over each. */
  lemma {:induction false} TotalOnScaleConcat(a: seq<A.Creator>, b: seq<A.Creator>)
    ensures TotalOnScale(a + b) == TotalOnScale(a) + TotalOnScale(b)
    decreases |b|
  {
    if |b| == 0 {
      assert a + b == a;
    } else {
      assert (a + b)[..|a + b| - 1] == a + b[..|b| - 1];
      TotalOnScaleConcat(a, b[..|b| - 1]);
    }
  }

  /** One creator's count changing changes the total by the same amount. */
  lemma {:induction false} TotalOnScaleUpdate(creators: seq<A.Creator>, i: int, c: A.Creator)
    requires 0 <= i < |creators|
    ensures TotalOnScale(creators[i := c]) == TotalOnScale(creators) - OnScale(creators[i]) + OnScale(c)
    decreases |creators|
  {
    var n := |creators| - 1;
    if i < n {
      assert creators[i := c][..n] == creators[..n][i := c];
      TotalOnScaleUpdate(creators[..n], i, c);
    } else {
      assert creators[i := c][..n] == creators[..n];
    }
  }

  /**
   * `numberOfItemsProperty`: the left creators' counts, then the right creators', summed in that order.
   * The total is the sum over both sides.
   */
  method NumberOfItems(leftCreators: seq<A.Creator>, rightCreators: seq<A.Creator>) returns (sum: nat)
    ensures sum == TotalOnScale(leftCreators) + TotalOnScale(rightCreators)
  {
    var dependencies := leftCreators + rightCreators;
    sum := 0;
    var i := 0;
    while i < |dependencies|
      invariant 0 <= i <= |dependencies|
      invariant sum == TotalOnScale(dependencies[..i])
    {
      assert dependencies[..i + 1][..i] == dependencies[..i];
      sum := sum + OnScale(dependencies[i]);
      i := i + 1;
    }
    assert dependencies[..i] == dependencies;
    TotalOnScaleConcat(leftCreators, rightCreators);
  }
}
