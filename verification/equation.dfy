/**
 * The text logic of EquationNode (js/common/view/EquationNode.js): the relational operator between the
 * two sides, and each side written as a list of display children. Fonts, spacing and layout are not
 * modelled; a child is a piece of text, a number, or a term (a coefficient and an icon).
 *
 * An item creator is seen through what the equation reads of it: its kind, its number of items on the
 * scale, its weight and its icon.
 */
module Equation {
  import opened Wrappers
  import Operators
  import BS = BalanceScale

  type IconId = nat

  /** XItemCreator (with its coefficient), ConstantItemCreator (with its `constantTerm` flag), or anything else. */
  datatype Kind = XKind(coefficient: real) | ConstantKind(constantTerm: bool) | OtherKind

  datatype SideCreator = SideCreator(kind: Kind, numberOfItemsOnScale: nat, weight: real, icon: IconId)

  // ---------------------------------------------------------------------------------------
  // getRelationalOperator

  /** The weight of a side: the sum of number of items on the scale times weight, in creator order. */
  function SideWeight(cs: seq<SideCreator>): real {
    if |cs| == 0 then 0.0
    else SideWeight(cs[..|cs| - 1]) + cs[|cs| - 1].numberOfItemsOnScale as real * cs[|cs| - 1].weight
  }

  /** `getRelationalOperator`: '<', '>' or '=' as the left side weighs less than, more than or the same as the right. */
  function GetRelationalOperator(left: seq<SideCreator>, right: seq<SideCreator>): (op: string)
    ensures op == "<" <==> SideWeight(left) < SideWeight(right)
    ensures op == ">" <==> SideWeight(left) > SideWeight(right)
    ensures op == "=" <==> SideWeight(left) == SideWeight(right)
  {
    var leftWeight := SideWeight(left);
    var rightWeight := SideWeight(right);
    if leftWeight < rightWeight then "<"
    else if leftWeight > rightWeight then ">"
    else "="
  }

  /** Exchanging the sides exchanges '<' and '>' and keeps '='. */
  lemma RelationalOperatorSwap(left: seq<SideCreator>, right: seq<SideCreator>)
    ensures GetRelationalOperator(right, left) ==
      match GetRelationalOperator(left, right)
      case "<" => ">"
      case ">" => "<"
      case _ => "="
  {
  }

  /**
   * The operator agrees with the balance scale holding the two sides: '<' exactly when the beam tips to
   * the right, '>' exactly when it tips to the left, '=' exactly when it is level.
   */
  lemma RelationalOperatorMatchesScale(left: seq<SideCreator>, right: seq<SideCreator>, maxWeight: real, maxAngle: real)
    requires maxWeight > 0.0 && maxAngle > 0.0
    ensures var angle := BS.Angle(SideWeight(left), SideWeight(right), maxWeight, maxAngle);
      && (GetRelationalOperator(left, right) == "<" <==> angle > 0.0)
      && (GetRelationalOperator(left, right) == ">" <==> angle < 0.0)
      && (GetRelationalOperator(left, right) == "=" <==> angle == 0.0)
  {
    BS.AngleSign(SideWeight(left), SideWeight(right), maxWeight, maxAngle);
  }

  // ---------------------------------------------------------------------------------------
  // createTermNode

  datatype Glyph = ItemIcon(icon: IconId) | XSymbol

  /** A term as shown: the coefficient and the icon, the icon alone (for 1), or '-' and the icon (for -1). */
  datatype TermNode = WithCoefficient(coefficient: real, glyph: Glyph) | Bare(glyph: Glyph) | Negated(glyph: Glyph)

  /** The coefficient a reader sees in a term. */
  function TermCoefficient(t: TermNode): real {
    match t
    case WithCoefficient(c, _) => c
    case Bare(_) => 1.0
    case Negated(_) => -1.0
  }

  function Abs(x: real): real {
    if x < 0.0 then -x else x
  }

  /**
   * `createTermNode`: the coefficient is shown unless `hideOne` is set and it is 1 or -1. Whatever the
   * form, the term reads as the given coefficient times the given icon.
   */
  function CreateTermNode(coefficient: real, glyph: Glyph, hideOne: bool): (t: TermNode)
    ensures t.glyph == glyph && TermCoefficient(t) == coefficient
    ensures t.WithCoefficient? <==> !hideOne || Abs(coefficient) != 1.0
    ensures t.Negated? <==> hideOne && coefficient == -1.0
  {
    if !hideOne || Abs(coefficient) != 1.0 then WithCoefficient(coefficient, glyph)
    else if coefficient == 1.0 then Bare(glyph)
    else Negated(glyph)
  }

  // ---------------------------------------------------------------------------------------
  // createSideNode

  /** A child of a side: text (an operator or '0'), a number, or a term. */
  datatype Child = Text(text: string) | Number(value: real) | TermChild(term: TermNode)

  function GlyphValue(g: Glyph, xValue: real, iconValue: IconId -> real): real {
    match g
    case ItemIcon(i) => iconValue(i)
    case XSymbol => xValue
  }

  /**
   * The value a reader gives a side, for a value of x and a value of each icon: terms and numbers add up,
   * except that a number right after a minus sign is subtracted. Other text counts for nothing.
   */
  function Denote(children: seq<Child>, xValue: real, iconValue: IconId -> real): real
    decreases |children|
  {
    if |children| == 0 then 0.0
    else
      var n := |children| - 1;
      match children[n]
      case Number(v) =>
        if n >= 1 && children[n - 1] == Text(Operators.MINUS) then Denote(children[..n - 1], xValue, iconValue) - v
        else Denote(children[..n], xValue, iconValue) + v
      case TermChild(t) => Denote(children[..n], xValue, iconValue) + TermCoefficient(t) * GlyphValue(t.glyph, xValue, iconValue)
      case Text(_) => Denote(children[..n], xValue, iconValue)
  }

  /** The creator's items would make `createSideNode` throw. */
  predicate IsUnsupported(c: SideCreator) {
    c.numberOfItemsOnScale > 0 && c.kind.OtherKind?
  }

  /** The creator's items are shown as a term with the number of items as coefficient. */
  predicate ShownAsTerm(c: SideCreator) {
    c.numberOfItemsOnScale > 0 && c.kind == ConstantKind(false)
  }

  /** The coefficient of x on a side: coefficient times number of items, over the XItemCreators. */
  function XSum(cs: seq<SideCreator>): real {
    if |cs| == 0 then 0.0
    else
      var c := cs[|cs| - 1];
      XSum(cs[..|cs| - 1]) + (if c.kind.XKind? then c.kind.coefficient * c.numberOfItemsOnScale as real else 0.0)
  }

  /** The constant of a side: number of items times weight, over the constant-term ConstantItemCreators. */
  function ConstantSum(cs: seq<SideCreator>): real {
    if |cs| == 0 then 0.0
    else
      var c := cs[|cs| - 1];
      ConstantSum(cs[..|cs| - 1]) + (if c.kind == ConstantKind(true) then c.numberOfItemsOnScale as real * c.weight else 0.0)
  }

  /** The terms a side shows for its other ConstantItemCreators, in creator order. */
  function ItemTerms(cs: seq<SideCreator>): seq<TermNode> {
    if |cs| == 0 then []
    else
      var c := cs[|cs| - 1];
      ItemTerms(cs[..|cs| - 1]) + (if ShownAsTerm(c) then [WithCoefficient(c.numberOfItemsOnScale as real, ItemIcon(c.icon))] else [])
  }

  /** The terms separated by plus signs: term, '+', term, '+', ..., term. */
  predicate PlusSeparated(children: seq<Child>, terms: seq<TermNode>) {
    && |children| == (if |terms| == 0 then 0 else 2 * |terms| - 1)
    && (forall i :: 0 <= i < |children| && i % 2 == 0 ==> children[i] == TermChild(terms[i / 2]))
    && (forall i :: 0 <= i < |children| && i % 2 == 1 ==> children[i] == Text(Operators.PLUS))
  }

  /** The state of the loop of `createSideNode`: the constant, the coefficient of x, and the children so far. */
  datatype Tally = Tally(constantValue: real, xCoefficient: real, children: seq<Child>)

  /** One round of the loop of `createSideNode`, for one creator. */
  function Step(a: Tally, c: SideCreator): (r: Result<Tally>)
    ensures r.Failure? <==> IsUnsupported(c)
    ensures r.Failure? ==> r.error == UnsupportedKind
  {
    var n := c.numberOfItemsOnScale;
    if n == 0 then Success(a)
    else
      match c.kind
      case XKind(k) => Success(a.(xCoefficient := a.xCoefficient + k * n as real))
      case ConstantKind(true) => Success(a.(constantValue := a.constantValue + n as real * c.weight))
      case ConstantKind(false) =>
        var plus := if |a.children| > 0 then [Text(Operators.PLUS)] else [];
        Success(a.(children := a.children + plus + [TermChild(CreateTermNode(n as real, ItemIcon(c.icon), false))]))
      case OtherKind => Failure(UnsupportedKind)
  }

  /** Appending one more term, after a plus sign when there are terms already, keeps the list plus-separated. */
  lemma AppendSeparated(children: seq<Child>, terms: seq<TermNode>, t: TermNode)
    requires PlusSeparated(children, terms)
    ensures var plus := if |children| > 0 then [Text(Operators.PLUS)] else [];
      PlusSeparated(children + plus + [TermChild(t)], terms + [t])
  {
    var plus := if |children| > 0 then [Text(Operators.PLUS)] else [];
    var c := children + plus + [TermChild(t)];
    var ts := terms + [t];
    forall i | 0 <= i < |c| && i % 2 == 0
      ensures c[i] == TermChild(ts[i / 2])
    {
      if i < |children| {
        assert c[i] == children[i];
      }
    }
    forall i | 0 <= i < |c| && i % 2 == 1
      ensures c[i] == Text(Operators.PLUS)
    {
      if i < |children| {
        assert c[i] == children[i];
      }
    }
  }

  /**
   * The loop of `createSideNode` over all creators: it fails exactly when some creator with items on the
   * scale is of a kind it does not handle. Otherwise it has summed the coefficient of x and the constant,
   * and has listed the other creators' terms in creator order, separated by plus signs.
   */
  function Accumulate(cs: seq<SideCreator>): (r: Result<Tally>)
    ensures r.Failure? <==> exists i :: 0 <= i < |cs| && IsUnsupported(cs[i])
    ensures r.Failure? ==> r.error == UnsupportedKind
    ensures r.Success? ==>
      && r.value.xCoefficient == XSum(cs)
      && r.value.constantValue == ConstantSum(cs)
      && PlusSeparated(r.value.children, ItemTerms(cs))
  {
    if |cs| == 0 then Success(Tally(0.0, 0.0, []))
    else
      var n := |cs| - 1;
      match Accumulate(cs[..n])
      case Failure(e) =>
        assert IsUnsupported(cs[..n][FailingIndex(cs[..n])]);
        Failure(e)
      case Success(a) =>
        if IsUnsupported(cs[n]) then StepAfterPrefix(cs, a)
        else
          StepKeepsSums(cs, a);
          StepAfterPrefix(cs, a)
  }

  /** A round for a supported creator extends the sums and the terms of the creators before it to it. */
  lemma StepKeepsSums(cs: seq<SideCreator>, a: Tally)
    requires |cs| > 0 && !IsUnsupported(cs[|cs| - 1])
    requires var before := cs[..|cs| - 1];
      a.xCoefficient == XSum(before) && a.constantValue == ConstantSum(before) && PlusSeparated(a.children, ItemTerms(before))
    ensures Step(a, cs[|cs| - 1]).Success?
    ensures var b := Step(a, cs[|cs| - 1]).value;
      b.xCoefficient == XSum(cs) && b.constantValue == ConstantSum(cs) && PlusSeparated(b.children, ItemTerms(cs))
  {
    var c := cs[|cs| - 1];
    if c.numberOfItemsOnScale > 0 && c.kind == ConstantKind(false) {
      AppendSeparated(a.children, ItemTerms(cs[..|cs| - 1]), WithCoefficient(c.numberOfItemsOnScale as real, ItemIcon(c.icon)));
    }
  }

  /** The index of a creator that makes the loop fail, given that there is one. */
  ghost function FailingIndex(cs: seq<SideCreator>): (i: int)
    requires exists i :: 0 <= i < |cs| && IsUnsupported(cs[i])
    ensures 0 <= i < |cs| && IsUnsupported(cs[i])
  {
    var i :| 0 <= i < |cs| && IsUnsupported(cs[i]); i
  }

  /** The last round of the loop, after the rounds for all earlier creators succeeded. */
  function StepAfterPrefix(cs: seq<SideCreator>, a: Tally): (r: Result<Tally>)
    requires |cs| > 0
    requires forall i :: 0 <= i < |cs| - 1 ==> !IsUnsupported(cs[i])
    ensures r.Failure? <==> exists i :: 0 <= i < |cs| && IsUnsupported(cs[i])
    ensures r.Failure? ==> r.error == UnsupportedKind
    ensures r == Step(a, cs[|cs| - 1])
  {
    Step(a, cs[|cs| - 1])
  }

  /**
   * `createSideNode`: the terms of the other ConstantItemCreators, then the x term (which may only come
   * first), then the constant, which after other children is written as a sign and its absolute value.
   * A side with nothing to show is '0'.
   */
  function CreateSideNode(cs: seq<SideCreator>): (r: Result<seq<Child>>)
    ensures r.Failure? <==>
      (exists i :: 0 <= i < |cs| && IsUnsupported(cs[i])) || (XSum(cs) != 0.0 && |ItemTerms(cs)| > 0)
    ensures r.Success? ==> |r.value| > 0
    ensures r.Success? ==>
      (r.value == [Text("0")] <==> XSum(cs) == 0.0 && ConstantSum(cs) == 0.0 && |ItemTerms(cs)| == 0)
    ensures r.Success? && ConstantSum(cs) != 0.0 ==> r.value[|r.value| - 1] == Number(Abs(ConstantSum(cs))) || r.value == [Number(ConstantSum(cs))]
    ensures r.Success? && XSum(cs) != 0.0 ==> r.value[0] == TermChild(CreateTermNode(XSum(cs), XSymbol, true))
  {
    match Accumulate(cs)
    case Failure(e) => Failure(e)
    case Success(a) =>
      if a.xCoefficient != 0.0 && |a.children| > 0 then Failure(Inconsistent("equation with a variable should have no terms so far"))
      else
        assert |a.children| == 0 <==> |ItemTerms(cs)| == 0;
        assert |a.children| > 0 ==> Finish(a)[0] == a.children[0] == TermChild(ItemTerms(cs)[0]);
        Success(Finish(a))
  }

  /** After the loop: the x term, then the constant, and '0' when there is nothing to show. */
  function Finish(a: Tally): (children: seq<Child>)
    ensures |children| > 0
    ensures a.xCoefficient == 0.0 && a.constantValue == 0.0 && a.children == [] ==> children == [Text("0")]
    ensures |children| >= |a.children| && children[..|a.children|] == a.children
    ensures a.xCoefficient != 0.0 || a.constantValue != 0.0 ==> children[|children| - 1] != Text("0")
  {
    var withConstant := WithConstant(WithX(a.children, a.xCoefficient), a.constantValue);
    if |withConstant| == 0 then [Text("0")] else withConstant
  }

  /** The x term, with 1 and -1 hidden, after the children when the coefficient of x is not zero. */
  function WithX(children: seq<Child>, xCoefficient: real): seq<Child> {
    if xCoefficient != 0.0 then children + [TermChild(CreateTermNode(xCoefficient, XSymbol, true))] else children
  }

  /** The constant last when it is not zero: after other children as a sign and its absolute value. */
  function WithConstant(children: seq<Child>, constantValue: real): seq<Child> {
    if constantValue == 0.0 then children
    else if |children| > 0 then children + [Text(if constantValue > 0.0 then Operators.PLUS else Operators.MINUS), Number(Abs(constantValue))]
    else children + [Number(constantValue)]
  }

  // ---------------------------------------------------------------------------------------
  // What a side denotes

  /** What a creator's items on the scale are worth, for a value of x and of each icon. */
  function CreatorValue(c: SideCreator, xValue: real, iconValue: IconId -> real): real {
    match c.kind
    case XKind(k) => k * c.numberOfItemsOnScale as real * xValue
    case ConstantKind(true) => c.numberOfItemsOnScale as real * c.weight
    case ConstantKind(false) => c.numberOfItemsOnScale as real * iconValue(c.icon)
    case OtherKind => 0.0
  }

  function SideValue(cs: seq<SideCreator>, xValue: real, iconValue: IconId -> real): real {
    if |cs| == 0 then 0.0 else SideValue(cs[..|cs| - 1], xValue, iconValue) + CreatorValue(cs[|cs| - 1], xValue, iconValue)
  }

  function TermsValue(ts: seq<TermNode>, xValue: real, iconValue: IconId -> real): real {
    if |ts| == 0 then 0.0
    else TermsValue(ts[..|ts| - 1], xValue, iconValue) + TermCoefficient(ts[|ts| - 1]) * GlyphValue(ts[|ts| - 1].glyph, xValue, iconValue)
  }

  /** A plus-separated list of terms denotes the sum of its terms. */
  lemma {:induction false} SeparatedDenotes(children: seq<Child>, ts: seq<TermNode>, xValue: real, iconValue: IconId -> real)
    requires PlusSeparated(children, ts)
    ensures Denote(children, xValue, iconValue) == TermsValue(ts, xValue, iconValue)
    decreases |ts|
  {
    if |ts| == 1 {
      assert children == [TermChild(ts[0])];
      assert children[..0] == [];
      assert ts[..0] == [];
    } else if |ts| > 1 {
      var n := |children|;
      var shorter := children[..n - 2];
      assert PlusSeparated(shorter, ts[..|ts| - 1]);
      SeparatedDenotes(shorter, ts[..|ts| - 1], xValue, iconValue);
      assert children[n - 1] == TermChild(ts[|ts| - 1]);
      assert children[n - 2] == Text(Operators.PLUS);
      assert children[..n - 1][..n - 2] == shorter;
    }
  }

  /** What one creator adds to the item terms' value. */
  function TermPart(c: SideCreator, xValue: real, iconValue: IconId -> real): real {
    if ShownAsTerm(c) then c.numberOfItemsOnScale as real * iconValue(c.icon) else 0.0
  }

  /** One creator's worth splits into its share of the coefficient of x, of the constant and of the terms. */
  lemma CreatorValueSplit(c: SideCreator, xValue: real, iconValue: IconId -> real)
    requires !IsUnsupported(c)
    ensures CreatorValue(c, xValue, iconValue) ==
      (if c.kind.XKind? then c.kind.coefficient * c.numberOfItemsOnScale as real * xValue else 0.0)
      + (if c.kind == ConstantKind(true) then c.numberOfItemsOnScale as real * c.weight else 0.0)
      + TermPart(c, xValue, iconValue)
  {
    match c.kind
    case XKind(_) =>
    case ConstantKind(true) =>
    case ConstantKind(false) =>
      if c.numberOfItemsOnScale == 0 {
        assert CreatorValue(c, xValue, iconValue) == 0.0;
      }
    case OtherKind =>
  }

  /** The item terms' value grows by the last creator's term part. */
  lemma TermsValueStep(cs: seq<SideCreator>, xValue: real, iconValue: IconId -> real)
    requires |cs| > 0
    ensures TermsValue(ItemTerms(cs), xValue, iconValue)
      == TermsValue(ItemTerms(cs[..|cs| - 1]), xValue, iconValue) + TermPart(cs[|cs| - 1], xValue, iconValue)
  {
    var n := |cs| - 1;
    var c := cs[n];
    if ShownAsTerm(c) {
      var t := WithCoefficient(c.numberOfItemsOnScale as real, ItemIcon(c.icon));
      assert ItemTerms(cs) == ItemTerms(cs[..n]) + [t];
      assert (ItemTerms(cs[..n]) + [t])[..|ItemTerms(cs[..n])|] == ItemTerms(cs[..n]);
    } else {
      assert ItemTerms(cs) == ItemTerms(cs[..n]);
    }
  }

  /** What the x items of a side are worth. */
  function XValue(cs: seq<SideCreator>, xValue: real): real {
    if |cs| == 0 then 0.0
    else
      var c := cs[|cs| - 1];
      XValue(cs[..|cs| - 1], xValue) + (if c.kind.XKind? then c.kind.coefficient * c.numberOfItemsOnScale as real * xValue else 0.0)
  }

  lemma Distribute(a: real, b: real, x: real)
    ensures (a + b) * x == a * x + b * x
  {
  }

  /** The x items are worth the coefficient of x times x. */
  lemma {:induction false} XValueIsProduct(cs: seq<SideCreator>, xValue: real)
    ensures XValue(cs, xValue) == XSum(cs) * xValue
    decreases |cs|
  {
    if |cs| > 0 {
      var n := |cs| - 1;
      var c := cs[n];
      XValueIsProduct(cs[..n], xValue);
      var dx := if c.kind.XKind? then c.kind.coefficient * c.numberOfItemsOnScale as real else 0.0;
      Distribute(XSum(cs[..n]), dx, xValue);
    }
  }

  /** The side splits into the x part, the constant part and the item terms. */
  lemma {:induction false} SideValueSplit(cs: seq<SideCreator>, xValue: real, iconValue: IconId -> real)
    requires forall i :: 0 <= i < |cs| ==> !IsUnsupported(cs[i])
    ensures SideValue(cs, xValue, iconValue) ==
      XValue(cs, xValue) + ConstantSum(cs) + TermsValue(ItemTerms(cs), xValue, iconValue)
    decreases |cs|
  {
    if |cs| > 0 {
      var n := |cs| - 1;
      SideValueSplit(cs[..n], xValue, iconValue);
      CreatorValueSplit(cs[n], xValue, iconValue);
      TermsValueStep(cs, xValue, iconValue);
    }
  }

  lemma DenoteAppendTerm(s: seq<Child>, t: TermNode, xValue: real, iconValue: IconId -> real)
    ensures Denote(s + [TermChild(t)], xValue, iconValue)
      == Denote(s, xValue, iconValue) + TermCoefficient(t) * GlyphValue(t.glyph, xValue, iconValue)
  {
    assert (s + [TermChild(t)])[..|s|] == s;
  }

  lemma DenoteAppendNumber(s: seq<Child>, v: real, xValue: real, iconValue: IconId -> real)
    requires |s| == 0
    ensures Denote(s + [Number(v)], xValue, iconValue) == v
  {
    assert (s + [Number(v)])[..|s|] == s;
  }

  /** A sign and a number after other children add or subtract the number. */
  lemma DenoteAppendSigned(s: seq<Child>, plus: bool, v: real, xValue: real, iconValue: IconId -> real)
    ensures Denote(s + [Text(if plus then Operators.PLUS else Operators.MINUS), Number(v)], xValue, iconValue)
      == Denote(s, xValue, iconValue) + (if plus then v else -v)
  {
    var sign := Text(if plus then Operators.PLUS else Operators.MINUS);
    var w := s + [sign, Number(v)];
    assert w[|w| - 2] == sign;
    assert w[..|w| - 1] == s + [sign];
    assert w[..|w| - 2] == s;
    assert (s + [sign])[..|s|] == s;
  }

  /**
   * A side that is shown denotes what its creators' items are worth: the children, read as arithmetic,
   * add up to the x term, the constant and every item term.
   */
  lemma SideDenotesValue(cs: seq<SideCreator>, xValue: real, iconValue: IconId -> real)
    requires CreateSideNode(cs).Success?
    ensures Denote(CreateSideNode(cs).value, xValue, iconValue) == SideValue(cs, xValue, iconValue)
  {
    DenoteShown(cs, xValue, iconValue);
    SideValueParts(cs, xValue, iconValue);
  }

  /** The children after the loop add up to those of the loop, the x term and the constant. */
  lemma DenoteFinish(a: Tally, xValue: real, iconValue: IconId -> real)
    ensures Denote(Finish(a), xValue, iconValue)
      == Denote(a.children, xValue, iconValue) + a.xCoefficient * xValue + a.constantValue
  {
    DenoteWithX(a.children, a.xCoefficient, xValue, iconValue);
    DenoteWithConstant(WithX(a.children, a.xCoefficient), a.constantValue, xValue, iconValue);
    var w := WithConstant(WithX(a.children, a.xCoefficient), a.constantValue);
    if |w| == 0 {
      assert Denote([Text("0")], xValue, iconValue) == Denote([], xValue, iconValue);
    }
  }

  /** The children of a shown side add up to its item terms, its x items and its constant. */
  lemma DenoteShown(cs: seq<SideCreator>, xValue: real, iconValue: IconId -> real)
    requires CreateSideNode(cs).Success?
    ensures Denote(CreateSideNode(cs).value, xValue, iconValue)
      == TermsValue(ItemTerms(cs), xValue, iconValue) + XValue(cs, xValue) + ConstantSum(cs)
  {
    assert CreateSideNode(cs).value == Finish(Accumulate(cs).value);
    DenoteTally(Accumulate(cs).value, cs, xValue, iconValue);
  }

  /** A tally with the sums and the terms of some creators adds up to what they are worth. */
  lemma DenoteTally(a: Tally, cs: seq<SideCreator>, xValue: real, iconValue: IconId -> real)
    requires a.xCoefficient == XSum(cs) && a.constantValue == ConstantSum(cs)
    requires PlusSeparated(a.children, ItemTerms(cs))
    ensures Denote(Finish(a), xValue, iconValue)
      == TermsValue(ItemTerms(cs), xValue, iconValue) + XValue(cs, xValue) + ConstantSum(cs)
  {
    SeparatedDenotes(a.children, ItemTerms(cs), xValue, iconValue);
    DenoteFinish(a, xValue, iconValue);
    TallyXValue(a, cs, xValue);
  }

  /** The x term of a tally with the coefficient of some creators is worth what their x items are. */
  lemma TallyXValue(a: Tally, cs: seq<SideCreator>, xValue: real)
    requires a.xCoefficient == XSum(cs)
    ensures a.xCoefficient * xValue == XValue(cs, xValue)
  {
    XValueIsProduct(cs, xValue);
    MulEq(a.xCoefficient, XSum(cs), xValue);
  }

  /** What a side's creators are worth, split into the item terms, the x items and the constant. */
  lemma SideValueParts(cs: seq<SideCreator>, xValue: real, iconValue: IconId -> real)
    requires forall i :: 0 <= i < |cs| ==> !IsUnsupported(cs[i])
    ensures SideValue(cs, xValue, iconValue)
      == TermsValue(ItemTerms(cs), xValue, iconValue) + XValue(cs, xValue) + ConstantSum(cs)
  {
    SideValueSplit(cs, xValue, iconValue);
  }

  lemma MulEq(a: real, b: real, x: real)
    requires a == b
    ensures a * x == b * x
  {
  }

  lemma DenoteWithX(children: seq<Child>, xCoefficient: real, xValue: real, iconValue: IconId -> real)
    ensures Denote(WithX(children, xCoefficient), xValue, iconValue) == Denote(children, xValue, iconValue) + xCoefficient * xValue
  {
    if xCoefficient != 0.0 {
      DenoteAppendTerm(children, CreateTermNode(xCoefficient, XSymbol, true), xValue, iconValue);
    }
  }

  lemma DenoteWithConstant(children: seq<Child>, constantValue: real, xValue: real, iconValue: IconId -> real)
    requires |children| == 0 ==> Denote(children, xValue, iconValue) == 0.0
    ensures Denote(WithConstant(children, constantValue), xValue, iconValue) == Denote(children, xValue, iconValue) + constantValue
  {
    if constantValue != 0.0 {
      if |children| > 0 {
        DenoteAppendSigned(children, constantValue > 0.0, Abs(constantValue), xValue, iconValue);
      } else {
        DenoteAppendNumber(children, constantValue, xValue, iconValue);
      }
    }
  }

  /**
   * When the values match the creators (an x item weighs its coefficient times x, and an item icon weighs
   * its creator's weight), a side's value is the weight `getRelationalOperator` compares.
   */
  lemma {:induction false} SideValueIsWeight(cs: seq<SideCreator>, xValue: real, iconValue: IconId -> real)
    requires forall i :: 0 <= i < |cs| ==> !IsUnsupported(cs[i])
    requires forall i :: 0 <= i < |cs| && cs[i].kind.XKind? ==> cs[i].weight == cs[i].kind.coefficient * xValue
    requires forall i :: 0 <= i < |cs| && cs[i].kind == ConstantKind(false) ==> iconValue(cs[i].icon) == cs[i].weight
    ensures SideValue(cs, xValue, iconValue) == SideWeight(cs)
    decreases |cs|
  {
    if |cs| > 0 {
      var n := |cs| - 1;
      SideValueIsWeight(cs[..n], xValue, iconValue);
      var c := cs[n];
      if c.kind.XKind? {
        assert c.kind.coefficient * c.numberOfItemsOnScale as real * xValue
          == c.numberOfItemsOnScale as real * (c.kind.coefficient * xValue);
      }
      if c.numberOfItemsOnScale == 0 {
        assert CreatorValue(c, xValue, iconValue) == 0.0;
      }
    }
  }
}
