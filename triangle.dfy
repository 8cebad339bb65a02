/**
 * A pair of legs of a right triangle: a value type whose legs must stay
 * positive, with component-wise arithmetic, in-place variants that update
 * the object, an order by hypotenuse and a three-element container view
 * (first leg, second leg, hypotenuse).
 *
 * Legs are reals. The hypotenuse is never computed as a square root: it is
 * kept symbolically as the root of the sum of the squares of the legs.
 */
module Triangle {
  import opened Wrappers

  datatype Error = NonPositiveLeg | DivisionByZero | IndexOutOfRange

  /** The least value subtraction leaves in a leg. */
  const MinLeg: real := 0.1

  /** `max(0.1, x)`. */
  function Clamp(x: real): (r: real)
    ensures r >= MinLeg && r >= x
    ensures r == x || r == MinLeg
  {
    if MinLeg >= x then MinLeg else x
  }

  // ---------------------------------------------------------------------------
  // Lengths given exactly or as a square root

  /** A length: a real given exactly, or the non-negative square root of `square`. */
  datatype Magnitude = Exact(value: real) | Root(square: real)

  /** `x` is the number that `m` stands for. */
  predicate Denotes(m: Magnitude, x: real)
  {
    match m
    case Exact(v) => x == v
    case Root(s) => x >= 0.0 && x * x == s
  }

  /** A positive number times `k` is positive exactly when `k` is. */
  lemma ProductSign(x: real, k: real)
    requires x > 0.0
    ensures x * k > 0.0 <==> k > 0.0
  {
    if k <= 0.0 {
      assert x * k == -(x * -k);
      assert x * -k >= 0.0;
    }
  }

  lemma SquareMonotone(x: real, y: real)
    requires 0.0 <= x && 0.0 <= y
    ensures x < y <==> x * x < y * y
  {
    assert y * y - x * x == (y - x) * (y + x);
    if x < y {
      ProductSign(y + x, y - x);
    } else if x + y > 0.0 {
      ProductSign(x + y, x - y);
    }
  }

  /** A square root denotes at most one number. */
  lemma RootUnique(s: real, x: real, y: real)
    requires Denotes(Root(s), x) && Denotes(Root(s), y)
    ensures x == y
  {
    SquareMonotone(x, y);
    SquareMonotone(y, x);
  }

  // ---------------------------------------------------------------------------
  // Pairs of legs as values

  datatype Legs = Legs(first: real, second: real)

  predicate Positive(l: Legs)
  {
    l.first > 0.0 && l.second > 0.0
  }

  /** The square of the hypotenuse, which is never negative. */
  function HypotenuseSquared(l: Legs): (r: real)
    ensures r >= 0.0
  {
    l.first * l.first + l.second * l.second
  }

  /**
   * Comparing the squares of two hypotenuses orders them as comparing the
   * hypotenuses themselves would.
   */
  lemma HypotenuseOrder(a: Legs, b: Legs)
    ensures forall ha, hb ::
      Denotes(Root(HypotenuseSquared(a)), ha) && Denotes(Root(HypotenuseSquared(b)), hb) ==>
        (ha < hb <==> HypotenuseSquared(a) < HypotenuseSquared(b)) &&
        (ha <= hb <==> HypotenuseSquared(a) <= HypotenuseSquared(b))
  {
    forall ha, hb |
      Denotes(Root(HypotenuseSquared(a)), ha) && Denotes(Root(HypotenuseSquared(b)), hb)
      ensures ha < hb <==> HypotenuseSquared(a) < HypotenuseSquared(b)
      ensures ha <= hb <==> HypotenuseSquared(a) <= HypotenuseSquared(b)
    {
      SquareMonotone(ha, hb);
      SquareMonotone(hb, ha);
    }
  }

  /**
   * Swapping two different legs gives a different pair with the same
   * hypotenuse: then neither is below the other, yet they are not equal.
   */
  lemma OrderIgnoresOrientation(l: Legs)
    requires l.first != l.second
    ensures Legs(l.second, l.first) != l
    ensures HypotenuseSquared(Legs(l.second, l.first)) == HypotenuseSquared(l)
  {
  }

  /** Building a pair through the leg setters: a leg that is not positive is refused. */
  function Validated(first: real, second: real): (r: Result<Legs, Error>)
    ensures r.Success? <==> first > 0.0 && second > 0.0
    ensures r.Success? ==> Positive(r.value) && r.value.first == first && r.value.second == second
    ensures r.Failure? ==> r.error == NonPositiveLeg
  {
    if first <= 0.0 || second <= 0.0 then Failure(NonPositiveLeg) else Success(Legs(first, second))
  }

  /** `a + b`, component-wise; it never fails on positive legs. */
  function Sum(a: Legs, b: Legs): (r: Legs)
    ensures Positive(a) && Positive(b) ==> Positive(r) && r.first > a.first && r.second > a.second
    ensures Positive(a) && Positive(b) ==> Validated(r.first, r.second) == Success(r)
  {
    Legs(a.first + b.first, a.second + b.second)
  }

  /** `a - b`, component-wise, each leg raised to at least MinLeg so that it never fails. */
  function Difference(a: Legs, b: Legs): (r: Legs)
    ensures r.first >= MinLeg && r.second >= MinLeg
    ensures r.first >= a.first - b.first && r.second >= a.second - b.second
    ensures Validated(r.first, r.second) == Success(r)
  {
    Legs(Clamp(a.first - b.first), Clamp(a.second - b.second))
  }

  /** `k - a` for a number `k`, each leg raised to at least MinLeg. */
  function ReverseDifference(k: real, a: Legs): (r: Legs)
    ensures r.first >= MinLeg && r.second >= MinLeg
    ensures r.first >= k - a.first && r.second >= k - a.second
    ensures Validated(r.first, r.second) == Success(r)
  {
    Legs(Clamp(k - a.first), Clamp(k - a.second))
  }

  /** `a * k`: fails, through the setters, unless the factor is positive. */
  function Scaled(a: Legs, k: real): (r: Result<Legs, Error>)
    ensures Positive(a) ==> (r.Success? <==> k > 0.0)
    ensures r.Success? ==> Positive(r.value) && r.value == Legs(a.first * k, a.second * k)
    ensures r.Failure? ==> r.error == NonPositiveLeg
  {
    if Positive(a) then
      ProductSign(a.first, k);
      ProductSign(a.second, k);
      Validated(a.first * k, a.second * k)
    else
      Validated(a.first * k, a.second * k)
  }

  /** The two outcomes of scaling a pair of positive legs. */
  lemma ScaledCases(a: Legs, k: real)
    requires Positive(a)
    ensures k > 0.0 ==> Scaled(a, k) == Success(Legs(a.first * k, a.second * k))
    ensures k <= 0.0 ==> Scaled(a, k) == Failure(NonPositiveLeg)
    ensures k > 0.0 <==> a.first * k > 0.0
    ensures k > 0.0 <==> a.second * k > 0.0
  {
    ProductSign(a.first, k);
    ProductSign(a.second, k);
    var r := Scaled(a, k);
    if k > 0.0 {
      assert r.Success?;
      assert r.value == Legs(a.first * k, a.second * k);
      assert r == Success(r.value);
    }
  }

  /** `a / k`: division by zero is its own error; a negative divisor fails through the setters. */
  function Divided(a: Legs, k: real): (r: Result<Legs, Error>)
    ensures k == 0.0 ==> r == Failure(DivisionByZero)
    ensures Positive(a) && k != 0.0 ==> (r.Success? <==> k > 0.0)
    ensures Positive(a) && k < 0.0 ==> r == Failure(NonPositiveLeg)
    ensures r.Success? ==> Positive(r.value) && r.value.first * k == a.first && r.value.second * k == a.second
  {
    if k == 0.0 then Failure(DivisionByZero) else Validated(a.first / k, a.second / k)
  }

  /** Dividing by a positive factor undoes multiplying by it. */
  lemma DivideUndoesScale(a: Legs, k: real)
    requires Positive(a) && k > 0.0
    ensures Scaled(a, k).Success? && Divided(Scaled(a, k).value, k) == Success(a)
  {
    var b := Scaled(a, k).value;
    assert b.first / k == a.first && b.second / k == a.second;
  }

  /** Subtracting what was added gives the original pair back, unless a leg is below MinLeg. */
  lemma SubtractUndoesAdd(a: Legs, b: Legs)
    requires a.first >= MinLeg && a.second >= MinLeg
    ensures Difference(Sum(a, b), b) == a
  {
  }

  // ---------------------------------------------------------------------------
  // The object

  class RightTrianglePair {
    var first: real
    var second: real

    /** Both legs are positive. */
    ghost predicate Valid()
      reads this
    {
      first > 0.0 && second > 0.0
    }

    function AsLegs(): Legs
      reads this
    {
      Legs(first, second)
    }

    /** `RightTrianglePair()`: both legs default to 1. */
    constructor ()
      ensures Valid() && first == 1.0 && second == 1.0
    {
      first := 1.0;
      second := 1.0;
    }

    /** The `first` setter: a leg that is not positive is refused and nothing changes. */
    method SetFirst(value: real) returns (o: Outcome<Error>)
      modifies this
      ensures o.Pass? <==> value > 0.0
      ensures o.Pass? ==> first == value
      ensures old(Valid()) ==> Valid()
      ensures o.Fail? ==> o.error == NonPositiveLeg && first == old(first)
      ensures second == old(second)
    {
      if value <= 0.0 {
        return Fail(NonPositiveLeg);
      }
      first := value;
      o := Pass;
    }

    /** The `second` setter: a leg that is not positive is refused and nothing changes. */
    method SetSecond(value: real) returns (o: Outcome<Error>)
      modifies this
      ensures o.Pass? <==> value > 0.0
      ensures o.Pass? ==> second == value
      ensures old(Valid()) ==> Valid()
      ensures o.Fail? ==> o.error == NonPositiveLeg && second == old(second)
      ensures first == old(first)
    {
      if value <= 0.0 {
        return Fail(NonPositiveLeg);
      }
      second := value;
      o := Pass;
    }

    /** `RightTrianglePair(first, second)`: both legs are assigned through their setters, first leg first. */
    static method Create(first: real, second: real) returns (r: Result<RightTrianglePair, Error>)
      ensures r.Success? <==> Validated(first, second).Success?
      ensures r.Success? ==> fresh(r.value) && r.value.Valid() && r.value.AsLegs() == Legs(first, second)
      ensures r.Failure? ==> r.error == NonPositiveLeg
    {
      var t := new RightTrianglePair();
      var o := t.SetFirst(first);
      if o.Fail? {
        return Failure(o.error);
      }
      o := t.SetSecond(second);
      if o.Fail? {
        return Failure(o.error);
      }
      return Success(t);
    }

    /** Equal when both legs are equal. */
    function Eq(other: RightTrianglePair): (r: bool)
      reads this, other
      ensures r <==> AsLegs() == other.AsLegs()
    {
      first == other.first && second == other.second
    }

    /** The exact negation of `Eq`. */
    function Ne(other: RightTrianglePair): (r: bool)
      reads this, other
      ensures r <==> AsLegs() != other.AsLegs()
    {
      !Eq(other)
    }

    /** The hypotenuse: the non-negative number whose square is the sum of the squares of the legs. */
    function Hypotenuse(): (h: Magnitude)
      reads this
      ensures forall x :: Denotes(h, x) <==> x >= 0.0 && x * x == first * first + second * second
    {
      Root(HypotenuseSquared(AsLegs()))
    }

    /** The hypotenuse of this pair is shorter than the other's. */
    function Lt(other: RightTrianglePair): (r: bool)
      reads this, other
      ensures forall h, k :: Denotes(Hypotenuse(), h) && Denotes(other.Hypotenuse(), k) ==> (r <==> h < k)
    {
      HypotenuseOrder(AsLegs(), other.AsLegs());
      HypotenuseSquared(AsLegs()) < HypotenuseSquared(other.AsLegs())
    }

    /** The hypotenuse of this pair is not longer than the other's. */
    function Le(other: RightTrianglePair): (r: bool)
      reads this, other
      ensures forall h, k :: Denotes(Hypotenuse(), h) && Denotes(other.Hypotenuse(), k) ==> (r <==> h <= k)
    {
      HypotenuseOrder(AsLegs(), other.AsLegs());
      HypotenuseSquared(AsLegs()) <= HypotenuseSquared(other.AsLegs())
    }

    /** The hypotenuse of this pair is longer than the other's. */
    function Gt(other: RightTrianglePair): (r: bool)
      reads this, other
      ensures forall h, k :: Denotes(Hypotenuse(), h) && Denotes(other.Hypotenuse(), k) ==> (r <==> h > k)
    {
      HypotenuseOrder(other.AsLegs(), AsLegs());
      HypotenuseSquared(AsLegs()) > HypotenuseSquared(other.AsLegs())
    }

    /** The hypotenuse of this pair is not shorter than the other's. */
    function Ge(other: RightTrianglePair): (r: bool)
      reads this, other
      ensures forall h, k :: Denotes(Hypotenuse(), h) && Denotes(other.Hypotenuse(), k) ==> (r <==> h >= k)
    {
      HypotenuseOrder(other.AsLegs(), AsLegs());
      HypotenuseSquared(AsLegs()) >= HypotenuseSquared(other.AsLegs())
    }

    /** `a + b`: a new pair with the component-wise sums. */
    method Add(other: RightTrianglePair) returns (r: RightTrianglePair)
      requires Valid() && other.Valid()
      ensures fresh(r) && r.Valid()
      ensures r.AsLegs() == Sum(AsLegs(), other.AsLegs())
    {
      var c := Create(first + other.first, second + other.second);
      r := c.value;
    }

    /** `a - b`: a new pair with the component-wise differences, each at least MinLeg. */
    method Sub(other: RightTrianglePair) returns (r: RightTrianglePair)
      ensures fresh(r) && r.Valid()
      ensures r.AsLegs() == Difference(AsLegs(), other.AsLegs())
    {
      var c := Create(Clamp(first - other.first), Clamp(second - other.second));
      r := c.value;
    }

    /** `k - a` for a number `k`: each leg of the new pair is `max(0.1, k - leg)`. */
    method ReverseSub(k: real) returns (r: RightTrianglePair)
      ensures fresh(r) && r.Valid()
      ensures r.AsLegs() == ReverseDifference(k, AsLegs())
    {
      var c := Create(Clamp(k - first), Clamp(k - second));
      r := c.value;
    }

    /** `a * k`: a new pair with both legs multiplied; a factor that is not positive is refused. */
    method Mul(k: real) returns (r: Result<RightTrianglePair, Error>)
      requires Valid()
      ensures r.Success? <==> k > 0.0
      ensures r.Success? ==> fresh(r.value) && r.value.Valid() && Scaled(AsLegs(), k) == Success(r.value.AsLegs())
      ensures r.Failure? ==> Scaled(AsLegs(), k) == Failure(r.error)
    {
      ghost var a := AsLegs();
      assert a.first == first && a.second == second;
      ScaledCases(a, k);
      r := Create(first * k, second * k);
      assert r.Success? ==> r.value.AsLegs() == Legs(a.first * k, a.second * k);
    }

    /** `a / k`: a new pair with both legs divided; zero and negative divisors are refused. */
    method Div(k: real) returns (r: Result<RightTrianglePair, Error>)
      requires Valid()
      ensures r.Success? <==> k > 0.0
      ensures r.Success? ==> fresh(r.value) && r.value.Valid() && Divided(AsLegs(), k) == Success(r.value.AsLegs())
      ensures r.Failure? ==> Divided(AsLegs(), k) == Failure(r.error)
    {
      if k == 0.0 {
        return Failure(DivisionByZero);
      }
      r := Create(first / k, second / k);
    }

    /** `a += b`: both legs grow by the other's, through the setters. */
    method AddInPlace(other: RightTrianglePair)
      requires Valid() && other.Valid()
      modifies this
      ensures Valid()
      ensures AsLegs() == Sum(old(AsLegs()), old(other.AsLegs()))
    {
      var _ := SetFirst(first + other.first);
      var _ := SetSecond(second + other.second);
    }

    /** `a -= b`: each leg becomes `max(0.1, leg - other's leg)`, through the setters. */
    method SubInPlace(other: RightTrianglePair)
      modifies this
      ensures Valid()
      ensures AsLegs() == Difference(old(AsLegs()), old(other.AsLegs()))
    {
      var _ := SetFirst(Clamp(first - other.first));
      var _ := SetSecond(Clamp(second - other.second));
    }

    /** `a *= k`: a factor that is not positive is refused by the first leg's setter and nothing changes. */
    method MulInPlace(k: real) returns (o: Outcome<Error>)
      requires Valid()
      modifies this
      ensures Valid()
      ensures o.Pass? <==> k > 0.0
      ensures o.Pass? ==> Scaled(old(AsLegs()), k) == Success(AsLegs())
      ensures o.Fail? ==> Scaled(old(AsLegs()), k) == Failure(o.error) && AsLegs() == old(AsLegs())
    {
      ghost var a := AsLegs();
      assert a.first == first && a.second == second;
      ScaledCases(a, k);
      o := SetFirst(first * k);
      if o.Pass? {
        o := SetSecond(second * k);
        assert o.Pass? ==> AsLegs() == Legs(a.first * k, a.second * k);
      }
    }

    /** `a /= k`: zero is refused before anything changes, a negative divisor by the first leg's setter. */
    method DivInPlace(k: real) returns (o: Outcome<Error>)
      requires Valid()
      modifies this
      ensures Valid()
      ensures o.Pass? <==> k > 0.0
      ensures o.Pass? ==> Divided(old(AsLegs()), k) == Success(AsLegs())
      ensures o.Fail? ==> Divided(old(AsLegs()), k) == Failure(o.error) && AsLegs() == old(AsLegs())
    {
      if k == 0.0 {
        return Fail(DivisionByZero);
      }
      o := SetFirst(first / k);
      if o.Pass? {
        o := SetSecond(second / k);
      }
    }

    /** Truthiness: every pair whose legs are positive is true. */
    function ToBool(): (r: bool)
      reads this
      ensures r <==> Valid()
    {
      first > 0.0 && second > 0.0
    }

    /** What iteration yields: first leg, second leg, hypotenuse. */
    function Elements(): (s: seq<Magnitude>)
      reads this
      ensures |s| == 3
      ensures Denotes(s[0], first) && Denotes(s[1], second)
      ensures forall x :: Denotes(s[2], x) <==> x >= 0.0 && x * x == first * first + second * second
    {
      [Exact(first), Exact(second), Hypotenuse()]
    }

    /** Index 0, 1 or 2 gives the first leg, the second leg or the hypotenuse; any other index is an error. */
    function GetItem(index: int): (r: Result<Magnitude, Error>)
      reads this
      ensures r.Success? <==> 0 <= index < 3
      ensures r.Success? ==> r.value == Elements()[index]
      ensures r.Failure? ==> r.error == IndexOutOfRange
    {
      if index == 0 then Success(Exact(first))
      else if index == 1 then Success(Exact(second))
      else if index == 2 then Success(Hypotenuse())
      else Failure(IndexOutOfRange)
    }

    /** The container view always has three elements. */
    function Len(): (n: nat)
      reads this
      ensures n == |Elements()|
    {
      3
    }

    /** `item` equals the first leg, the second leg or the hypotenuse. */
    function Contains(item: real): (r: bool)
      reads this
      ensures r <==> exists i :: 0 <= i < |Elements()| && Denotes(Elements()[i], item)
    {
      assert Elements()[0] == Exact(first) && Elements()[1] == Exact(second);
      assert Elements()[2] == Hypotenuse();
      item == first || item == second || Denotes(Hypotenuse(), item)
    }
  }

  /**
   * The order by hypotenuse is total: `>` and `>=` are `<` and `<=` with the
   * operands swapped, `<=` is the negation of `>`, and of `<`, `>` and equal
   * hypotenuses exactly one holds.
   */
  lemma ComparisonsAgree(a: RightTrianglePair, b: RightTrianglePair)
    ensures a.Gt(b) <==> b.Lt(a)
    ensures a.Ge(b) <==> b.Le(a)
    ensures a.Le(b) <==> !a.Gt(b)
    ensures a.Lt(b) <==> !a.Ge(b)
    ensures a.Le(b) && a.Ge(b) <==> a.Hypotenuse() == b.Hypotenuse()
  {
  }

  /** `make_right_triangle_pair(first, second)`. */
  method MakeRightTrianglePair(first: real, second: real) returns (r: Result<RightTrianglePair, Error>)
    ensures r.Success? <==> first > 0.0 && second > 0.0
    ensures r.Success? ==> fresh(r.value) && r.value.Valid() && r.value.first == first && r.value.second == second
    ensures r.Failure? ==> r.error == NonPositiveLeg
  {
    r := RightTrianglePair.Create(first, second);
  }
}
