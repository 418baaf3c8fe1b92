/** What several modules share. */
module Basics {

  datatype Option<T> = None | Some(value: T)

  /** Floating-point numbers without rounding: reals, the infinities, and NaN. */
  datatype Float = NaN | NegInf | Num(value: real) | PosInf

  /** A comparison with NaN is false. */
  predicate FloatLess(a: Float, b: Float) {
    match (a, b)
    case (NaN, _) => false
    case (_, NaN) => false
    case (NegInf, _) => b != NegInf
    case (Num(x), Num(y)) => x < y
    case (Num(_), _) => b == PosInf
    case (PosInf, _) => false
  }

  /** Some element of a set that is not empty. */
  ghost function Any<T>(s: set<T>): (x: T)
    requires s != {}
    ensures x in s
  {
    var x :| x in s;
    x
  }

  lemma Assoc<T>(a: seq<T>, b: seq<T>, c: seq<T>)
    ensures a + b + c == a + (b + c)
  {
  }

  /** Nanoseconds. */
  const MINUTE: int := 60_000_000_000

  /** Rounds down to a minute, for times that are not negative. */
  function Truncated(time: int): int {
    time - time % MINUTE
  }

  predicate WholeMinutes(time: int) {
    time % MINUTE == 0
  }

  /** Truncating gives the last whole minute that is not later. */
  lemma TruncatedIsLast(time: int)
    ensures WholeMinutes(Truncated(time)) && Truncated(time) <= time
    ensures forall m :: WholeMinutes(m) && m <= time ==> m <= Truncated(time)
  {
    WholePart(time);
    forall m | WholeMinutes(m) && m <= time ensures m <= Truncated(time) {
      WholePart(m);
    }
  }

  lemma WholePart(time: int)
    ensures Truncated(time) == time / MINUTE * MINUTE
    ensures WholeMinutes(Truncated(time))
  {
  }

  /** Comparing floating-point numbers: nothing is less or greater than NaN, numbers compare as such
      and lie between the infinities. */
  lemma FloatsCompare(a: Float, b: Float, c: Float)
    ensures a == NaN || b == NaN ==> !FloatLess(a, b)
    ensures a.Num? && b.Num? ==> (FloatLess(a, b) <==> a.value < b.value)
    ensures a != NaN && b != NaN && a != b ==> FloatLess(a, b) != FloatLess(b, a)
    ensures !FloatLess(a, a) && (FloatLess(a, b) && FloatLess(b, c) ==> FloatLess(a, c))
    ensures a.Num? ==> FloatLess(NegInf, a) && FloatLess(a, PosInf)
  {
  }

  lemma {:induction false} SubsetSize<T>(a: set<T>, b: set<T>)
    requires a <= b
    ensures |a| <= |b|
    ensures |a| == |b| ==> a == b
  {
    if a != {} {
      var x :| x in a;
      SubsetSize(a - {x}, b - {x});
    }
  }
}
