/**
 * The parts of the Java platform the World Wind classes lean on: references
 * that may be null, the exceptions they throw, and the double constants they
 * use. A Java double is modelled as a real.
 */
module JavaLang {
  /** A reference that may be null. */
  datatype Option<T> = None | Some(value: T)

  /** The exceptions the modelled methods throw. */
  datatype Exception =
    | IllegalArgument     // IllegalArgumentException
    | Unrecognized        // WWUnrecognizedException
    | IndexOutOfBounds    // IndexOutOfBoundsException
    | NullPointer         // NullPointerException

  /** What a call that returns a value does: return it, or throw. */
  datatype Outcome<T> = Return(value: T) | Throw(exception: Exception)

  /** What a void call does: complete, or throw. */
  datatype Status = Completed | Threw(exception: Exception)

  /** Double.MAX_VALUE, (2 - 2^-52) * 2^1023. */
  const DoubleMax: real := 179769313486231570814527423731704356798070567525844996598917476803157260780028538760589558632766878171540458953514382464234321326889464182768467546703537516986049910576551282076245490090389328944075868508455133942304583236903222948165808559332123348274797826204144723168738177180919299881250404026184124858368.0

  /** The index of the first element of s equal to x. */
  function IndexOf<T(==)>(s: seq<T>, x: T): (k: nat)
    requires x in s
    ensures k < |s| && s[k] == x && x !in s[..k]
  {
    if s[0] == x then 0
    else
      var k := 1 + IndexOf(s[1..], x);
      assert s[..k] == [s[0]] + s[1..][..k - 1];
      k
  }

  /** List.remove(Object): s without its first element equal to x; s itself when none is. */
  function RemoveFirst<T(==)>(s: seq<T>, x: T): (r: seq<T>)
    ensures x !in s ==> r == s
    ensures x in s ==> |r| == |s| - 1 && r == s[..IndexOf(s, x)] + s[IndexOf(s, x) + 1..]
  {
    if x in s then s[..IndexOf(s, x)] + s[IndexOf(s, x) + 1..] else s
  }
}
