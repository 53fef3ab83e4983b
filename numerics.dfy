/** circus::numerics::is: decides whether a byte string is a plain decimal
  * numeral (an optional leading '-', digits and at most one '.'), reporting
  * through two flags whether it is signed and whether it has a decimal
  * separator. The by-reference flags are modelled as inputs returned
  * updated: the source only ever sets them to true. */
module Numerics {
  import opened Text

  const MINUS: bv8 := 0x2d
  const DOT: bv8 := 0x2e

  /** The literal "0123456789." with its terminating NUL. */
  const DIGITS_LITERAL: seq<bv8> := [0x30, 0x31, 0x32, 0x33, 0x34, 0x35, 0x36, 0x37, 0x38, 0x39, 0x2e, 0]

  /** The outcome of is(str, s, d): the returned value and the two flags
    * after the call. */
  datatype Outcome = Outcome(numeric: bool, signed: bool, decimal: bool)

  /** str[i] for i <= size: index size reads the NUL terminator. */
  function At(str: seq<bv8>, i: nat): bv8
    requires i <= |str|
  {
    if i < |str| then str[i] else 0
  }

  /** The class searched for by first_not_of: the literal up to its NUL. */
  function Digits(): (r: seq<bv8>)
    ensures |r| == 11 && r == DIGITS_LITERAL[..11]
  {
    DIGITS_LITERAL[..TraitsLength(Some(DIGITS_LITERAL))]
  }

  function Is(str: seq<bv8>, s: bool, d: bool): Outcome
    requires |str| < NPOS
  {
    var len := |str|;
    var minus := At(str, 0) == MINUS;
    if (minus && (len == 1 || (len > 1 && str[1] == DOT))) || At(str, 0) == DOT then
      Outcome(false, s, d)
    else if FirstNotIn(str, Digits(), if minus then 1 else 0) != NPOS then
      Outcome(false, s, d)
    else
      var i := FirstIn(str, [DOT], 0);
      if i == NPOS then
        Outcome(true, s || minus, d)
      else
        FirstFromIsLeast(str, [DOT], true, 0);
        if LastIn(str, [DOT], NPOS) == i then Outcome(true, s || minus, true)
        else Outcome(false, s, d)
  }

  /** A numeral as is() accepts it: the empty string (whose first byte is
    * the terminator), or an optional '-' followed by a non-empty run of
    * digits and dots that does not start with a dot and holds at most one
    * dot. */
  predicate Numeral(str: seq<bv8>)
  {
    |str| == 0 ||
    var body := if str[0] == MINUS then str[1..] else str;
    && |body| > 0
    && body[0] != DOT
    && AllDigits(body)
    && AtMostOneDot(body)
  }

  /** Every byte is a digit or a dot. */
  predicate AllDigits(b: seq<bv8>)
  {
    forall k | 0 <= k < |b| :: b[k] in Digits()
  }

  predicate AtMostOneDot(b: seq<bv8>)
  {
    forall j, k | 0 <= j < k < |b| :: !(b[j] == DOT && b[k] == DOT)
  }

  /** The first and the last dot coincide exactly when there is at most one. */
  lemma FirstDotIsLastDot(str: seq<bv8>)
    requires 0 < |str| < NPOS
    requires FirstIn(str, [DOT], 0) != NPOS
    ensures LastIn(str, [DOT], NPOS) == FirstIn(str, [DOT], 0) <==> AtMostOneDot(str)
  {
    FirstFromIsLeast(str, [DOT], true, 0);
    LastFromIsGreatest(str, [DOT], true, |str| - 1);
    var i := FirstIn(str, [DOT], 0);
    var l := LastIn(str, [DOT], NPOS);
    assert str[i] == DOT;
    if AtMostOneDot(str) {
      assert l != NPOS && str[l] == DOT;
    } else {
      var j, k :| 0 <= j < k < |str| && str[j] == DOT && str[k] == DOT;
      assert i <= j;
      assert k <= l;
    }
  }

  /** After the sign, the bytes are all digits or dots exactly when
    * first_not_of finds nothing. */
  lemma AllDigitsIffNotFound(str: seq<bv8>, start: nat)
    requires start < |str| < NPOS
    ensures FirstNotIn(str, Digits(), start) == NPOS
        <==> forall k | start <= k < |str| :: str[k] in Digits()
  {
    FirstFromIsLeast(str, Digits(), false, start);
  }

  /** is() accepts exactly the numerals. */
  lemma IsAcceptsNumerals(str: seq<bv8>, s: bool, d: bool)
    requires |str| < NPOS
    ensures Is(str, s, d).numeric <==> Numeral(str)
  {
    if |str| > 0 {
      var minus := str[0] == MINUS;
      var start := if minus then 1 else 0;
      var body := if minus then str[1..] else str;
      if !((minus && (|str| == 1 || str[1] == DOT)) || str[0] == DOT) {
        AllDigitsIffNotFound(str, start);
        assert forall k | start <= k < |str| :: str[k] == body[k - start];
        if FirstNotIn(str, Digits(), start) == NPOS {
          assert AllDigits(body);
          FirstFromIsLeast(str, [DOT], true, 0);
          if FirstIn(str, [DOT], 0) != NPOS {
            FirstDotIsLastDot(str);
          }
          if minus {
            assert str[0] != DOT;
            assert AtMostOneDot(str) <==> AtMostOneDot(body);
          }
        } else {
          var k :| start <= k < |str| && str[k] !in Digits();
          assert body[k - start] !in Digits();
          assert !AllDigits(body);
        }
      }
    }
  }

  /** The flags: s becomes true exactly when a numeral starting with '-' is
    * accepted, d when an accepted numeral holds a dot; neither is touched
    * on rejection, and neither is ever cleared. */
  lemma IsFlags(str: seq<bv8>, s: bool, d: bool)
    requires |str| < NPOS
    ensures var r := Is(str, s, d);
            && (!r.numeric ==> r.signed == s && r.decimal == d)
            && (r.numeric ==> (r.signed <==> s || (|str| > 0 && str[0] == MINUS)))
            && (r.numeric ==> (r.decimal <==> d || DOT in str))
  {
    var r := Is(str, s, d);
    if r.numeric && |str| > 0 {
      FirstFromIsLeast(str, [DOT], true, 0);
      if DOT in str {
        var k :| 0 <= k < |str| && str[k] == DOT;
        assert FirstIn(str, [DOT], 0) <= k;
      }
    }
  }

  /** The rejected prefixes: "-" alone, "-." and "." */
  lemma RejectsBareSignAndLeadingDot(str: seq<bv8>, s: bool, d: bool)
    requires |str| < NPOS
    requires str == [MINUS] || str[..Min(2, |str|)] == [MINUS, DOT] || str[..Min(1, |str|)] == [DOT]
    ensures !Is(str, s, d).numeric
  {
    if str[..Min(2, |str|)] == [MINUS, DOT] {
      assert str[0] == MINUS && str[1] == DOT;
    } else if str[..Min(1, |str|)] == [DOT] {
      assert str[0] == DOT;
    }
  }

  /** The empty string is accepted: its first byte is the terminator. */
  lemma AcceptsEmpty(s: bool, d: bool)
    ensures Is([], s, d) == Outcome(true, s, d)
  {
  }
}
