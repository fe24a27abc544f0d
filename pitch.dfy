/**
 * The pitch arithmetic of ScoreManager.mutatePitch: diatonic steps C D E F G
 * A B, a one-step wrap into the neighbouring octave, and the conversions
 * between octave text and numbers that JavaScript's parseInt(text, 10) and
 * Number.prototype.toString perform.
 */
module Pitch {
  import opened Tree

  /** The diatonic scale, lowest step first. */
  const Steps: seq<string> := ["C", "D", "E", "F", "G", "A", "B"]

  /** Array.prototype.indexOf over Steps, from index k on: -1 when absent. */
  function IndexFrom(s: string, k: nat): (i: int)
    requires k <= |Steps|
    decreases |Steps| - k
    ensures i == -1 || (k <= i < |Steps| && Steps[i] == s)
    ensures i == -1 ==> forall j :: k <= j < |Steps| ==> Steps[j] != s
    ensures i != -1 ==> forall j :: k <= j < i ==> Steps[j] != s
  {
    if k == |Steps| then -1
    else if Steps[k] == s then k
    else IndexFrom(s, k + 1)
  }

  /** steps.indexOf(s). */
  function IndexOf(s: string): (i: int)
    ensures -1 <= i < |Steps|
    ensures i >= 0 ==> Steps[i] == s
    ensures i == -1 <==> s !in Steps
  {
    IndexFrom(s, 0)
  }

  /** The scale index a step text is read as; text outside the scale falls back to C. */
  function ScaleIndex(s: string): (i: nat)
    ensures i < |Steps|
    ensures s in Steps ==> Steps[i] == s
    ensures s !in Steps ==> i == 0
  {
    var i := IndexOf(s);
    if i == -1 then 0 else i
  }

  /**
   * The step and octave written back after shifting by direction. The wrap
   * moves at most one octave and always lands on the end of the scale: any
   * index past B becomes C an octave up, any index before C becomes B an
   * octave down, however far past it was.
   */
  function ShiftPitch(step: string, octave: int, direction: int): (r: (string, int))
    ensures r.0 in Steps
    ensures octave - 1 <= r.1 <= octave + 1
    ensures r.1 == octave + 1 <==> ScaleIndex(step) + direction > 6
    ensures r.1 == octave - 1 <==> ScaleIndex(step) + direction < 0
    ensures 0 <= ScaleIndex(step) + direction <= 6 ==> r.0 == Steps[ScaleIndex(step) + direction]
    ensures ScaleIndex(step) + direction > 6 ==> r == ("C", octave + 1)
    ensures ScaleIndex(step) + direction < 0 ==> r == ("B", octave - 1)
  {
    var stepIndex := ScaleIndex(step) + direction;
    if stepIndex > 6 then ("C", octave + 1)
    else if stepIndex < 0 then ("B", octave - 1)
    else (Steps[stepIndex], octave)
  }

  lemma StepsDistinct()
    ensures forall a, b :: 0 <= a < b < |Steps| ==> Steps[a] != Steps[b]
  {
  }

  lemma ScaleIndexOfStep(i: nat)
    requires i < |Steps|
    ensures ScaleIndex(Steps[i]) == i
  {
    StepsDistinct();
  }

  /** Up one step: C..A go to the next letter in the same octave, B goes to C an octave up. */
  lemma ShiftUpOne(i: nat, octave: int)
    requires i < |Steps|
    ensures ShiftPitch(Steps[i], octave, 1) ==
      if i < 6 then (Steps[i + 1], octave) else ("C", octave + 1)
  {
    ScaleIndexOfStep(i);
  }

  /** Down one step: D..B go to the previous letter in the same octave, C goes to B an octave down. */
  lemma ShiftDownOne(i: nat, octave: int)
    requires i < |Steps|
    ensures ShiftPitch(Steps[i], octave, -1) ==
      if i > 0 then (Steps[i - 1], octave) else ("B", octave - 1)
  {
    ScaleIndexOfStep(i);
  }

  /** A step text outside the scale is shifted as if it were C. */
  lemma UnknownStepIsC(step: string, octave: int, direction: int)
    requires step !in Steps
    ensures ShiftPitch(step, octave, direction) == ShiftPitch("C", octave, direction)
  {
    ScaleIndexOfStep(0);
  }

  /** For a step of the scale, one step up and one step down restores step and octave. */
  lemma {:induction false} UpThenDown(step: string, octave: int)
    requires step in Steps
    ensures var up := ShiftPitch(step, octave, 1);
            ShiftPitch(up.0, up.1, -1) == (step, octave)
  {
    var i := ScaleIndex(step);
    ShiftUpOne(i, octave);
    if i < 6 {
      ShiftDownOne(i + 1, octave);
    } else {
      ShiftDownOne(0, octave + 1);
    }
  }

  /** For a step of the scale, one step down and one step up restores step and octave. */
  lemma {:induction false} DownThenUp(step: string, octave: int)
    requires step in Steps
    ensures var down := ShiftPitch(step, octave, -1);
            ShiftPitch(down.0, down.1, 1) == (step, octave)
  {
    var i := ScaleIndex(step);
    ShiftDownOne(i, octave);
    if i > 0 {
      ShiftUpOne(i - 1, octave);
    } else {
      ShiftUpOne(6, octave - 1);
    }
  }

  /**
   * Two worked examples of the wrap that ShiftPitch states for every input:
   * three up from A is C an octave up, not D; three down from D is B an
   * octave down, not A.
   */
  lemma WrapIsOneStep()
    ensures ShiftPitch("A", 4, 3) == ("C", 5)
    ensures ShiftPitch("D", 4, -3) == ("B", 3)
  {
    ScaleIndexOfStep(5);
    ScaleIndexOfStep(1);
  }

  // ---------------------------------------------------------------------------
  // parseInt(text, 10) and Number.prototype.toString()

  /** The white space and line terminators that parseInt skips before the number. */
  predicate IsJsSpace(c: char)
  {
    c == '\t' || c == '\n' || c == '\U{000B}' || c == '\U{000C}' || c == '\r' || c == ' ' ||
    c == '\U{00A0}' || c == '\U{1680}' || ('\U{2000}' <= c <= '\U{200A}') ||
    c == '\U{2028}' || c == '\U{2029}' || c == '\U{202F}' || c == '\U{205F}' ||
    c == '\U{3000}' || c == '\U{FEFF}'
  }

  predicate IsDigit(c: char)
  {
    '0' <= c <= '9'
  }

  predicate AllDigits(s: string)
  {
    forall c <- s :: IsDigit(c)
  }

  function TrimStart(s: string): (t: string)
    ensures |t| <= |s| && t == s[|s| - |t|..]
    ensures t == [] || !IsJsSpace(t[0])
    ensures forall k :: 0 <= k < |s| - |t| ==> IsJsSpace(s[k])
  {
    if s != [] && IsJsSpace(s[0]) then TrimStart(s[1..]) else s
  }

  /** The length of the run of decimal digits at the start of s. */
  function LeadingDigits(s: string): (n: nat)
    ensures n <= |s| && AllDigits(s[..n])
    ensures n < |s| ==> !IsDigit(s[n])
  {
    if s == [] || !IsDigit(s[0]) then 0 else 1 + LeadingDigits(s[1..])
  }

  /** The value of a string of decimal digits, most significant first. */
  function DigitsValue(s: string): nat
    requires AllDigits(s)
  {
    if s == [] then 0
    else
      assert s[|s| - 1] in s;
      DigitsValue(s[..|s| - 1]) * 10 + (s[|s| - 1] as int - '0' as int)
  }

  /** The text after an optional leading sign. */
  function Unsigned(t: string): string
  {
    if t != [] && (t[0] == '-' || t[0] == '+') then t[1..] else t
  }

  /**
   * parseInt(s, 10): skip leading white space, take an optional sign and the
   * longest run of digits after it, and ignore the rest. None stands for NaN,
   * the result when no digit follows.
   */
  function ParseInt(s: string): (r: Option<int>)
    ensures r.None? <==> LeadingDigits(Unsigned(TrimStart(s))) == 0
    ensures r.Some? && r.value < 0 ==> TrimStart(s)[0] == '-'
  {
    var t := TrimStart(s);
    var u := Unsigned(t);
    var n := LeadingDigits(u);
    if n == 0 then None
    else
      var v: int := DigitsValue(u[..n]);
      Some(if t[0] == '-' then -v else v)
  }

  function Digit(d: nat): (c: char)
    requires d < 10
  {
    ('0' as int + d) as char
  }

  /** The decimal digits of n, without leading zeros. */
  function NatToString(n: nat): (s: string)
    ensures s != [] && AllDigits(s)
    ensures DigitsValue(s) == n
    ensures s[0] == '0' ==> n == 0
  {
    if n < 10 then [Digit(n)]
    else
      var s := NatToString(n / 10) + [Digit(n % 10)];
      assert s[..|s| - 1] == NatToString(n / 10);
      s
  }

  /**
   * Number.prototype.toString() of an integer: a minus sign exactly for a
   * negative number, then the decimal digits of its magnitude with no
   * leading zero.
   */
  function IntToString(n: int): (s: string)
    ensures s != [] && (s[0] == '-' <==> n < 0)
    ensures var digits := if n < 0 then s[1..] else s;
            && digits != [] && AllDigits(digits)
            && DigitsValue(digits) == (if n < 0 then -n else n)
            && (digits[0] == '0' ==> n == 0)
  {
    var digits := NatToString(if n < 0 then -n else n);
    assert digits[0] in digits;
    if n < 0 then "-" + digits else digits
  }

  lemma LeadingDigitsAll(s: string)
    requires AllDigits(s)
    ensures LeadingDigits(s) == |s|
  {
    if s != [] {
      LeadingDigitsAll(s[1..]);
    }
  }

  lemma ParseDigits(d: string)
    requires d != [] && AllDigits(d)
    ensures ParseInt(d) == Some(DigitsValue(d))
  {
    assert d[0] in d;
    assert TrimStart(d) == d;
    assert Unsigned(d) == d;
    LeadingDigitsAll(d);
    assert d[..|d|] == d;
  }

  lemma ParseNegativeDigits(d: string)
    requires d != [] && AllDigits(d)
    ensures ParseInt("-" + d) == Some(-(DigitsValue(d) as int))
  {
    var s := "-" + d;
    assert s[0] == '-' && s[1..] == d;
    assert !IsJsSpace(s[0]);
    assert TrimStart(s) == s;
    assert Unsigned(s) == d;
    LeadingDigitsAll(d);
    assert d[..|d|] == d;
  }

  /** parseInt reads back every integer that toString writes. */
  lemma ParseIntToString(n: int)
    ensures ParseInt(IntToString(n)) == Some(n)
  {
    if n < 0 {
      ParseNegativeDigits(NatToString(-n));
    } else {
      ParseDigits(NatToString(n));
    }
  }

  /** The octave text written back: a NaN octave stays NaN. */
  function OctaveText(o: Option<int>): (s: string)
    ensures o.None? ==> s == "NaN"
    ensures o.Some? ==> ParseInt(s) == o
  {
    match o
    case None => "NaN"
    case Some(n) => ParseIntToString(n); IntToString(n)
  }
}
