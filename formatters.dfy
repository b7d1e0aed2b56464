/**
 * The custom math functions of src/index.js that call no library:
 * `toChar` (with its upper/lower-case variants), `sign` and `signed`,
 * modelled on integers.
 */
module Formatters {
  import opened Options

  /** A value the math engine passes around: a number or a string. */
  datatype Scalar = Num(n: int) | Str(s: string)

  /** `'ABCDEFGHIJKLMNOPQRSTUVWXYZ'[d]` */
  function Letter(d: int): (c: char)
    requires 0 <= d < 26
    ensures 'A' <= c <= 'Z' && c as int - 'A' as int == d
  {
    ('A' as int + d) as char
  }

  predicate IsUpperWord(s: string) {
    forall k :: 0 <= k < |s| ==> 'A' <= s[k] <= 'Z'
  }

  /** `genChars`: the bijective base-26 numeral of `i` (1 is A, 26 is Z, 27 is AA). */
  function GenChars(i: int): (r: string)
    requires i >= 1
    ensures |r| >= 1 && IsUpperWord(r)
    decreases i
  {
    (if i > 26 then GenChars((i - 1) / 26) else "") + [Letter((i - 1) % 26)]
  }

  /** `toChar`: non-positive numbers come back unchanged, others as their letter label. */
  function ToChar(a: int): (r: Scalar)
    ensures a <= 0 <==> r == Num(a)
  {
    if a <= 0 then Num(a) else Str(GenChars(a))
  }

  /**
   * `toCharUpper`: `toChar(a).toUpperCase()`. For `a <= 0` that is a number, which
   * has no `toUpperCase`, so evaluation fails; letter labels are upper case already.
   */
  function ToCharUpper(a: int): (r: Option<string>)
    ensures r.None? <==> a <= 0
    ensures r.Some? ==> ToChar(a) == Str(r.value)
  {
    if a <= 0 then None else Some(GenChars(a))
  }

  function LowerLetter(c: char): char {
    if 'A' <= c <= 'Z' then (c as int + 32) as char else c
  }

  /** `toCharLower`: `toChar(a).toLowerCase()`, failing like ToCharUpper for `a <= 0`. */
  function ToCharLower(a: int): (r: Option<string>)
    ensures r.None? <==> a <= 0
    ensures r.Some? ==> |r.value| == |ToChar(a).s| && forall k :: 0 <= k < |r.value| ==> 'a' <= r.value[k] <= 'z'
    ensures r.Some? ==> forall k :: 0 <= k < |r.value| ==> r.value[k] as int == ToChar(a).s[k] as int + 32
  {
    if a <= 0 then None else Some(seq(|GenChars(a)|, k requires 0 <= k < |GenChars(a)| => LowerLetter(GenChars(a)[k])))
  }

  /** The value of a bijective base-26 numeral: the inverse of GenChars. */
  function LabelValue(s: string): int
    requires IsUpperWord(s)
  {
    if s == [] then 0 else LabelValue(s[..|s| - 1]) * 26 + (s[|s| - 1] as int - 'A' as int + 1)
  }

  lemma {:induction false} LabelValuePositive(s: string)
    requires IsUpperWord(s) && s != []
    ensures LabelValue(s) >= 1
    decreases |s|
  {
    if |s| > 1 {
      LabelValuePositive(s[..|s| - 1]);
    }
  }

  /** Decoding the label of `i` gives `i` back. */
  lemma {:induction false} GenCharsDecodes(i: int)
    requires i >= 1
    ensures LabelValue(GenChars(i)) == i
    decreases i
  {
    var r := GenChars(i);
    assert r[..|r| - 1] == if i > 26 then GenChars((i - 1) / 26) else "";
    if i > 26 {
      GenCharsDecodes((i - 1) / 26);
    }
  }

  /** Every non-empty word over A-Z is the label of exactly the number it denotes. */
  lemma {:induction false} GenCharsOfValue(s: string)
    requires IsUpperWord(s) && s != []
    ensures LabelValue(s) >= 1 && GenChars(LabelValue(s)) == s
    decreases |s|
  {
    var p := s[..|s| - 1];
    LastSplit(s);
    if p == [] {
      LabelOfLetter(s[0]);
    } else {
      GenCharsOfValue(p);
      LabelAppend(p, s[|s| - 1]);
    }
  }

  /** A single letter is the label of its position in the alphabet. */
  lemma LabelOfLetter(c: char)
    requires 'A' <= c <= 'Z'
    ensures LabelValue([c]) >= 1 && GenChars(LabelValue([c])) == [c]
  {
    var d := c as int - 'A' as int;
    assert [c][..0] == [];
    assert LabelValue([c]) == d + 1;
    assert Letter(d) == c;
  }

  /** A letter appended to a label appends its digit to the number. */
  lemma LabelAppend(p: string, c: char)
    requires IsUpperWord(p) && p != [] && 'A' <= c <= 'Z'
    requires LabelValue(p) >= 1 && GenChars(LabelValue(p)) == p
    ensures IsUpperWord(p + [c])
    ensures LabelValue(p + [c]) >= 1 && GenChars(LabelValue(p + [c])) == p + [c]
  {
    var t := p + [c];
    var d := c as int - 'A' as int;
    assert IsUpperWord(t) by {
      forall k | 0 <= k < |t|
        ensures 'A' <= t[k] <= 'Z'
      {
        if k < |p| {
          assert t[k] == p[k];
        }
      }
    }
    assert t[..|t| - 1] == p && t[|t| - 1] == c;
    assert LabelValue(t) == LabelValue(p) * 26 + d + 1;
    assert Letter(d) == c;
    GenCharsStep(LabelValue(p), d);
  }

  lemma LastSplit<T>(s: seq<T>)
    requires s != []
    ensures s == s[..|s| - 1] + [s[|s| - 1]]
  {
  }

  /** The label of a number with higher part `q` and last digit `d` is the label of `q`, then `d`'s letter. */
  lemma GenCharsStep(q: int, d: int)
    requires q >= 1 && 0 <= d < 26
    ensures GenChars(q * 26 + d + 1) == GenChars(q) + [Letter(d)]
  {
    var v := q * 26 + d + 1;
    assert v > 26;
    assert (v - 1) / 26 == q && (v - 1) % 26 == d;
  }

  /** The test values: 18 is R and 39 is AM. */
  lemma ToCharSamples()
    ensures ToChar(18) == Str("R") && ToChar(39) == Str("AM") && ToChar(27) == Str("AA")
    ensures ToChar(26) == Str("Z") && ToChar(0) == Num(0)
  {
    assert GenChars(1) == "A";
    assert GenChars(39) == GenChars(1) + [Letter(12)];
    assert GenChars(27) == GenChars(1) + [Letter(0)];
  }

  /** `sign`: "+" for non-negative numbers, "-" otherwise. */
  function Sign(a: int): (r: string)
    ensures |r| == 1 && (r[0] == '+' <==> a >= 0) && (r[0] == '-' <==> a < 0)
  {
    if a >= 0 then "+" else "-"
  }

  /** The decimal digits of a natural number, as `${n}` prints it. */
  function Digits(n: nat): (r: string)
    ensures |r| >= 1 && forall k :: 0 <= k < |r| ==> '0' <= r[k] <= '9'
  {
    if n < 10 then [('0' as int + n) as char] else Digits(n / 10) + [('0' as int + n % 10) as char]
  }

  /** `${a}` for an integer. */
  function IntToString(a: int): string {
    if a < 0 then "-" + Digits(-a) else Digits(a)
  }

  /** `signed`: the number with an explicit "+" when non-negative. */
  function Signed(a: int): (r: string)
    ensures r == Sign(a) + Digits(if a < 0 then -a else a)
  {
    if a >= 0 then "+" + IntToString(a) else IntToString(a)
  }

  predicate IsDigits(s: string) {
    forall k :: 0 <= k < |s| ==> '0' <= s[k] <= '9'
  }

  function DigitsValue(s: string): nat
    requires IsDigits(s)
  {
    if s == [] then 0 else DigitsValue(s[..|s| - 1]) * 10 + (s[|s| - 1] as int - '0' as int)
  }

  lemma {:induction false} DigitsDecode(n: nat)
    ensures DigitsValue(Digits(n)) == n
  {
    var r := Digits(n);
    if n >= 10 {
      assert r[..|r| - 1] == Digits(n / 10);
      DigitsDecode(n / 10);
    }
  }

  /** Reads back a string of the form Signed produces. */
  function ParseSigned(s: string): int
    requires |s| >= 2 && (s[0] == '+' || s[0] == '-') && IsDigits(s[1..])
  {
    var v: int := DigitsValue(s[1..]); if s[0] == '+' then v else -v
  }

  /** `signed` loses nothing: its output reads back as the input. */
  lemma SignedRoundTrip(a: int)
    ensures var r := Signed(a); |r| >= 2 && (r[0] == '+' || r[0] == '-') && IsDigits(r[1..]) && ParseSigned(r) == a
  {
    var d := Digits(if a < 0 then -a else a);
    assert Signed(a)[1..] == d;
    DigitsDecode(if a < 0 then -a else a);
  }
}
