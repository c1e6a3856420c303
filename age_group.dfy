/**
 * `convert_age_group`: the lower bound of an age-band label such as "15-19세".
 * The source takes the first match of the regular expression `\d+` in the
 * label's text and converts it with `int`; a missing cell, or a text without
 * any digit, gives `None`.
 */
module AgeGroup {
  import opened Wrappers

  /** A table cell as `convert_age_group` sees it: missing (NaN, None), or a
      value whose `str()` is the given text. */
  datatype Cell = Missing | Text(s: string)

  predicate IsDigit(c: char) {
    '0' <= c <= '9'
  }

  function DigitValue(c: char): (d: nat)
    requires IsDigit(c)
    ensures d < 10
  {
    c as int - '0' as int
  }

  predicate NoDigits(s: string) {
    forall k :: 0 <= k < |s| ==> !IsDigit(s[k])
  }

  predicate AllDigits(s: string) {
    forall k :: 0 <= k < |s| ==> IsDigit(s[k])
  }

  function Pow10(n: nat): (p: nat)
  {
    if n == 0 then 1 else 10 * Pow10(n - 1)
  }

  /** The number a decimal numeral denotes: its leading digit weighs
      10^(|d| - 1), the rest is read the same way. */
  function Value(d: string): (v: nat)
    requires AllDigits(d)
  {
    if d == [] then 0 else DigitValue(d[0]) * Pow10(|d| - 1) + Value(d[1..])
  }

  /** `s[i..j]` is the first maximal run of digits in `s`, which is what
      `re.findall(r'\d+', s)[0]` returns. */
  ghost predicate IsFirstRun(s: string, i: int, j: int) {
    && 0 <= i < j <= |s|
    && NoDigits(s[..i])
    && AllDigits(s[i..j])
    && (j == |s| || !IsDigit(s[j]))
  }

  /** `v` is the value of the first maximal run of digits in `s`. */
  ghost predicate IsFirstRunValue(s: string, v: nat) {
    exists i, j :: IsFirstRun(s, i, j) && v == Value(s[i..j])
  }

  /** The length of the run of digits that starts `s`. */
  function DigitRun(s: string): (n: nat)
    ensures n <= |s|
    ensures AllDigits(s[..n])
    ensures n == |s| || !IsDigit(s[n])
  {
    if s != [] && IsDigit(s[0]) then
      var n := 1 + DigitRun(s[1..]);
      assert s[..n] == [s[0]] + s[1..][..n - 1];
      n
    else 0
  }

  /** Reads the digits of `d` from left to right into `acc`, as `int` does;
      this computes the positional value, shifted past what `acc` held. */
  function ReadDigits(d: string, acc: nat): (r: nat)
    requires AllDigits(d)
    ensures r == acc * Pow10(|d|) + Value(d)
  {
    if d == [] then acc
    else
      var v := DigitValue(d[0]);
      Distribute(acc, v, Pow10(|d| - 1));
      ReadDigits(d[1..], 10 * acc + v)
  }

  /** The value of the first run of digits in `s`; None exactly when `s`
      has no digit. */
  function FirstNumber(s: string): (r: Option<nat>)
    ensures r == None <==> NoDigits(s)
  {
    if s == [] then None
    else if IsDigit(s[0]) then Some(ReadDigits(s[..DigitRun(s)], 0))
    else
      assert forall k :: 0 < k < |s| ==> s[k] == s[1..][k - 1];
      FirstNumber(s[1..])
  }

  /** The model of `convert_age_group`. */
  function ConvertAgeGroup(cell: Cell): (r: Option<nat>)
    ensures cell.Missing? ==> r == None
    ensures cell.Text? ==> (r == None <==> NoDigits(cell.s))
    ensures cell.Text? && r.Some? ==> IsFirstRunValue(cell.s, r.value)
  {
    match cell
    case Missing => None
    case Text(s) =>
      FirstNumberCorrect(s);
      FirstNumber(s)
  }

  lemma FirstNumberCorrect(s: string)
    ensures FirstNumber(s) == None <==> NoDigits(s)
    ensures FirstNumber(s).Some? ==> IsFirstRunValue(s, FirstNumber(s).value)
  {
    if !NoDigits(s) {
      var i, j := FirstRunExists(s);
      FirstNumberOfRun(s, i, j);
    }
  }

  lemma Distribute(a: nat, b: nat, c: nat)
    ensures (10 * a + b) * c == a * (10 * c) + b * c
  {
  }

  /** A run of digits ended by a non-digit (or by the end of the text) is
      read whole and no further. */
  lemma {:induction false} DigitRunOf(d: string, q: string)
    requires AllDigits(d)
    requires q == [] || !IsDigit(q[0])
    ensures DigitRun(d + q) == |d|
  {
    if d == [] {
      assert d + q == q;
    } else {
      assert (d + q)[0] == d[0];
      assert (d + q)[1..] == d[1..] + q;
      DigitRunOf(d[1..], q);
    }
  }

  /** Leading text without digits, then a run `d`, then anything that does
      not continue the run: the number is the value of `d`. */
  lemma {:induction false} FirstNumberOfSplit(p: string, d: string, q: string)
    requires NoDigits(p)
    requires d != [] && AllDigits(d)
    requires q == [] || !IsDigit(q[0])
    ensures FirstNumber(p + d + q) == Some(Value(d))
  {
    var s := p + d + q;
    if p == [] {
      assert s == d + q;
      DigitRunOf(d, q);
      assert s[..|d|] == d;
    } else {
      assert s[0] == p[0];
      assert s[1..] == p[1..] + d + q;
      FirstNumberOfSplit(p[1..], d, q);
    }
  }

  /** Whatever first run a text has, the number is its value. */
  lemma FirstNumberOfRun(s: string, i: int, j: int)
    requires IsFirstRun(s, i, j)
    ensures FirstNumber(s) == Some(Value(s[i..j]))
  {
    assert s == s[..i] + s[i..j] + s[j..];
    FirstNumberOfSplit(s[..i], s[i..j], s[j..]);
  }

  /** A text with a digit has a first run. */
  lemma {:induction false} FirstRunExists(s: string) returns (i: nat, j: nat)
    requires !NoDigits(s)
    ensures IsFirstRun(s, i, j)
  {
    if IsDigit(s[0]) {
      i, j := 0, DigitRun(s);
    } else {
      assert !NoDigits(s[1..]) by {
        var k :| 0 <= k < |s| && IsDigit(s[k]);
        assert s[1..][k - 1] == s[k];
      }
      var i', j' := FirstRunExists(s[1..]);
      i, j := i' + 1, j' + 1;
      assert s[..i] == [s[0]] + s[1..][..i'];
      assert s[i..j] == s[1..][i'..j'];
    }
  }

  /** Text after the first run, once a non-digit has ended it, does not
      change the result. */
  lemma ConvertIgnoresTail(p: string, d: string, c: char, t1: string, t2: string)
    requires NoDigits(p)
    requires d != [] && AllDigits(d)
    requires !IsDigit(c)
    ensures ConvertAgeGroup(Text(p + d + [c] + t1)) == ConvertAgeGroup(Text(p + d + [c] + t2))
    ensures ConvertAgeGroup(Text(p + d + [c] + t1)) == Some(Value(d))
  {
    assert p + d + [c] + t1 == p + d + ([c] + t1);
    assert p + d + [c] + t2 == p + d + ([c] + t2);
    FirstNumberOfSplit(p, d, [c] + t1);
    FirstNumberOfSplit(p, d, [c] + t2);
  }

  /** Leading zeros do not change the number. */
  lemma LeadingZeros(z: nat, d: string)
    requires AllDigits(d)
    ensures AllDigits(Zeros(z) + d) && Value(Zeros(z) + d) == Value(d)
  {
    if z > 0 {
      var rest := Zeros(z - 1) + d;
      assert Zeros(z) + d == ['0'] + rest;
      LeadingZeros(z - 1, d);
      var s := ['0'] + rest;
      assert s[0] == '0' && s[1..] == rest;
      assert Value(s) == DigitValue('0') * Pow10(|s| - 1) + Value(rest);
    } else {
      assert Zeros(z) + d == d;
    }
  }

  function Zeros(z: nat): (s: string)
    ensures |s| == z
    ensures forall k :: 0 <= k < z ==> s[k] == '0'
  {
    if z == 0 then [] else ['0'] + Zeros(z - 1)
  }

  /** A band label that starts with two digits and a separator, such as
      "20-24", gives the two-digit number. */
  lemma BandLowerBound(band: string)
    requires |band| >= 3 && IsDigit(band[0]) && IsDigit(band[1]) && !IsDigit(band[2])
    ensures ConvertAgeGroup(Text(band)) == Some(10 * DigitValue(band[0]) + DigitValue(band[1]))
  {
    var low := band[..2];
    assert FirstNumber(band) == Some(Value(low)) by {
      FirstNumberOfSplit([], low, band[2..]);
      assert [] + low + band[2..] == band;
    }
    assert Value(low) == 10 * DigitValue(band[0]) + DigitValue(band[1]) by {
      var tail := [band[1]];
      assert low[0] == band[0] && low[1..] == tail && tail[1..] == [];
      assert Value(tail) == DigitValue(band[1]);
      assert Pow10(1) == 10;
    }
  }

  /** The example of the source's docstring. */
  lemma ConvertExampleBand()
    ensures ConvertAgeGroup(Text("15-19세")) == Some(15)
  {
    assert "15-19세" == "" + "15" + "-19세";
    FirstNumberOfSplit("", "15", "-19세");
    assert Value("15") == 15 by {
      assert "15"[1..] == "5";
    }
  }

  /** Leading zeros are dropped: "007" gives 7. */
  lemma ConvertExampleZeros()
    ensures ConvertAgeGroup(Text("007")) == Some(7)
  {
    assert "007" == Zeros(2) + "7";
    LeadingZeros(2, "7");
    assert "007" == "" + "007" + "";
    FirstNumberOfSplit("", "007", "");
  }

  /** A sign is not part of the number: "-5" gives 5. */
  lemma ConvertExampleSign()
    ensures ConvertAgeGroup(Text("-5")) == Some(5)
  {
    assert "-5" == "-" + "5" + "";
    FirstNumberOfSplit("-", "5", "");
  }
}
