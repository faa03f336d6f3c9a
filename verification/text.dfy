/**
  The string handling the picker relies on: decimal numerals (`String(n)` and
  the subset of `Number(s)` the widget meets), `split("-")` with its inverse
  `join("-")`, and the zero padding of `zpad`.
*/
module Text {
  import opened Wrappers

  predicate IsDigit(c: char) {
    '0' <= c <= '9'
  }

  predicate AllDigits(s: string) {
    forall i :: 0 <= i < |s| ==> IsDigit(s[i])
  }

  function DigitValue(c: char): (v: nat)
    requires IsDigit(c)
    ensures v < 10
  {
    (c as int) - ('0' as int)
  }

  function DigitChar(v: nat): (c: char)
    requires v < 10
    ensures IsDigit(c) && DigitValue(c) == v
  {
    (('0' as int) + v) as char
  }

  /** The value of a string of decimal digits, most significant first. */
  function DigitsValue(s: string): nat
    requires AllDigits(s)
    decreases |s|
  {
    if |s| == 0 then 0 else 10 * DigitsValue(s[..|s| - 1]) + DigitValue(s[|s| - 1])
  }

  /** A numeral without superfluous leading zeros, as `String(n)` writes one. */
  predicate Canonical(s: string) {
    |s| >= 1 && AllDigits(s) && (|s| == 1 || s[0] != '0')
  }

  /** `String(n)` for a non-negative integer `n`: its canonical decimal numeral. */
  function NatToString(n: nat): (s: string)
    ensures Canonical(s) && DigitsValue(s) == n
    decreases n
  {
    if n < 10 then [DigitChar(n)]
    else
      var p := NatToString(n / 10);
      var s := p + [DigitChar(n % 10)];
      assert s[..|s| - 1] == p;
      s
  }

  /** A numeral with a non-zero leading digit denotes a positive number. */
  lemma {:induction false} LeadingDigitPositive(s: string)
    requires AllDigits(s) && |s| >= 1 && s[0] != '0'
    ensures DigitsValue(s) >= 1
    decreases |s|
  {
    if |s| > 1 {
      LeadingDigitPositive(s[..|s| - 1]);
    }
  }

  /** Reading a canonical numeral and writing the number back gives the numeral. */
  lemma {:induction false} NatToStringOfDigits(s: string)
    requires Canonical(s)
    ensures NatToString(DigitsValue(s)) == s
    decreases |s|
  {
    var n := DigitsValue(s);
    if |s| == 1 {
      assert [DigitChar(DigitValue(s[0]))] == s;
    } else {
      var p := s[..|s| - 1];
      LeadingDigitPositive(p);
      NatToStringOfDigits(p);
      assert n / 10 == DigitsValue(p) && n % 10 == DigitValue(s[|s| - 1]);
      assert DigitChar(DigitValue(s[|s| - 1])) == s[|s| - 1];
      assert p + [s[|s| - 1]] == s;
    }
  }

  /** A two-character numeral is tens and units. */
  lemma TwoDigits(t: string)
    requires |t| == 2 && AllDigits(t)
    ensures DigitsValue(t) == 10 * DigitValue(t[0]) + DigitValue(t[1])
  {
    var p := t[..1];
    assert t[..|t| - 1] == p && p[..0] == [];
    assert DigitsValue(p) == DigitValue(t[0]);
  }

  /** A four-character numeral is thousands, hundreds, tens and units. */
  lemma FourDigits(t: string)
    requires |t| == 4 && AllDigits(t)
    ensures DigitsValue(t) ==
      1000 * DigitValue(t[0]) + 100 * DigitValue(t[1]) + 10 * DigitValue(t[2]) + DigitValue(t[3])
  {
    assert t[..3][..2] == t[..2];
    TwoDigits(t[..2]);
  }

  /** A string of `n` zeros. */
  function Zeros(n: nat): (r: string)
    ensures |r| == n && forall i :: 0 <= i < n ==> r[i] == '0'
  {
    if n == 0 then [] else Zeros(n - 1) + "0"
  }

  /** Leading zeros do not change the value of a numeral. */
  lemma {:induction false} ZerosValue(k: nat, s: string)
    requires AllDigits(s)
    ensures AllDigits(Zeros(k) + s) && DigitsValue(Zeros(k) + s) == DigitsValue(s)
    decreases |s|
  {
    var z := Zeros(k) + s;
    if |s| == 0 {
      assert z == Zeros(k);
      ZerosValueOfZeros(k);
    } else {
      var p := s[..|s| - 1];
      ZerosValue(k, p);
      assert z[..|z| - 1] == Zeros(k) + p;
    }
  }

  lemma {:induction false} ZerosValueOfZeros(k: nat)
    ensures AllDigits(Zeros(k)) && DigitsValue(Zeros(k)) == 0
  {
    if k > 0 {
      ZerosValueOfZeros(k - 1);
      var z := Zeros(k);
      assert z == Zeros(k - 1) + "0";
      assert z[..k - 1] == Zeros(k - 1);
      assert DigitsValue(z) == 10 * DigitsValue(Zeros(k - 1)) + DigitValue(z[k - 1]);
    }
  }

  /**
    `zpad(s, n)`: `s` preceded by as many zeros as bring it to length `n`;
    a string already that long is left as it is.
  */
  function ZeroPad(s: string, n: int): (r: string)
    ensures |r| == if |s| < n then n else |s|
    ensures r[|r| - |s|..] == s
    ensures forall i :: 0 <= i < |r| - |s| ==> r[i] == '0'
  {
    if |s| < n then Zeros(n - |s|) + s else s
  }

  /** `zpad`: prepends one "0" at a time while the string is shorter than `n`. */
  method Zpad(s: string, n: int) returns (r: string)
    ensures r == ZeroPad(s, n)
  {
    r := s;
    while |r| < n
      invariant |r| >= |s| && r == Zeros(|r| - |s|) + s
      invariant |r| == |s| || |r| <= n
      decreases n - |r|
    {
      assert "0" + Zeros(|r| - |s|) == Zeros(|r| - |s|) + "0" by {
        ZerosCommute(|r| - |s|);
      }
      r := "0" + r;
    }
  }

  lemma ZerosCommute(k: nat)
    ensures "0" + Zeros(k) == Zeros(k) + "0"
  {
    assert "0" + Zeros(k) == Zeros(k + 1);
  }

  /** A two-digit field reads back as the same two characters once padded again. */
  lemma ZeroPadTwoDigits(t: string)
    requires |t| == 2 && AllDigits(t)
    ensures ZeroPad(NatToString(DigitsValue(t)), 2) == t
  {
    if t[0] == '0' {
      TwoDigits(t);
      assert NatToString(DigitsValue(t)) == [t[1]];
      assert ZeroPad([t[1]], 2) == "0" + [t[1]];
    } else {
      NatToStringOfDigits(t);
    }
  }

  /** A padded numeral is still a digit string with the same value. */
  lemma ZeroPadDigits(k: nat, n: int)
    ensures AllDigits(ZeroPad(NatToString(k), n))
    ensures '-' !in ZeroPad(NatToString(k), n)
    ensures ToNumber(ZeroPad(NatToString(k), n)) == Some(k)
  {
    var s := NatToString(k);
    if |s| < n {
      ZerosValue(n - |s|, s);
    }
    DigitsNoDash(ZeroPad(s, n));
    ToNumberOfZeroPad(k, n);
  }

  /** A digit string has no dash in it. */
  lemma DigitsNoDash(t: string)
    requires AllDigits(t)
    ensures '-' !in t
  {
    forall i | 0 <= i < |t|
      ensures t[i] != '-'
    {
      assert IsDigit(t[i]);
    }
  }

  /** `String(i)` for any integer: a minus sign before negative numbers. */
  function IntToString(i: int): (s: string)
    ensures |s| >= 1
    ensures i >= 0 ==> Canonical(s)
    ensures i < 0 ==> s[0] == '-' && Canonical(s[1..])
  {
    if i < 0 then "-" + NatToString(-i) else NatToString(i)
  }

  /**
    `Number(s)` on the strings the widget meets: the empty string is 0, an
    optionally signed run of decimal digits is its value, and anything else
    is NaN (`None`).
  */
  function ToNumber(s: string): (r: Option<int>)
    ensures s == "" ==> r == Some(0)
    ensures |s| > 0 && AllDigits(s) ==> r == Some(DigitsValue(s))
    ensures r.Some? && r.value < 0 ==> |s| > 1 && s[0] == '-'
  {
    assert |s| > 0 && AllDigits(s) ==> IsDigit(s[0]);
    if |s| == 0 then Some(0)
    else if (s[0] == '-' || s[0] == '+') && |s| > 1 && AllDigits(s[1..]) then
      var v: int := DigitsValue(s[1..]);
      if s[0] == '-' then Some(-v) else Some(v)
    else if AllDigits(s) then Some(DigitsValue(s))
    else None
  }

  /** `Number(String(i)) == i` for every integer. */
  lemma ToNumberOfIntToString(i: int)
    ensures ToNumber(IntToString(i)) == Some(i)
  {
    if i < 0 {
      assert IntToString(i)[1..] == NatToString(-i);
    }
  }

  /** Zero-padded numerals keep their value. */
  lemma ToNumberOfZeroPad(k: nat, n: int)
    ensures ToNumber(ZeroPad(NatToString(k), n)) == Some(k)
  {
    var s := NatToString(k);
    var z := ZeroPad(s, n);
    if |s| < n {
      ZerosValue(n - |s|, s);
    }
    assert AllDigits(z) && DigitsValue(z) == k;
    assert |z| > 0 && IsDigit(z[0]);
  }

  /** Joining three pieces puts a dash between each pair. */
  lemma JoinThree(a: string, b: string, c: string)
    ensures Join([a, b, c]) == a + "-" + b + "-" + c
  {
    assert [a, b, c][1..] == [b, c] && [b, c][1..] == [c];
    assert Join([b, c]) == b + "-" + c;
    assert Join([a, b, c]) == a + "-" + (b + "-" + c);
    assert a + "-" + (b + "-" + c) == a + "-" + b + "-" + c;
  }

  /** Splitting three dash-free pieces joined by dashes gives the three pieces back. */
  lemma SplitJoinThree(a: string, b: string, c: string)
    requires '-' !in a && '-' !in b && '-' !in c
    ensures Split(Join([a, b, c])) == [a, b, c]
  {
    var parts := [a, b, c];
    assert forall j :: 0 <= j < |parts| ==> parts[j] in {a, b, c};
    SplitJoin(parts);
  }

  /** `s.split("-")`: the pieces between the dashes, always at least one. */
  function Split(s: string): (parts: seq<string>)
    ensures |parts| >= 1
    ensures forall j :: 0 <= j < |parts| ==> '-' !in parts[j]
    decreases |s|
  {
    if |s| == 0 then [""]
    else
      var rest := Split(s[1..]);
      if s[0] == '-' then [""] + rest
      else [[s[0]] + rest[0]] + rest[1..]
  }

  /** `parts.join("-")`. */
  function Join(parts: seq<string>): string
    requires |parts| >= 1
    decreases |parts|
  {
    if |parts| == 1 then parts[0] else parts[0] + "-" + Join(parts[1..])
  }

  /** Joining the pieces of a split gives the string back. */
  lemma {:induction false} JoinSplit(s: string)
    ensures Join(Split(s)) == s
    decreases |s|
  {
    if |s| > 0 {
      var rest := Split(s[1..]);
      JoinSplit(s[1..]);
      if s[0] == '-' {
        assert ([""] + rest)[1..] == rest;
      } else {
        var parts := [[s[0]] + rest[0]] + rest[1..];
        if |rest| > 1 {
          assert parts[1..] == rest[1..];
          assert Join(rest) == rest[0] + "-" + Join(rest[1..]);
        }
      }
    }
  }

  /** Splitting a join of dash-free pieces gives the pieces back. */
  lemma {:induction false} SplitJoin(parts: seq<string>)
    requires |parts| >= 1
    requires forall j :: 0 <= j < |parts| ==> '-' !in parts[j]
    ensures Split(Join(parts)) == parts
    decreases |parts|, |parts[0]|
  {
    var p := parts[0];
    if |p| == 0 {
      if |parts| > 1 {
        SplitJoin(parts[1..]);
        var s := Join(parts);
        assert s == "-" + Join(parts[1..]);
        assert s[1..] == Join(parts[1..]);
        assert [""] + parts[1..] == parts;
      }
    } else {
      var tail := [p[1..]] + parts[1..];
      assert tail[1..] == parts[1..];
      SplitJoin(tail);
      var s := Join(parts);
      assert s[0] == p[0] && s[1..] == Join(tail) by {
        if |parts| > 1 {
          assert s == p + "-" + Join(parts[1..]);
          assert Join(tail) == p[1..] + "-" + Join(parts[1..]);
        }
      }
      assert p[0] != '-' by {
        assert p[0] in p;
      }
      assert [p[0]] + p[1..] == p;
      assert [[p[0]] + p[1..]] + parts[1..] == parts;
    }
  }
}
