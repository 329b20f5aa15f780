/** The JavaScript string operations the server relies on: `String.prototype.split`
    with a one-character separator, `Array.prototype.join`, and the global `parseInt`
    called without a radix. */
module Text {
  import opened Common

  // ---------------------------------------------------------------- split / join

  /** `parts.join(sep)`: the parts with one separator between neighbours. */
  function Join(parts: seq<string>, sep: char): string
  {
    if |parts| == 0 then ""
    else if |parts| == 1 then parts[0]
    else parts[0] + [sep] + Join(parts[1..], sep)
  }

  /** `s.split(sep)`: the maximal separator-free runs of `s`, so never empty and
      with two or more parts exactly when the separator occurs. */
  function Split(s: string, sep: char): (parts: seq<string>)
    ensures |parts| >= 1
    ensures forall i :: 0 <= i < |parts| ==> sep !in parts[i]
    ensures Join(parts, sep) == s
    ensures sep in s <==> |parts| >= 2
  {
    if |s| == 0 then [""]
    else
      var rest := Split(s[1..], sep);
      assert s == [s[0]] + s[1..];
      if s[0] == sep then
        assert ([""] + rest)[1..] == rest;
        [""] + rest
      else
        var head := [s[0]] + rest[0];
        assert ([head] + rest[1..])[1..] == rest[1..];
        assert |rest| >= 2 ==> Join(rest, sep) == rest[0] + [sep] + Join(rest[1..], sep);
        [head] + rest[1..]
  }

  /** Splitting at the first separator peels off the text before it. */
  lemma {:induction false} SplitAfterFirst(u: string, sep: char, t: string)
    requires sep !in u
    ensures Split(u + [sep] + t, sep) == [u] + Split(t, sep)
  {
    var s := u + [sep] + t;
    if u == [] {
      assert s == [sep] + t;
      assert s[1..] == t;
    } else {
      assert s[0] == u[0];
      assert s[1..] == u[1..] + [sep] + t;
      SplitAfterFirst(u[1..], sep, t);
      assert [u[0]] + u[1..] == u;
    }
  }

  /** A string without the separator splits into itself. */
  lemma SplitWithoutSeparator(u: string, sep: char)
    requires sep !in u
    ensures Split(u, sep) == [u]
  {
    var r := Split(u, sep);
    assert |r| == 1 && Join(r, sep) == r[0];
  }

  /** Splitting at the position `i` of the first separator. */
  lemma SplitAt(c: string, i: int, sep: char)
    requires 0 <= i < |c| && c[i] == sep && sep !in c[..i]
    ensures Split(c, sep) == [c[..i]] + Split(c[i + 1..], sep)
  {
    assert c == c[..i] + [sep] + c[i + 1..];
    SplitAfterFirst(c[..i], sep, c[i + 1..]);
  }

  /** The first field of `u + rest` is `u` when `u` holds no separator and
      `rest` is empty or starts with one. */
  lemma FirstField(u: string, rest: string, sep: char)
    requires sep !in u && (rest == [] || rest[0] == sep)
    ensures Split(u + rest, sep)[0] == u
  {
    if rest == [] {
      assert u + rest == u;
      SplitWithoutSeparator(u, sep);
    } else {
      assert u + rest == u + [sep] + rest[1..];
      SplitAfterFirst(u, sep, rest[1..]);
    }
  }

  /** Split is the inverse of Join on separator-free parts. */
  lemma {:induction false} SplitJoin(parts: seq<string>, sep: char)
    requires |parts| >= 1
    requires forall i :: 0 <= i < |parts| ==> sep !in parts[i]
    ensures Split(Join(parts, sep), sep) == parts
  {
    if |parts| == 1 {
      SplitWithoutSeparator(parts[0], sep);
    } else {
      SplitJoin(parts[1..], sep);
      SplitAfterFirst(parts[0], sep, Join(parts[1..], sep));
      assert [parts[0]] + parts[1..] == parts;
    }
  }

  /** The first two fields of a split sit at the front of the string, followed by
      the end of the string or by a separator. */
  lemma SplitFirstTwo(s: string, sep: char)
    requires sep in s
    ensures var parts := Split(s, sep);
      && |parts| >= 2
      && var k := |parts[0]| + 1 + |parts[1]|;
      && k <= |s|
      && s[..k] == parts[0] + [sep] + parts[1]
      && (k == |s| || s[k] == sep)
  {
    var parts := Split(s, sep);
    var tail := Join(parts[1..], sep);
    assert s == parts[0] + [sep] + tail;
    if |parts| == 2 {
      assert tail == parts[1];
    } else {
      assert tail == parts[1] + [sep] + Join(parts[2..], sep);
    }
  }

  // ---------------------------------------------------------------- parseInt

  /** The white space `parseInt` skips before the number (ASCII subset). */
  predicate IsSpace(c: char)
  {
    c == ' ' || c == '\t' || c == '\n' || c == '\r' || c == '\U{B}' || c == '\U{C}'
  }

  function TrimStart(s: string): (r: string)
    ensures |r| <= |s| && r == s[|s| - |r|..]
    ensures |r| > 0 ==> !IsSpace(r[0])
  {
    if |s| > 0 && IsSpace(s[0]) then TrimStart(s[1..]) else s
  }

  /** The value of character `c` as a digit of base `radix` (at most 36). */
  function DigitValue(c: char, radix: nat): Option<nat>
  {
    var d: int :=
      if '0' <= c <= '9' then c as int - '0' as int
      else if 'a' <= c <= 'z' then c as int - 'a' as int + 10
      else if 'A' <= c <= 'Z' then c as int - 'A' as int + 10
      else -1;
    if 0 <= d < radix then Some(d) else None
  }

  predicate AllDigits(s: string, radix: nat)
  {
    forall i :: 0 <= i < |s| ==> DigitValue(s[i], radix).Some?
  }

  /** The length of the longest prefix of `s` made of digits of `radix`. */
  function DigitRun(s: string, radix: nat): (n: nat)
    ensures n <= |s| && AllDigits(s[..n], radix)
    ensures n < |s| ==> DigitValue(s[n], radix).None?
  {
    if |s| > 0 && DigitValue(s[0], radix).Some? then
      var n := 1 + DigitRun(s[1..], radix);
      assert forall i :: 1 <= i < n ==> s[..n][i] == s[1..][..n - 1][i - 1];
      n
    else 0
  }

  /** The number written by `ds`, most significant digit first. */
  function DigitsValue(ds: string, radix: nat): nat
    requires AllDigits(ds, radix)
  {
    if |ds| == 0 then 0
    else DigitsValue(ds[..|ds| - 1], radix) * radix + DigitValue(ds[|ds| - 1], radix).value
  }

  /** The digits after the sign: base 16 after a `0x`/`0X` prefix, base 10
      otherwise, up to the first character that is not a digit; None when there
      is no digit at all. */
  function ParseUnsigned(v: string): Option<nat>
  {
    var hex := |v| >= 2 && v[0] == '0' && (v[1] == 'x' || v[1] == 'X');
    var radix := if hex then 16 else 10;
    var w := if hex then v[2..] else v;
    var n := DigitRun(w, radix);
    if n == 0 then None else Some(DigitsValue(w[..n], radix))
  }

  /** `parseInt(s)`: skip leading white space, read an optional sign, then the
      digits; NaN is modelled as None. */
  function ParseInt(s: string): Option<int>
  {
    ParseSigned(TrimStart(s))
  }

  /** A number after the white space: an optional sign, then the digits. */
  function ParseSigned(u: string): Option<int>
  {
    if |u| > 0 && u[0] == '-' then
      match ParseUnsigned(u[1..])
      case None => None
      case Some(m) => Some(-(m as int))
    else if |u| > 0 && u[0] == '+' then
      match ParseUnsigned(u[1..])
      case None => None
      case Some(m) => Some(m)
    else
      match ParseUnsigned(u)
      case None => None
      case Some(m) => Some(m)
  }

  // ---------------------------------------------------------------- decimal text

  function DigitChar(d: nat): char
    requires d < 10
  {
    ('0' as int + d) as char
  }

  /** `String(n)` for a non-negative integer. */
  function DecimalString(n: nat): (s: string)
    ensures |s| >= 1 && AllDigits(s, 10)
    ensures s[0] == '0' ==> n == 0 && |s| == 1
  {
    if n < 10 then [DigitChar(n)]
    else
      var s := DecimalString(n / 10) + [DigitChar(n % 10)];
      assert forall i :: 0 <= i < |s| - 1 ==> s[i] == DecimalString(n / 10)[i];
      s
  }

  lemma {:induction false} DecimalValue(n: nat)
    ensures DigitsValue(DecimalString(n), 10) == n
  {
    var s := DecimalString(n);
    if n >= 10 {
      DecimalValue(n / 10);
      assert s[..|s| - 1] == DecimalString(n / 10);
    }
  }

  lemma {:induction false} DigitRunOfDigits(ds: string, tail: string, radix: nat)
    requires AllDigits(ds, radix)
    requires tail == [] || DigitValue(tail[0], radix).None?
    ensures DigitRun(ds + tail, radix) == |ds|
  {
    if ds != [] {
      assert (ds + tail)[1..] == ds[1..] + tail;
      DigitRunOfDigits(ds[1..], tail, radix);
    } else {
      assert ds + tail == tail;
    }
  }

  /** A digit string that does not start with a redundant `0` reads back as its
      value, whatever non-alphanumeric text follows it. */
  lemma ParseUnsignedDigits(ds: string, tail: string)
    requires |ds| >= 1 && AllDigits(ds, 10) && (ds[0] == '0' ==> |ds| == 1)
    requires tail == [] || DigitValue(tail[0], 36).None?
    ensures ParseUnsigned(ds + tail) == Some(DigitsValue(ds, 10))
  {
    var s := ds + tail;
    assert s[0] == ds[0];
    assert tail != [] ==> DigitValue(tail[0], 10).None? && tail[0] != 'x' && tail[0] != 'X';
    assert |s| >= 2 && s[0] == '0' ==> s[1] == tail[0];
    DigitRunOfDigits(ds, tail, 10);
    assert s[..|ds|] == ds;
  }

  lemma ParseUnsignedDecimal(n: nat, tail: string)
    requires tail == [] || DigitValue(tail[0], 36).None?
    ensures ParseUnsigned(DecimalString(n) + tail) == Some(n)
  {
    ParseUnsignedDigits(DecimalString(n), tail);
    DecimalValue(n);
  }

  /** Text that starts with a digit is read without sign or white space. */
  lemma ParseIntOfDigitFirst(s: string)
    requires |s| >= 1 && DigitValue(s[0], 10).Some?
    ensures ParseInt(s) == ParseUnsigned(s)
  {
    assert !IsSpace(s[0]) && s[0] != '-' && s[0] != '+';
    assert TrimStart(s) == s;
  }

  /** `parseInt` reads back the decimal text of `n`, ignoring whatever follows it
      as long as that does not start with a letter or a digit. */
  lemma ParseIntDecimal(n: nat, tail: string)
    requires tail == [] || DigitValue(tail[0], 36).None?
    ensures ParseInt(DecimalString(n) + tail) == Some(n)
  {
    var ds := DecimalString(n);
    assert (ds + tail)[0] == ds[0];
    ParseIntOfDigitFirst(ds + tail);
    ParseUnsignedDecimal(n, tail);
  }

  // ---------------------------------------------------------------- values of parseInt

  /** `parseInt` skips one leading white-space character. */
  lemma ParseSkipsSpace(c: char, s: string)
    requires IsSpace(c)
    ensures ParseInt([c] + s) == ParseInt(s)
  {
    assert ([c] + s)[1..] == s;
    assert TrimStart([c] + s) == TrimStart(s);
  }


  lemma SmallDecimals()
    ensures DecimalString(0) == "0" && DecimalString(3) == "3" && DecimalString(7) == "7"
  {
  }

  lemma ParseZero()
    ensures ParseInt("0") == Some(0)
  {
    SmallDecimals();
    ParseIntDecimal(0, "");
    assert "0" + "" == "0";
  }

  lemma ParseNegative()
    ensures ParseInt("-3") == Some(-3)
  {
    SmallDecimals();
    ParseUnsignedDecimal(3, "");
    assert "3" + "" == "3";
    assert TrimStart("-3") == "-3";
    assert "-3"[1..] == "3";
  }

  lemma ParseLeadingSpace()
    ensures ParseInt(" 7") == Some(7)
  {
    SmallDecimals();
    ParseIntDecimal(7, "");
    assert "7" + "" == "7";
    ParseSkipsSpace(' ', "7");
    assert [' '] + "7" == " 7";
  }

  lemma ParseFraction()
    ensures ParseInt("7.5") == Some(7)
  {
    assert TrimStart("7.5") == "7.5";
    assert DigitRun(".5", 10) == 0;
    assert DigitRun("7.5", 10) == 1 by { assert "7.5"[1..] == ".5"; }
    assert "7.5"[..1] == "7" && "7"[..0] == "";
    assert DigitsValue("7", 10) == 7;
    assert ParseUnsigned("7.5") == Some(7);
  }

  lemma ParseNoDigits()
    ensures ParseInt("abc") == None && ParseInt("") == None
  {
    assert TrimStart("abc") == "abc";
    assert DigitRun("abc", 10) == 0;
    assert TrimStart("") == "";
  }

  lemma ParseHex()
    ensures ParseInt("0x10") == Some(16)
  {
    HexTen();
    var v := "0x10";
    assert TrimStart(v) == v;
    assert |v| >= 2 && v[0] == '0' && v[1] == 'x';
    assert v[2..] == "10";
    assert ParseUnsigned(v) == Some(16);
  }

  /** The digits "10" read in base 16. */
  lemma HexTen()
    ensures DigitRun("10", 16) == 2 && "10"[..2] == "10" && DigitsValue("10", 16) == 16
  {
    assert DigitRun("", 16) == 0;
    assert DigitRun("0", 16) == 1 by { assert "0"[1..] == ""; }
    assert DigitRun("10", 16) == 2 by { assert "10"[1..] == "0"; }
    assert "10"[..1] == "1" && "1"[..0] == "";
    assert DigitsValue("1", 16) == 1;
  }

  /** What `parseInt` without a radix makes of some inputs: white space before
      the number and text after it are ignored, a `0x` prefix switches to base
      16, a sign is read, and text without a leading digit is NaN. */
  lemma ParseIntExamples()
    ensures ParseInt("0") == Some(0) && ParseInt("-3") == Some(-3)
    ensures ParseInt(" 7") == Some(7) && ParseInt("7.5") == Some(7)
    ensures ParseInt("abc") == None && ParseInt("") == None
    ensures ParseInt("0x10") == Some(16)
  {
    ParseZero();
    ParseNegative();
    ParseLeadingSpace();
    ParseFraction();
    ParseNoDigits();
    ParseHex();
  }
}
