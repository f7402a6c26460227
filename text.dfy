/**
 * The handful of Python string operations the front ends rely on:
 * `str.strip()`, `str.strip(chars)`, `str.startswith`, the slice `s[k:]`,
 * `int(s)` in base 10 and `str(n)` for a natural number.
 */
module Text {
  import opened Wrappers

  /** The ASCII characters for which Python's `str.isspace()` holds. */
  const Whitespace: set<char> :=
    {' ', '\t', '\n', '\U{000B}', '\U{000C}', '\r', '\U{001C}', '\U{001D}', '\U{001E}', '\U{001F}'}

  /**
   * The characters `int` skips around its digits: C's `isspace` in the C
   * locale, which leaves out `\x1c`-`\x1f`.
   */
  const IntSpace: set<char> := {' ', '\t', '\n', '\U{000B}', '\U{000C}', '\r'}

  /** The character `strip('\n')` removes. */
  const LineEnd: set<char> := {'\n'}

  /** `s` neither begins nor ends with a character of `cs`. */
  predicate IsStripped(s: string, cs: set<char>)
  {
    s == [] || (s[0] !in cs && s[|s| - 1] !in cs)
  }

  predicate AllIn(s: string, cs: set<char>)
  {
    forall k :: 0 <= k < |s| ==> s[k] in cs
  }

  /** `s` with its longest prefix of characters of `cs` removed. */
  function TrimLeft(s: string, cs: set<char>): string
  {
    if |s| > 0 && s[0] in cs then TrimLeft(s[1..], cs) else s
  }

  /** `s` with its longest suffix of characters of `cs` removed. */
  function TrimRight(s: string, cs: set<char>): string
  {
    if |s| > 0 && s[|s| - 1] in cs then TrimRight(s[..|s| - 1], cs) else s
  }

  /**
   * `TrimLeft` drops a prefix made only of characters of `cs`, and what it
   * keeps does not begin with one.
   */
  lemma {:induction false} TrimLeftSpec(s: string, cs: set<char>)
    ensures var r := TrimLeft(s, cs);
            |r| <= |s| && r == s[|s| - |r|..] && AllIn(s[..|s| - |r|], cs) && (r != [] ==> r[0] !in cs)
  {
    if |s| > 0 && s[0] in cs {
      TrimLeftSpec(s[1..], cs);
      var r := TrimLeft(s, cs);
      assert s[1..][|s| - 1 - |r|..] == s[|s| - |r|..];
      assert forall k :: 0 < k < |s| - |r| ==> s[k] == s[1..][k - 1];
    }
  }

  /**
   * `TrimRight` drops a suffix made only of characters of `cs`, and what it
   * keeps does not end with one.
   */
  lemma {:induction false} TrimRightSpec(s: string, cs: set<char>)
    ensures var r := TrimRight(s, cs);
            |r| <= |s| && r == s[..|r|] && AllIn(s[|r|..], cs) && (r != [] ==> r[|r| - 1] !in cs)
  {
    if |s| > 0 && s[|s| - 1] in cs {
      TrimRightSpec(s[..|s| - 1], cs);
      var r := TrimRight(s, cs);
      assert s[..|s| - 1][..|r|] == s[..|r|];
      assert forall k :: |r| <= k < |s| - 1 ==> s[k] == s[..|s| - 1][k];
    }
  }

  /** Python's `s.strip(chars)`. */
  function StripChars(s: string, cs: set<char>): string
  {
    TrimRight(TrimLeft(s, cs), cs)
  }

  /**
   * The result of `strip` is the part of `s` left after removing characters
   * of `cs` from both ends, and it neither begins nor ends with one of them.
   */
  lemma StripCharsSpec(s: string, cs: set<char>)
    ensures var r := StripChars(s, cs);
            IsStripped(r, cs) &&
            exists i :: 0 <= i <= |s| - |r| && r == s[i..i + |r|] && AllIn(s[..i], cs) && AllIn(s[i + |r|..], cs)
  {
    var t := TrimLeft(s, cs);
    var r := TrimRight(t, cs);
    TrimLeftSpec(s, cs);
    TrimRightSpec(t, cs);
    var i := |s| - |t|;
    assert s[i..i + |r|] == r;
    assert s[i + |r|..] == t[|r|..];
    assert 0 <= i <= |s| - |r| && r == s[i..i + |r|] && AllIn(s[..i], cs) && AllIn(s[i + |r|..], cs);
  }

  /** Python's `s.strip()` for ASCII text. */
  function Strip(s: string): string
  {
    StripChars(s, Whitespace)
  }

  /** Stripping a string that is already stripped changes nothing. */
  lemma StripStripped(s: string, cs: set<char>)
    requires IsStripped(s, cs)
    ensures StripChars(s, cs) == s
  {
  }

  lemma {:induction false} TrimLeftPadded(pre: string, s: string, cs: set<char>)
    requires AllIn(pre, cs)
    requires s == [] || s[0] !in cs
    ensures TrimLeft(pre + s, cs) == s
  {
    if pre != [] {
      assert (pre + s)[1..] == pre[1..] + s;
      TrimLeftPadded(pre[1..], s, cs);
    }
  }

  lemma {:induction false} TrimRightPadded(s: string, post: string, cs: set<char>)
    requires AllIn(post, cs)
    requires s == [] || s[|s| - 1] !in cs
    ensures TrimRight(s + post, cs) == s
  {
    if post != [] {
      assert (s + post)[..|s + post| - 1] == s + post[..|post| - 1];
      TrimRightPadded(s, post[..|post| - 1], cs);
    }
  }

  /**
   * Padding a stripped string with characters of `cs` on either side and
   * stripping it again gives back the string.
   */
  lemma {:induction false} StripPadded(pre: string, s: string, post: string, cs: set<char>)
    requires IsStripped(s, cs) && AllIn(pre, cs) && AllIn(post, cs)
    ensures StripChars(pre + s + post, cs) == s
  {
    if s == [] {
      assert pre + s + post == (pre + post) + [];
      assert AllIn(pre + post, cs) by {
        assert forall k :: 0 <= k < |pre + post| ==> (pre + post)[k] == if k < |pre| then pre[k] else post[k - |pre|];
      }
      TrimLeftPadded(pre + post, [], cs);
    } else {
      assert pre + s + post == pre + (s + post);
      TrimLeftPadded(pre, s + post, cs);
      TrimRightPadded(s, post, cs);
    }
  }

  /** Stripping twice is the same as stripping once. */
  lemma StripIdempotent(s: string, cs: set<char>)
    ensures StripChars(StripChars(s, cs), cs) == StripChars(s, cs)
  {
    StripCharsSpec(s, cs);
    StripStripped(StripChars(s, cs), cs);
  }

  /** Python's `s.startswith(p)`. */
  predicate StartsWith(s: string, p: string)
  {
    |p| <= |s| && forall k :: 0 <= k < |p| ==> s[k] == p[k]
  }

  /** Python's slice `s[k:]` for a non-negative `k`, which is empty past the end. */
  function Drop(s: string, k: nat): string
  {
    if k <= |s| then s[k..] else []
  }

  predicate IsDigit(c: char)
  {
    '0' <= c <= '9'
  }

  predicate AllDigits(s: string)
  {
    forall k :: 0 <= k < |s| ==> IsDigit(s[k])
  }

  /** The value of a string of decimal digits, most significant first. */
  function DecimalValue(d: string): nat
    requires AllDigits(d)
  {
    if d == [] then 0 else 10 * DecimalValue(d[..|d| - 1]) + (d[|d| - 1] as int - '0' as int)
  }

  /** Python's `str(n)` for a natural number: its decimal digits without leading zeros. */
  function NatToDecimal(n: nat): (r: string)
    ensures r != [] && AllDigits(r) && DecimalValue(r) == n
    ensures |r| > 1 ==> r[0] != '0'
  {
    var last := ['0' + (n % 10) as char];
    if n < 10 then last
    else
      var r := NatToDecimal(n / 10) + last;
      assert r[..|r| - 1] == NatToDecimal(n / 10);
      r
  }

  /**
   * The most digits `int` converts from a decimal string, Python's
   * `sys.int_info.default_max_str_digits`; leading zeros count, the sign does not.
   */
  const MaxStrDigits: nat := 4300

  /** A non-empty run of digits, as `int` reads it after the sign. */
  function ParseDigits(d: string): Option<nat>
  {
    if d != [] && AllDigits(d) && |d| <= MaxStrDigits then Some(DecimalValue(d)) else None
  }

  /** `int` on text already stripped: an optional sign and at least one digit. */
  function ParseSigned(t: string): Option<int>
  {
    if t != [] && t[0] == '-' then
      match ParseDigits(t[1..])
      case None => None
      case Some(v) => Some(-(v as int))
    else if t != [] && t[0] == '+' then
      match ParseDigits(t[1..])
      case None => None
      case Some(v) => Some(v)
    else
      match ParseDigits(t)
      case None => None
      case Some(v) => Some(v)
  }

  /**
   * Python's `int(s)` in base 10: optional surrounding whitespace, an optional
   * sign and at least one digit, at most `MaxStrDigits` of them; anything else
   * is a `ValueError`, here `None`.
   */
  function ParseInt(s: string): Option<int>
  {
    ParseSigned(StripChars(s, IntSpace))
  }

  const Zeros: set<char> := {'0'}

  function Abs(v: int): nat
  {
    if v < 0 then -v else v
  }

  /**
   * `t` is a way of writing `n` that `int` accepts once whitespace is
   * stripped: no sign, `+` or `-`, then zeros, then `str(n)`, with at most
   * `MaxStrDigits` digits in all.
   */
  predicate Spelling(t: string, sign: string, zeros: string, n: nat)
  {
    (sign == "" || sign == "+" || sign == "-") && AllIn(zeros, Zeros) &&
    |zeros| + |NatToDecimal(n)| <= MaxStrDigits &&
    t == sign + zeros + NatToDecimal(n)
  }

  /** Leading zeros do not change the value of a run of digits. */
  lemma {:induction false} DecimalValueZeros(zeros: string, d: string)
    requires AllIn(zeros, Zeros) && AllDigits(d)
    ensures AllDigits(zeros + d) && DecimalValue(zeros + d) == DecimalValue(d)
  {
    var zd := zeros + d;
    assert forall k :: 0 <= k < |zd| ==> zd[k] == if k < |zeros| then zeros[k] else d[k - |zeros|];
    if d == [] {
      assert zd == zeros;
      if zeros != [] {
        assert AllIn(zeros[..|zeros| - 1], Zeros) by {
          assert forall k :: 0 <= k < |zeros| - 1 ==> zeros[..|zeros| - 1][k] == zeros[k];
        }
        DecimalValueZeros(zeros[..|zeros| - 1], []);
        assert zeros[..|zeros| - 1] + [] == zeros[..|zeros| - 1];
        assert zeros[|zeros| - 1] == '0';
      }
    } else {
      var p := d[..|d| - 1];
      assert AllDigits(p) by {
        assert forall k :: 0 <= k < |p| ==> p[k] == d[k];
      }
      DecimalValueZeros(zeros, p);
      assert zd[..|zd| - 1] == zeros + p;
      assert zd[|zd| - 1] == d[|d| - 1];
    }
  }

  /** A run of digits that does not start with `0` has a positive value. */
  lemma {:induction false} LeadingDigitValue(d: string)
    requires d != [] && AllDigits(d) && d[0] != '0'
    ensures DecimalValue(d) > 0
  {
    if |d| > 1 {
      var p := d[..|d| - 1];
      assert AllDigits(p) by {
        assert forall k :: 0 <= k < |p| ==> p[k] == d[k];
      }
      assert p[0] == d[0];
      LeadingDigitValue(p);
    } else {
      assert d[..0] == [];
    }
  }

  /** `str` turns the value of a run of digits without leading zeros back into that run. */
  lemma {:induction false} NatToDecimalOfValue(d: string)
    requires d != [] && AllDigits(d) && (|d| > 1 ==> d[0] != '0')
    ensures NatToDecimal(DecimalValue(d)) == d
  {
    var v := DecimalValue(d);
    var p := d[..|d| - 1];
    assert AllDigits(p) by {
      assert forall k :: 0 <= k < |p| ==> p[k] == d[k];
    }
    var last := d[|d| - 1];
    assert v == 10 * DecimalValue(p) + (last as int - '0' as int);
    if |d| == 1 {
      assert p == [];
      assert ['0' + (v % 10) as char] == [last];
      assert d == [last];
    } else {
      assert p[0] == d[0];
      LeadingDigitValue(p);
      NatToDecimalOfValue(p);
      assert v / 10 == DecimalValue(p) && v % 10 == last as int - '0' as int;
      assert d == p + [last];
    }
  }

  lemma ZeroPrefix(z: string)
    requires AllIn(z, Zeros)
    ensures AllIn("0" + z, Zeros)
  {
    var zs := "0" + z;
    assert forall k :: 0 < k < |zs| ==> zs[k] == z[k - 1];
  }

  /** Every run of digits is some zeros followed by `str` of its value. */
  lemma {:induction false} DigitsSplit(d: string) returns (zeros: string)
    requires d != [] && AllDigits(d)
    ensures AllIn(zeros, Zeros) && d == zeros + NatToDecimal(DecimalValue(d))
  {
    if |d| > 1 && d[0] == '0' {
      var rest := d[1..];
      assert AllDigits(rest) by {
        assert forall k :: 0 <= k < |rest| ==> rest[k] == d[k + 1];
      }
      var z := DigitsSplit(rest);
      var tail := NatToDecimal(DecimalValue(rest));
      assert d == "0" + rest;
      DecimalValueZeros("0", rest);
      ZeroPrefix(z);
      zeros := "0" + z;
      assert d == "0" + (z + tail);
      assert "0" + (z + tail) == zeros + tail;
    } else {
      NatToDecimalOfValue(d);
      zeros := [];
      assert d == [] + d;
    }
  }

  /** A spelling has no whitespace at either end. */
  lemma SpelledStripped(t: string, sign: string, zeros: string, n: nat)
    requires Spelling(t, sign, zeros, n)
    ensures IsStripped(t, IntSpace)
  {
    var d := NatToDecimal(n);
    assert IsDigit(d[0]) && IsDigit(d[|d| - 1]);
    assert t[|t| - 1] == d[|d| - 1];
    assert t[0] == if sign != "" then sign[0] else if zeros != [] then zeros[0] else d[0];
  }

  /** The sign and digits of a spelling are read as the number spelt. */
  lemma SpelledValue(t: string, sign: string, zeros: string, n: nat)
    requires Spelling(t, sign, zeros, n)
    ensures ParseSigned(t) == Some(if sign == "-" then -(n as int) else n)
  {
    var d := NatToDecimal(n);
    assert forall k :: 0 <= k < |zeros| ==> IsDigit(zeros[k]);
    DecimalValueZeros(zeros, d);
    if sign != "" {
      assert t[1..] == zeros + d;
    } else {
      assert t == zeros + d;
    }
  }

  /** Whatever the sign and digits reader accepts is a spelling of the number it returns. */
  lemma SignedShape(t: string) returns (sign: string, zeros: string)
    requires ParseSigned(t).Some?
    ensures var v := ParseSigned(t).value;
            Spelling(t, sign, zeros, Abs(v)) && v == (if sign == "-" then -(Abs(v) as int) else Abs(v))
  {
    var d: string;
    if t[0] == '-' {
      sign, d := "-", t[1..];
      assert ParseDigits(d).Some? && ParseSigned(t).value == -(DecimalValue(d) as int);
    } else if t[0] == '+' {
      sign, d := "+", t[1..];
      assert ParseDigits(d).Some? && ParseSigned(t).value == DecimalValue(d);
    } else {
      sign, d := "", t;
      assert ParseDigits(d).Some? && ParseSigned(t).value == DecimalValue(d);
    }
    var n := DecimalValue(d);
    zeros := DigitsSplit(d);
    assert Abs(ParseSigned(t).value) == n;
    assert |d| <= MaxStrDigits && |d| == |zeros| + |NatToDecimal(n)|;
    assert t == sign + (zeros + NatToDecimal(n));
    assert sign + (zeros + NatToDecimal(n)) == sign + zeros + NatToDecimal(n);
  }

  /**
   * `int` accepts every spelling of a number: surrounding whitespace, no sign
   * or `+` or `-`, leading zeros, and the digits of `n`; a `-` negates.
   */
  lemma ParseIntSigned(pre: string, t: string, sign: string, zeros: string, n: nat, post: string)
    requires AllIn(pre, IntSpace) && AllIn(post, IntSpace)
    requires Spelling(t, sign, zeros, n)
    ensures ParseInt(pre + t + post) == Some(if sign == "-" then -(n as int) else n)
  {
    SpelledStripped(t, sign, zeros, n);
    SpelledValue(t, sign, zeros, n);
    StripPadded(pre, t, post, IntSpace);
  }

  /**
   * Conversely, whatever `int` accepts is, once stripped, a spelling of the
   * number it returns.
   */
  lemma ParseIntShape(s: string)
    requires ParseInt(s).Some?
    ensures var v := ParseInt(s).value;
            exists sign, zeros :: Spelling(StripChars(s, IntSpace), sign, zeros, Abs(v)) && v == (if sign == "-" then -(Abs(v) as int) else Abs(v))
  {
    var sign, zeros := SignedShape(StripChars(s, IntSpace));
  }

  /**
   * Reading back the decimal form of a natural number, with any whitespace
   * around it, yields that number.
   */
  lemma ParseIntOfDecimal(pre: string, n: nat, post: string)
    requires AllIn(pre, IntSpace) && AllIn(post, IntSpace)
    requires |NatToDecimal(n)| <= MaxStrDigits
    ensures ParseInt(pre + NatToDecimal(n) + post) == Some(n)
  {
    assert "" + "" + NatToDecimal(n) == NatToDecimal(n);
    ParseIntSigned(pre, NatToDecimal(n), "", "", n, post);
  }

  /** Text starting with whitespace that `int` does not skip is not a number. */
  lemma {:induction false} NotSkippedLeadText(t: string)
    requires t != [] && t[0] in Whitespace && t[0] !in IntSpace
    ensures ParseSigned(t) == None
  {
    assert !IsDigit(t[0]);
  }

  /**
   * Blank text, the empty string included, is not a number, even when its
   * characters are ones `int` does not skip.
   */
  lemma ParseIntRejectsEmpty(s: string)
    requires AllIn(s, Whitespace)
    ensures ParseInt(s) == None
  {
    var l := TrimLeft(s, IntSpace);
    TrimLeftSpec(s, IntSpace);
    TrimRightSpec(l, IntSpace);
    var t := TrimRight(l, IntSpace);
    if t != [] {
      assert t[0] == l[0] == s[|s| - |l|];
      NotSkippedLeadText(t);
    }
  }

  /**
   * The separators `\x1c`-`\x1f` count as whitespace for `strip()` but not for
   * `int`: text that begins with one is never a number.
   */
  lemma ParseIntRejectsSeparator(c: char, s: string)
    requires c in Whitespace && c !in IntSpace
    ensures ParseInt([c] + s) == None
  {
    var u := [c] + s;
    assert TrimLeft(u, IntSpace) == u;
    TrimRightSpec(u, IntSpace);
    var r := TrimRight(u, IntSpace);
    assert r[0] == c;
    NotSkippedLeadText(r);
  }

  /**
   * More than `MaxStrDigits` digits, with or without a sign and whitespace
   * around them, is a `ValueError`, whatever their value.
   */
  lemma ParseIntTooManyDigits(pre: string, sign: string, d: string, post: string)
    requires AllIn(pre, IntSpace) && AllIn(post, IntSpace)
    requires sign == "" || sign == "+" || sign == "-"
    requires AllDigits(d) && |d| > MaxStrDigits
    ensures ParseInt(pre + sign + d + post) == None
  {
    var t := sign + d;
    assert IsDigit(d[0]) && IsDigit(d[|d| - 1]);
    assert t[|t| - 1] == d[|d| - 1];
    assert t[0] == if sign != "" then sign[0] else d[0];
    assert pre + sign + d + post == pre + t + post;
    StripPadded(pre, t, post, IntSpace);
    if sign != "" {
      assert t[1..] == d;
    }
  }
}
