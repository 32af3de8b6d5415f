/** Integers as text, the way Python converts them: `str(n)`, which the
    `csv` writer applies to `comment_count`, and `int(s)`, which
    `read_user_activity` applies to the stored field. */
module PyInt {
  import opened Wrappers
  import opened Words

  predicate IsDigit(c: char) {
    '0' <= c <= '9'
  }

  function DigitValue(c: char): (d: nat)
    requires IsDigit(c)
    ensures d < 10
  {
    (c as int) - ('0' as int)
  }

  function DigitChar(d: nat): (c: char)
    requires d < 10
    ensures IsDigit(c) && DigitValue(c) == d
  {
    ('0' as int + d) as char
  }

  /** C's `isspace` in the "C" locale: TAB..CR and space. */
  predicate IsCSpace(c: char) {
    c == ' ' || '\t' <= c <= '\r'
  }

  /** The whitespace `int()` skips around the literal. The text is first
      copied with every character below 127 unchanged and every non-ASCII
      `str.isspace()` character replaced by a space; the C parser then
      skips `IsCSpace` only. So FS..US are never skipped, NO-BREAK SPACE
      and the other non-ASCII spaces always are. */
  predicate IsIntSpace(c: char) {
    IsCSpace(c) || (c as int >= 0x80 && IsSpace(c))
  }

  /** Drop the leading characters `int()` skips. */
  function StripLeading(s: string): (r: string)
    ensures |r| <= |s| && r == s[|s| - |r|..]
    ensures r == [] || !IsIntSpace(r[0])
    ensures (forall i :: 0 <= i < |s| ==> !IsIntSpace(s[i])) ==> r == s
  {
    if s != [] && IsIntSpace(s[0]) then StripLeading(s[1..]) else s
  }

  /** Drop the trailing characters `int()` skips. */
  function StripTrailing(s: string): (r: string)
    ensures |r| <= |s| && r == s[..|r|]
    ensures r == [] || !IsIntSpace(r[|r| - 1])
    ensures (forall i :: 0 <= i < |s| ==> !IsIntSpace(s[i])) ==> r == s
  {
    if s != [] && IsIntSpace(s[|s| - 1]) then StripTrailing(s[..|s| - 1]) else s
  }

  /** A decimal literal as `int()` accepts it after the sign: ASCII digits,
      where single underscores may separate two digits. */
  predicate IsDigitGroups(s: string) {
    && s != []
    && IsDigit(s[0])
    && IsDigit(s[|s| - 1])
    && (forall i :: 0 <= i < |s| ==> IsDigit(s[i]) || s[i] == '_')
    && (forall i :: 0 <= i < |s| - 1 && s[i] == '_' ==> IsDigit(s[i + 1]))
  }

  /** The value of the digits of `s`, underscores ignored. */
  function DigitsValue(s: string): nat
    requires forall i :: 0 <= i < |s| ==> IsDigit(s[i]) || s[i] == '_'
  {
    if s == [] then 0
    else if s[|s| - 1] == '_' then DigitsValue(s[..|s| - 1])
    else 10 * DigitsValue(s[..|s| - 1]) + DigitValue(s[|s| - 1])
  }

  /** `int(s)` in base 10: the surrounding whitespace is skipped, an
      optional `+` or `-` sign comes next, then the digits; anything else
      raises `ValueError` (here `None`). A parse succeeds only on text that
      holds a digit, and gives a negative number only on text with a `-`. */
  function ParseInt(s: string): (r: Option<int>)
    ensures r.Some? ==> exists i :: 0 <= i < |s| && IsDigit(s[i])
    ensures r.Some? && r.value < 0 ==> exists i :: 0 <= i < |s| && s[i] == '-'
  {
    var l := StripLeading(s);
    var t := StripTrailing(l);
    assert t == s[|s| - |l|..][..|t|];
    if t != [] && (t[0] == '+' || t[0] == '-') then
      if IsDigitGroups(t[1..]) then
        var v: int := DigitsValue(t[1..]);
        assert IsDigit(s[|s| - |l| + 1]);
        assert t[0] == s[|s| - |l|];
        Some(if t[0] == '-' then -v else v)
      else None
    else if IsDigitGroups(t) then
      assert IsDigit(s[|s| - |l|]);
      Some(DigitsValue(t))
    else None
  }

  /** `str(n)` for `n >= 0`: decimal digits, no leading zero. */
  function NatToString(n: nat): (s: string)
    ensures s != [] && forall i :: 0 <= i < |s| ==> IsDigit(s[i])
    ensures |s| > 1 ==> s[0] != '0'
  {
    if n < 10 then [DigitChar(n)] else NatToString(n / 10) + [DigitChar(n % 10)]
  }

  /** `str(n)`: a minus sign before the digits of a negative number. */
  function IntToString(n: int): (s: string)
    ensures s != [] && (s[0] == '-' <==> n < 0)
    ensures forall i :: (if n < 0 then 1 else 0) <= i < |s| ==> IsDigit(s[i])
  {
    if n < 0 then ['-'] + NatToString(-n) else NatToString(n)
  }

  lemma {:induction false} DigitsValueOfNat(n: nat)
    ensures IsDigitGroups(NatToString(n))
    ensures DigitsValue(NatToString(n)) == n
    decreases n
  {
    var s := NatToString(n);
    if n >= 10 {
      DigitsValueOfNat(n / 10);
      assert s[..|s| - 1] == NatToString(n / 10);
    }
  }

  /** Text made of digits and minus signs has nothing for `int()` to skip. */
  lemma StripSignedDigits(s: string)
    requires forall i :: 0 <= i < |s| ==> IsDigit(s[i]) || s[i] == '-'
    ensures StripTrailing(StripLeading(s)) == s
  {
    assert forall i :: 0 <= i < |s| ==> !IsIntSpace(s[i]);
  }

  /** The stored `comment_count` reads back as the number written:
      `int(str(n)) == n`. */
  lemma ParseIntOfIntToString(n: int)
    ensures ParseInt(IntToString(n)) == Some(n)
  {
    var s := IntToString(n);
    var m := if n < 0 then -n else n;
    DigitsValueOfNat(m);
    StripSignedDigits(s);
    if n < 0 {
      assert s[1..] == NatToString(m);
    } else {
      assert s[0] != '+' && s[0] != '-';
    }
  }

  /** The separators FS..US are not whitespace to `int()`: `int("\x1c5")`
      raises, and so does `int("\x1c5\xa0")`, although a non-ASCII
      character is present. */
  lemma ParseIntSeparatorNotSpace()
    ensures ParseInt([0x1C as char, '5']) == None
    ensures ParseInt([0x1C as char, '5', 0xA0 as char]) == None
  {
    var a := [0x1C as char, '5'];
    assert StripLeading(a) == a && StripTrailing(a) == a by { assert !IsIntSpace(a[0]) && !IsIntSpace(a[1]); }
    assert !IsDigitGroups(a) by { assert !IsDigit(a[0]); }
    var b := [0x1C as char, '5', 0xA0 as char];
    assert StripLeading(b) == b by { assert !IsIntSpace(b[0]); }
    assert StripTrailing(b) == a by {
      assert IsIntSpace(b[2]) && !IsIntSpace(b[1]);
      assert b[..2] == a;
    }
  }

  /** `StripLeading` drops only characters `int()` skips. */
  lemma {:induction false} StripLeadingDropsSpace(s: string, j: nat)
    requires j < |s| - |StripLeading(s)|
    ensures IsIntSpace(s[j])
    decreases |s|
  {
    if j > 0 {
      assert s[1..][j - 1] == s[j];
      StripLeadingDropsSpace(s[1..], j - 1);
    }
  }

  /** `StripTrailing` drops only characters `int()` skips. */
  lemma {:induction false} StripTrailingDropsSpace(s: string, j: nat)
    requires |StripTrailing(s)| <= j < |s|
    ensures IsIntSpace(s[j])
    decreases |s|
  {
    if j < |s| - 1 {
      assert s[..|s| - 1][j] == s[j];
      StripTrailingDropsSpace(s[..|s| - 1], j);
    }
  }

  /** A character `int()` does not skip survives the stripping. */
  lemma StripKeeps(s: string, i: nat)
    requires i < |s| && !IsIntSpace(s[i])
    ensures s[i] in StripTrailing(StripLeading(s))
  {
    var l := StripLeading(s);
    var a := |s| - |l|;
    if i < a {
      StripLeadingDropsSpace(s, i);
    }
    assert l[i - a] == s[i];
    if i - a >= |StripTrailing(l)| {
      StripTrailingDropsSpace(l, i - a);
    }
    assert StripTrailing(l)[i - a] == s[i];
  }

  /** A separator FS..US anywhere in the text makes `int()` raise: it is
      neither skipped nor a sign, a digit or an underscore. */
  lemma ParseIntRejectsSeparator(s: string, i: nat)
    requires i < |s| && 0x1C <= s[i] as int <= 0x1F
    ensures ParseInt(s) == None
  {
    var c := s[i];
    StripKeeps(s, i);
    var t := StripTrailing(StripLeading(s));
    var k :| 0 <= k < |t| && t[k] == c;
    assert !IsDigitGroups(t);
    if t[0] == '+' || t[0] == '-' {
      assert t[1..][k - 1] == c;
      assert !IsDigitGroups(t[1..]);
    }
  }

  /** A non-ASCII space around the digits is skipped: `int("\xa05") == 5`. */
  lemma ParseIntUnicodeSpace()
    ensures ParseInt([0xA0 as char, '5']) == Some(5)
  {
    var b := [0xA0 as char, '5'];
    var t := b[1..];
    assert StripLeading(t) == t by { assert !IsIntSpace(t[0]); }
    assert StripLeading(b) == t by { assert IsIntSpace(b[0]); }
    assert StripTrailing(t) == t by { assert !IsIntSpace(t[0]); }
    assert t == ['5'] && t[..0] == [];
    assert IsDigitGroups(t) && DigitsValue(t) == 5;
  }
}
