/**
 * Byte-level building blocks shared by both response parsers: the machine
 * integer ranges, `Option`/`Result`, the cursor over a byte buffer, `memchr`,
 * `str::split`, `str::from_utf8` and Rust's unsigned integer parsing.
 *
 * A byte is modelled by the character whose code is that byte, so that byte
 * strings can be written as string literals ("\r\n" is the bytes 13, 10).
 * A Rust `&str` is modelled by its UTF-8 encoding, a sequence of bytes: the
 * parsers only ever compare text with ASCII literals and split it on the ASCII
 * separator ": ", and both operations give the same answers on the bytes as on
 * the characters.
 */
module Bytes {

  type byte = c: char | c as int < 256
  type Text = seq<byte>

  const U16_MAX: nat := 0xFFFF
  /** `usize` of a 64-bit target. */
  const USIZE_MAX: nat := 0xFFFF_FFFF_FFFF_FFFF

  type u16 = x: int | 0 <= x <= U16_MAX
  type usize = x: int | 0 <= x <= USIZE_MAX

  const CR: byte := '\r'
  const LF: byte := '\n'
  const PLUS: byte := '+'
  const MINUS: byte := '-'
  const CRLF: Text := "\r\n"

  datatype Option<+T> = None | Some(value: T)

  datatype Result<+T, +E> = Ok(value: T) | Err(error: E)

  /** The separator `Header::serialize` splits on. */
  const SEP: Text := ": "

  predicate IsAscii(s: Text) {
    forall i :: 0 <= i < |s| ==> s[i] as int < 128
  }

  /** A non-empty sequence is its front and its last element. */
  lemma InitLast<T>(s: seq<T>)
    requires |s| > 0
    ensures s[..|s| - 1] + [s[|s| - 1]] == s
  {
  }

  lemma AppendAssoc(a: Text, b: Text, c: Text)
    ensures (a + b) + c == a + (b + c)
  {
  }

  lemma SliceAfter(a: Text, b: Text, i: nat, j: nat)
    requires |a| <= i <= j <= |a| + |b|
    ensures (a + b)[i..j] == b[i - |a|..j - |a|]
  {
  }

  lemma PrefixOfAppend(a: Text, b: Text, n: nat)
    requires n <= |a|
    ensures (a + b)[..n] == a[..n]
  {
  }

  /** `memchr(b, s)`: the index of the first occurrence of `b` in `s`. */
  function IndexOf(s: Text, b: byte): (r: Option<nat>)
    ensures r.Some? ==> r.value < |s| && s[r.value] == b
    ensures r.Some? ==> forall j :: 0 <= j < r.value ==> s[j] != b
    ensures r.None? ==> forall j :: 0 <= j < |s| ==> s[j] != b
  {
    if |s| == 0 then None
    else if s[0] == b then Some(0)
    else match IndexOf(s[1..], b)
      case None => None
      case Some(i) => Some(i + 1)
  }

  /**
   * What `Cursor::fill_buf` yields once the cursor stands at `pos`: the
   * unread bytes, or nothing when `consume` has moved it past the end.
   */
  function Rest(s: Text, pos: nat): (r: Text)
    ensures pos <= |s| ==> r == s[pos..]
    ensures pos >= |s| ==> r == []
  {
    if pos <= |s| then s[pos..] else []
  }

  lemma RestAfter(a: Text, b: Text)
    ensures Rest(a + b, |a|) == b
  {
  }

  lemma RestRest(s: Text, p: nat, q: nat)
    ensures Rest(Rest(s, p), q) == Rest(s, p + q)
  {
  }

  predicate OccursAt(s: Text, pat: Text, j: nat) {
    j + |pat| <= |s| && s[j..j + |pat|] == pat
  }

  lemma OccursShift(s: Text, pat: Text)
    requires |s| > 0
    ensures forall j: nat :: 1 <= j ==> (OccursAt(s, pat, j) <==> OccursAt(s[1..], pat, j - 1))
  {
    forall j: nat | 1 <= j ensures OccursAt(s, pat, j) <==> OccursAt(s[1..], pat, j - 1) {
      if j + |pat| <= |s| {
        var a, b := s[j..j + |pat|], s[1..][j - 1..j - 1 + |pat|];
        forall i | 0 <= i < |pat| ensures a[i] == b[i] {
          assert b[i] == s[1..][j - 1 + i];
        }
        assert a == b;
      }
    }
  }

  /** The index of the first (leftmost) occurrence of `pat` in `s`. */
  function Find(s: Text, pat: Text): (r: Option<nat>)
    requires |pat| > 0
    ensures r.Some? ==> OccursAt(s, pat, r.value)
    ensures r.Some? ==> forall j: nat :: j < r.value ==> !OccursAt(s, pat, j)
    ensures r.None? ==> forall j: nat :: !OccursAt(s, pat, j)
    decreases |s|
  {
    if |s| < |pat| then None
    else if s[..|pat|] == pat then Some(0)
    else
      OccursShift(s, pat);
      assert !OccursAt(s, pat, 0) by { assert s[0..|pat|] == s[..|pat|]; }
      match Find(s[1..], pat)
      case None => None
      case Some(i) => Some(i + 1)
  }

  /** `s` holds no ": ". */
  predicate NoSep(s: Text) {
    forall j: nat :: j < |s| ==> !OccursAt(s, SEP, j)
  }

  /**
   * `let mut split = line.split(sep); (split.next(), split.next())` when both
   * are present: the text before the first separator, and the text between
   * the first and the second separator (or the end of the line).
   */
  function SplitFirstTwo(line: Text): Option<(Text, Text)> {
    match Find(line, SEP)
    case None => None
    case Some(k) =>
      var rest := line[k + |SEP|..];
      Some((line[..k], match Find(rest, SEP) case None => rest case Some(j) => rest[..j]))
  }

  /**
   * A line splits exactly when it holds a separator; neither piece holds
   * one, and the line starts with the pieces joined by one.
   */
  lemma SplitFirstTwoParts(line: Text)
    ensures var r := SplitFirstTwo(line);
      && (r.None? <==> NoSep(line))
      && (r.Some? ==> NoSep(r.value.0) && NoSep(r.value.1))
      && (r.Some? ==> |r.value.0| + |SEP| + |r.value.1| <= |line|)
      && (r.Some? ==> line[..|r.value.0| + |SEP| + |r.value.1|] == r.value.0 + SEP + r.value.1)
  {
    match Find(line, SEP)
    case None =>
    case Some(k) =>
      var name := line[..k];
      var rest := line[k + |SEP|..];
      var value := match Find(rest, SEP) case None => rest case Some(j) => rest[..j];
      NoSepPrefix(line, k);
      assert line[..k + |SEP| + |value|] == name + SEP + value by {
        assert line[k..k + |SEP|] == SEP;
        assert rest[..|value|] == value;
        assert line[k + |SEP|..k + |SEP| + |value|] == rest[..|value|];
        assert line[..k + |SEP| + |value|] == line[..k] + line[k..k + |SEP|] + line[k + |SEP|..k + |SEP| + |value|];
      }
      match Find(rest, SEP)
      case None =>
      case Some(j) => NoSepPrefix(rest, j);
  }

  /** A prefix that ends before the first separator holds no separator. */
  lemma NoSepPrefix(s: Text, k: nat)
    requires k <= |s|
    requires forall j: nat :: j < k ==> !OccursAt(s, SEP, j)
    ensures NoSep(s[..k])
  {
    forall j: nat | OccursAt(s[..k], SEP, j) ensures false {
      assert s[..k][j..j + |SEP|] == s[j..j + |SEP|];
      assert OccursAt(s, SEP, j);
    }
  }

  /** In `name + ": " + tail`, the first separator is the one after `name`. */
  lemma FindAfterName(name: Text, tail: Text)
    requires NoSep(name)
    ensures Find(name + SEP + tail, SEP) == Some(|name|)
  {
    var line := name + SEP + tail;
    assert SEP[0] == ':' && SEP[1] == ' ';
    forall j: nat | j < |name| ensures !OccursAt(line, SEP, j) {
      if j + 2 <= |name| {
        assert line[j..j + 2] == name[j..j + 2];
        assert !OccursAt(name, SEP, j);
      } else {
        assert line[j + 1] == ':';
        assert j + 2 <= |line| ==> line[j..j + 2][1] == line[j + 1];
      }
    }
    assert line[|name|..|name| + 2] == SEP;
    assert OccursAt(line, SEP, |name|);
  }

  /** `name + ": " + value` splits back into `name` and `value`. */
  lemma SplitJoin(name: Text, value: Text)
    requires NoSep(name) && NoSep(value)
    ensures SplitFirstTwo(name + SEP + value) == Some((name, value))
  {
    var line := name + SEP + value;
    FindAfterName(name, value);
    assert line[..|name|] == name;
    assert line[|name| + |SEP|..] == value;
  }

  /** A second separator ends the value: what follows it is not part of the split. */
  lemma SplitJoinTail(name: Text, value: Text, tail: Text)
    requires NoSep(name) && NoSep(value)
    ensures SplitFirstTwo(name + SEP + value + SEP + tail) == Some((name, value))
  {
    var line := name + SEP + value + SEP + tail;
    assert line == name + SEP + (value + SEP + tail);
    FindAfterName(name, value + SEP + tail);
    FindAfterName(value, tail);
    assert line[..|name|] == name;
    assert line[|name| + |SEP|..] == value + SEP + tail;
    assert (value + SEP + tail)[..|value|] == value;
  }

  // ---------------------------------------------------------------------
  // str::from_utf8

  predicate IsCont(b: byte) {
    0x80 <= b as int <= 0xBF
  }

  /**
   * The length of the well-formed UTF-8 sequence at the head of `s`, or 0
   * when the head is not one (an ill-formed, overlong, surrogate or
   * out-of-range sequence, or one cut short by the end of `s`).
   */
  function CharWidth(s: Text): (n: nat)
    requires |s| > 0
    ensures n <= |s| && n <= 4
    ensures s[0] as int < 0x80 <==> n == 1
  {
    var b := s[0] as int;
    if b < 0x80 then 1
    else if 0xC2 <= b <= 0xDF then
      if |s| >= 2 && IsCont(s[1]) then 2 else 0
    else if b == 0xE0 then
      if |s| >= 3 && 0xA0 <= s[1] as int <= 0xBF && IsCont(s[2]) then 3 else 0
    else if 0xE1 <= b <= 0xEC || 0xEE <= b <= 0xEF then
      if |s| >= 3 && IsCont(s[1]) && IsCont(s[2]) then 3 else 0
    else if b == 0xED then
      if |s| >= 3 && 0x80 <= s[1] as int <= 0x9F && IsCont(s[2]) then 3 else 0
    else if b == 0xF0 then
      if |s| >= 4 && 0x90 <= s[1] as int <= 0xBF && IsCont(s[2]) && IsCont(s[3]) then 4 else 0
    else if 0xF1 <= b <= 0xF3 then
      if |s| >= 4 && IsCont(s[1]) && IsCont(s[2]) && IsCont(s[3]) then 4 else 0
    else if b == 0xF4 then
      if |s| >= 4 && 0x80 <= s[1] as int <= 0x8F && IsCont(s[2]) && IsCont(s[3]) then 4 else 0
    else 0
  }

  /** `str::from_utf8(s).is_ok()`. */
  predicate ValidUtf8(s: Text)
    decreases |s|
  {
    |s| == 0 || (CharWidth(s) > 0 && ValidUtf8(s[CharWidth(s)..]))
  }

  lemma {:induction false} AsciiIsValidUtf8(s: Text)
    requires IsAscii(s)
    ensures ValidUtf8(s)
    decreases |s|
  {
    if |s| > 0 {
      assert CharWidth(s) == 1;
      assert IsAscii(s[1..]) by {
        forall i | 0 <= i < |s| - 1 ensures s[1..][i] as int < 128 { assert s[1..][i] == s[i + 1]; }
      }
      AsciiIsValidUtf8(s[1..]);
    }
  }

  lemma {:induction false} Utf8Concat(a: Text, b: Text)
    requires ValidUtf8(a) && ValidUtf8(b)
    ensures ValidUtf8(a + b)
    decreases |a|
  {
    if |a| == 0 {
      assert a + b == b;
    } else {
      var n := CharWidth(a);
      assert (a + b)[..n] == a[..n];
      CharWidthPrefix(a, a + b);
      assert (a + b)[n..] == a[n..] + b;
      Utf8Concat(a[n..], b);
    }
  }

  /** The width of a well-formed head does not depend on what follows it. */
  lemma CharWidthPrefix(a: Text, s: Text)
    requires |a| > 0 && CharWidth(a) > 0
    requires |a| <= |s| && s[..|a|] == a
    ensures CharWidth(s) == CharWidth(a)
  {
    assert forall i :: 0 <= i < |a| ==> s[i] == a[i] by {
      forall i | 0 <= i < |a| ensures s[i] == a[i] { assert s[..|a|][i] == s[i]; }
    }
  }

  // ---------------------------------------------------------------------
  // <uN as FromStr>::from_str and uN::from_str_radix

  /** `char::to_digit(radix)` applied to one byte. */
  function DigitValue(b: byte, radix: nat): (r: Option<nat>)
    requires 2 <= radix <= 36
    ensures r.Some? ==> r.value < radix && b as int < 128
  {
    var d :=
      if '0' <= b <= '9' then b as int - '0' as int
      else if 'a' <= b <= 'z' then b as int - 'a' as int + 10
      else if 'A' <= b <= 'Z' then b as int - 'A' as int + 10
      else 36;
    if d < radix then Some(d) else None
  }

  /** The value of a run of digits, or `None` if some byte is not a digit. */
  function DigitsValue(ds: Text, radix: nat): Option<nat>
    requires 2 <= radix <= 36
    decreases |ds|
  {
    if |ds| == 0 then Some(0)
    else match DigitsValue(ds[..|ds| - 1], radix)
      case None => None
      case Some(v) =>
        match DigitValue(ds[|ds| - 1], radix)
        case None => None
        case Some(d) => Some(v * radix + d)
  }

  /**
   * Rust's parsing of an unsigned integer type whose largest value is `max`:
   * an optional leading `+`, then at least one digit of `radix`, and a value
   * that fits. Rust checks each multiply and add for overflow; since the
   * running value never decreases, one of them overflows exactly when the
   * final value exceeds `max`. A `-` is not a digit, so it is refused.
   */
  function ParseUnsigned(s: Text, radix: nat, max: nat): (r: Option<nat>)
    requires 2 <= radix <= 36
    ensures r.Some? ==> r.value <= max
  {
    if |s| == 0 || s == [PLUS] then None
    else
      var digits := if s[0] == PLUS then s[1..] else s;
      match DigitsValue(digits, radix)
      case None => None
      case Some(v) => if v <= max then Some(v) else None
  }

  /** `str::parse::<usize>`. */
  function ParseUsize(s: Text): (r: Option<usize>)
    ensures r.Some? <==> ParseUnsigned(s, 10, USIZE_MAX).Some?
    ensures r.Some? ==> r.value == ParseUnsigned(s, 10, USIZE_MAX).value
  {
    match ParseUnsigned(s, 10, USIZE_MAX)
    case None => None
    case Some(v) => Some(v)
  }

  /** `str_to_usize`: `from_utf8`, then `usize::from_str_radix(_, 16)`. */
  function StrToUsize(line: Text): Option<usize> {
    if ValidUtf8(line) then
      match ParseUnsigned(line, 16, USIZE_MAX)
      case None => None
      case Some(v) => Some(v)
    else None
  }

  lemma {:induction false} DigitsValueAllDigits(ds: Text, radix: nat)
    requires 2 <= radix <= 36
    requires DigitsValue(ds, radix).Some?
    ensures forall i :: 0 <= i < |ds| ==> DigitValue(ds[i], radix).Some?
    decreases |ds|
  {
    if |ds| > 0 {
      var init := ds[..|ds| - 1];
      DigitsValueAllDigits(init, radix);
      assert forall i :: 0 <= i < |init| ==> init[i] == ds[i];
    }
  }

  /** Whatever `ParseUnsigned` accepts is ASCII. */
  lemma ParsedIsAscii(s: Text, radix: nat, max: nat)
    requires 2 <= radix <= 36
    requires ParseUnsigned(s, radix, max).Some?
    ensures IsAscii(s)
  {
    var digits := if s[0] == PLUS then s[1..] else s;
    DigitsValueAllDigits(digits, radix);
    forall i | 0 <= i < |s| ensures s[i] as int < 128 {
      if s[0] == PLUS && i > 0 {
        assert s[i] == digits[i - 1];
      }
    }
  }

  /** Whatever `ParseUnsigned` accepts is UTF-8. */
  lemma ParsedIsValidUtf8(s: Text, radix: nat, max: nat)
    requires 2 <= radix <= 36
    ensures ParseUnsigned(s, radix, max).Some? ==> ValidUtf8(s)
  {
    if ParseUnsigned(s, radix, max).Some? {
      ParsedIsAscii(s, radix, max);
      AsciiIsValidUtf8(s);
    }
  }

  /**
   * The UTF-8 check in `str_to_usize` never changes its answer: a byte
   * sequence that is not UTF-8 has a non-ASCII byte, which is no hex digit.
   */
  lemma StrToUsizeIsHexParse(line: Text)
    ensures StrToUsize(line).Some? <==> ParseUnsigned(line, 16, USIZE_MAX).Some?
    ensures StrToUsize(line).Some? ==> StrToUsize(line).value == ParseUnsigned(line, 16, USIZE_MAX).value
  {
    ParsedIsValidUtf8(line, 16, USIZE_MAX);
  }

  /** A leading `+` is accepted once: `"+7"` parses like `"7"`. */
  lemma PlusSignAccepted(s: Text, radix: nat, max: nat)
    requires 2 <= radix <= 36
    requires |s| > 0 && s[0] != PLUS
    ensures ParseUnsigned([PLUS] + s, radix, max) == ParseUnsigned(s, radix, max)
  {
    assert ([PLUS] + s)[1..] == s;
  }

  /** A leading `-` is refused, whatever follows it. */
  lemma MinusSignRefused(s: Text, radix: nat, max: nat)
    requires 2 <= radix <= 36
    ensures ParseUnsigned([MINUS] + s, radix, max).None?
  {
    var t := [MINUS] + s;
    if ParseUnsigned(t, radix, max).Some? {
      DigitsValueAllDigits(t, radix);
    }
  }

  /** The digit byte for `d`, lower-case past 9. */
  function DigitByte(d: nat): (b: byte)
    requires d < 36
    ensures b as int < 128 && b != PLUS
  {
    (if d < 10 then '0' as int + d else 'a' as int + d - 10) as char
  }

  /** The shortest `radix` rendering of `n`, most significant digit first. */
  function Digits(n: nat, radix: nat): (r: Text)
    requires 2 <= radix <= 36
    ensures |r| > 0 && r[0] != PLUS && IsAscii(r)
    decreases n
  {
    if n < radix then [DigitByte(n)]
    else
      DivMod(n, radix);
      var init := Digits(n / radix, radix);
      var r := init + [DigitByte(n % radix)];
      assert r[0] == init[0];
      r
  }

  lemma DigitByteValue(d: nat, radix: nat)
    requires 2 <= radix <= 36 && d < radix
    ensures DigitValue(DigitByte(d), radix) == Some(d)
  {
  }

  lemma DivMod(n: nat, radix: nat)
    requires radix >= 2
    ensures n == (n / radix) * radix + n % radix
    ensures n >= radix ==> n / radix < n
  {
  }

  /** Appending a digit multiplies by the radix and adds its value. */
  lemma DigitsValueStep(n: nat, radix: nat)
    requires 2 <= radix <= 36 && n >= radix
    requires DigitsValue(Digits(n / radix, radix), radix) == Some(n / radix)
    ensures DigitsValue(Digits(n, radix), radix) == Some(n)
  {
    var ds := Digits(n, radix);
    var q, m := n / radix, n % radix;
    DivMod(n, radix);
    DigitByteValue(m, radix);
    var init := Digits(q, radix);
    assert ds == init + [DigitByte(m)];
    assert ds[..|ds| - 1] == init;
    assert ds[|ds| - 1] == DigitByte(m);
  }

  lemma {:induction false} DigitsValueOfDigits(n: nat, radix: nat)
    requires 2 <= radix <= 36
    ensures DigitsValue(Digits(n, radix), radix) == Some(n)
    decreases n
  {
    if n < radix {
      DigitByteValue(n, radix);
      assert Digits(n, radix)[..0] == [];
    } else {
      DivMod(n, radix);
      DigitsValueOfDigits(n / radix, radix);
      DigitsValueStep(n, radix);
    }
  }

  /** Parsing is the inverse of rendering, for every value that fits. */
  lemma ParseDigits(n: nat, radix: nat, max: nat)
    requires 2 <= radix <= 36 && n <= max
    ensures ParseUnsigned(Digits(n, radix), radix, max) == Some(n)
  {
    DigitsValueOfDigits(n, radix);
    var ds := Digits(n, radix);
    assert ds != [PLUS] by { assert ds[0] != PLUS; }
  }

  /** Values with more than 64 bits are refused, however they are written. */
  lemma ParseRefusesOverflow(n: nat, radix: nat, max: nat)
    requires 2 <= radix <= 36 && n > max
    ensures ParseUnsigned(Digits(n, radix), radix, max).None?
  {
    DigitsValueOfDigits(n, radix);
  }

  /**
   * `parse::<usize>` reads back the decimal digits of every 64-bit value
   * and refuses the digits of any larger value.
   */
  lemma ParseUsizeDigits(n: nat)
    ensures n <= USIZE_MAX ==> ParseUsize(Digits(n, 10)) == Some(n)
    ensures n > USIZE_MAX ==> ParseUsize(Digits(n, 10)).None?
  {
    if n <= USIZE_MAX {
      ParseDigits(n, 10, USIZE_MAX);
    } else {
      ParseRefusesOverflow(n, 10, USIZE_MAX);
    }
  }
}
