/**
 * The `"major.minor"` version properties shared by the DBPF header and the
 * S3D head: the getter joins `unicode()` of two fields with a dot, the
 * setter splits a string on dots, converts every piece with `int()` and
 * assigns the two results to the fields.
 */
module Versions {
  import opened Wrappers
  import opened FieldNames
  import opened BaseStruct
  import Bytes

  // ----- Decimal rendering: `unicode(i)` of an integer -----

  function DigitChar(d: nat): (c: char)
    requires d < 10
    ensures '0' <= c <= '9' && c as int - '0' as int == d
  {
    ['0', '1', '2', '3', '4', '5', '6', '7', '8', '9'][d]
  }

  /** The decimal digits of `n`, most significant first, without leading zeros. */
  function Digits(n: nat): (s: string)
    ensures |s| >= 1 && forall i :: 0 <= i < |s| ==> '0' <= s[i] <= '9'
    ensures |s| > 1 ==> s[0] != '0'
  {
    if n < 10 then [DigitChar(n)] else Digits(n / 10) + [DigitChar(n % 10)]
  }

  /** `unicode(i)`: an optional minus sign, then the digits. */
  function IntToString(i: int): (s: string)
    ensures |s| >= 1 && '.' !in s
  {
    if i < 0 then "-" + Digits(-i) else Digits(i)
  }

  // ----- Decimal parsing: `int(s)` -----

  predicate IsDigit(c: char)
  {
    '0' <= c <= '9'
  }

  predicate IsSpace(c: char)
  {
    c == ' ' || c == '\t' || c == '\n' || c == '\r' || c == '\U{0B}' || c == '\U{0C}'
  }

  /** `s.strip()`: drops leading and trailing whitespace. */
  function Strip(s: string): (t: string)
    ensures |t| <= |s|
    ensures t != [] ==> !IsSpace(t[0]) && !IsSpace(t[|t| - 1])
    decreases |s|
  {
    if s != [] && IsSpace(s[0]) then Strip(s[1..])
    else if s != [] && IsSpace(s[|s| - 1]) then Strip(s[..|s| - 1])
    else s
  }

  predicate AllDigits(s: string)
  {
    forall i :: 0 <= i < |s| ==> IsDigit(s[i])
  }

  /** The value of a non-empty run of decimal digits, read left to right. */
  function DigitsValue(s: string): (n: nat)
    requires AllDigits(s)
  {
    if s == [] then 0 else 10 * DigitsValue(s[..|s| - 1]) + (s[|s| - 1] as int - '0' as int)
  }

  /** `s.lstrip()`: drops leading whitespace. */
  function LStrip(s: string): (t: string)
    ensures |t| <= |s|
    ensures t != [] ==> !IsSpace(t[0])
  {
    if s != [] && IsSpace(s[0]) then LStrip(s[1..]) else s
  }

  /**
   * `int(s)` in base 10: surrounding whitespace, an optional sign, more
   * whitespace after the sign, and at least one digit; anything else is a
   * ValueError.
   */
  function ParseInt(s: string): (r: Result<int>)
    ensures r.Err? ==> r.error.ValueError?
  {
    ParseSigned(Strip(s))
  }

  /**
   * `int()` of an already stripped string: the whitespace the digit reader
   * skips again after the sign is dropped too.
   */
  function ParseSigned(t: string): (r: Result<int>)
    ensures r.Err? ==> r.error.ValueError?
  {
    if t != [] && t[0] == '-' then ParseUnsigned(LStrip(t[1..]), -1)
    else if t != [] && t[0] == '+' then ParseUnsigned(LStrip(t[1..]), 1)
    else ParseUnsigned(t, 1)
  }

  function ParseUnsigned(body: string, sign: int): (r: Result<int>)
    ensures r.Err? ==> r.error.ValueError?
  {
    if body != [] && AllDigits(body) then Ok(sign * DigitsValue(body))
    else Err(ValueError("invalid literal for int() with base 10"))
  }

  lemma {:induction false} DigitsRoundTrip(n: nat)
    ensures AllDigits(Digits(n)) && DigitsValue(Digits(n)) == n
  {
    if n >= 10 {
      DigitsRoundTrip(n / 10);
      var s := Digits(n);
      assert s[..|s| - 1] == Digits(n / 10);
    }
  }

  lemma {:induction false} StripPlain(s: string)
    requires s != [] && !IsSpace(s[0]) && !IsSpace(s[|s| - 1])
    ensures Strip(s) == s
  {
  }

  /** `int()` reads back the digits of a natural number, with or without a sign. */
  lemma {:induction false} ParseDigits(n: nat, sign: int)
    requires sign == 1 || sign == -1
    ensures ParseUnsigned(Digits(n), sign) == Ok(sign * n)
  {
    DigitsRoundTrip(n);
  }

  lemma {:induction false} DigitsPlain(n: nat)
    ensures Digits(n) != [] && IsDigit(Digits(n)[0]) && IsDigit(Digits(n)[|Digits(n)| - 1])
  {
  }

  /** `int(unicode(i)) == i` for every integer. */
  lemma {:induction false} ParseIntOfIntToString(i: int)
    ensures ParseInt(IntToString(i)) == Ok(i)
  {
    if i < 0 {
      ParseNegText(i);
    } else {
      ParseNatText(i);
    }
  }

  lemma {:induction false} ParseNegText(i: int)
    requires i < 0
    ensures ParseInt(IntToString(i)) == Ok(i)
  {
    var n: nat := -i;
    ParseSignSpace("", n, -1);
    assert "-" + "" + Digits(n) == IntToString(i);
  }

  lemma {:induction false} ParseNatText(n: nat)
    ensures ParseInt(IntToString(n)) == Ok(n)
  {
    DigitsPlain(n);
    ParseDigits(n, 1);
    StripPlain(Digits(n));
  }

  /** A run of whitespace in front of a digit is dropped by `LStrip` and nothing more. */
  lemma {:induction false} LStripSpaces(w: string, d: string)
    requires forall i :: 0 <= i < |w| ==> IsSpace(w[i])
    requires d != [] && !IsSpace(d[0])
    ensures LStrip(w + d) == d
  {
    if w != [] {
      assert (w + d)[0] == w[0];
      assert (w + d)[1..] == w[1..] + d;
      LStripSpaces(w[1..], d);
    } else {
      assert w + d == d;
    }
  }

  /** Whitespace between the sign and the digits is accepted: `int('- 7') == -7`. */
  lemma {:induction false} ParseSignSpace(w: string, n: nat, sign: int)
    requires sign == 1 || sign == -1
    requires forall i :: 0 <= i < |w| ==> IsSpace(w[i])
    ensures ParseInt((if sign < 0 then "-" else "+") + w + Digits(n)) == Ok(sign * n)
  {
    var d := Digits(n);
    var s := (if sign < 0 then "-" else "+") + w + d;
    DigitsPlain(n);
    assert s[|s| - 1] == d[|d| - 1];
    StripPlain(s);
    assert s[1..] == w + d;
    LStripSpaces(w, d);
    ParseDigits(n, sign);
  }

  /** A sign with nothing but whitespace after it is not a number. */
  lemma {:induction false} ParseSignAlone(w: string, neg: bool)
    requires forall i :: 0 <= i < |w| ==> IsSpace(w[i])
    ensures ParseInt((if neg then "-" else "+") + w).Err?
  {
    var s := (if neg then "-" else "+") + w;
    StripKeepsHead(s);
    assert Strip(s) == s[..1];
  }

  /** With no whitespace in front, `strip()` only cuts the tail. */
  lemma {:induction false} StripKeepsHead(s: string)
    requires s != [] && !IsSpace(s[0])
    ensures Strip(s) != [] && Strip(s) == s[..|Strip(s)|]
    decreases |s|
  {
    if IsSpace(s[|s| - 1]) {
      var s' := s[..|s| - 1];
      assert s'[0] == s[0];
      StripKeepsHead(s');
      assert s'[..|Strip(s')|] == s[..|Strip(s')|];
    }
  }

  /** Distinct integers render differently. */
  lemma {:induction false} IntToStringInjective(i: int, j: int)
    requires IntToString(i) == IntToString(j)
    ensures i == j
  {
    ParseIntOfIntToString(i);
    ParseIntOfIntToString(j);
  }

  // ----- `str.split('.')` -----

  /** The pieces of `s` between dots; there is always one more piece than dots. */
  function Split(s: string): (parts: seq<string>)
    ensures |parts| >= 1 && forall k :: 0 <= k < |parts| ==> '.' !in parts[k]
  {
    if '.' !in s then [s]
    else
      var i := FirstDot(s);
      [s[..i]] + Split(s[i + 1..])
  }

  function FirstDot(s: string): (i: nat)
    requires '.' in s
    ensures i < |s| && s[i] == '.' && '.' !in s[..i]
  {
    if s[0] == '.' then 0 else 1 + FirstDot(s[1..])
  }

  /** A dot-free piece followed by a dot splits off as the first part. */
  lemma {:induction false} SplitHead(a: string, rest: string)
    requires '.' !in a
    ensures Split(a + "." + rest) == [a] + Split(rest)
  {
    var s := a + "." + rest;
    FirstDotAt(a, rest);
    assert s[..|a|] == a;
    assert s[|a| + 1..] == rest;
  }

  /** Joining two dot-free pieces with a dot splits back into them. */
  lemma {:induction false} SplitJoin(a: string, b: string)
    requires '.' !in a && '.' !in b
    ensures Split(a + "." + b) == [a, b]
  {
    SplitHead(a, b);
  }

  lemma {:induction false} FirstDotAt(a: string, b: string)
    requires '.' !in a
    ensures '.' in a + "." + b && FirstDot(a + "." + b) == |a|
  {
    var s := a + "." + b;
    assert s[|a|] == '.';
    if a != [] {
      assert s[1..] == a[1..] + "." + b;
      FirstDotAt(a[1..], b);
    }
  }

  /** `map(int, parts)`: every piece is converted, the first bad one raises. */
  function ParseAll(parts: seq<string>): (r: Result<seq<int>>)
    ensures r.Ok? ==> |r.value| == |parts|
    ensures r.Err? ==> r.error.ValueError?
  {
    if parts == [] then Ok([])
    else
      var head :- ParseInt(parts[0]);
      var tail :- ParseAll(parts[1..]);
      Ok([head] + tail)
  }

  lemma {:induction false} ParseAllCons(p: string, rest: seq<string>, a: int, xs: seq<int>)
    requires ParseInt(p) == Ok(a) && ParseAll(rest) == Ok(xs)
    ensures ParseAll([p] + rest) == Ok([a] + xs)
  {
    assert ([p] + rest)[0] == p;
    assert ([p] + rest)[1..] == rest;
  }

  lemma {:induction false} ParseAllTwo(p: string, q: string, a: int, b: int)
    requires ParseInt(p) == Ok(a) && ParseInt(q) == Ok(b)
    ensures ParseAll([p, q]) == Ok([a, b])
  {
    assert ParseAll([]) == Ok([]);
    ParseAllCons(q, [], b, []);
    assert [q] + [] == [q] && [b] + [] == [b];
    ParseAllCons(p, [q], a, [b]);
    assert [p] + [q] == [p, q] && [a] + [b] == [a, b];
  }

  // ----- `unicode()` of a field value -----

  /** `unicode(v)` for the values a record holds; a byte string must be ASCII. */
  function Unicode(v: Value): (r: Result<string>)
  {
    match v
    case NoneValue => Ok("None")
    case Bool(b) => Ok(if b then "True" else "False")
    case Int(i) => Ok(IntToString(i))
    case Str(bs) =>
      if forall k :: 0 <= k < |bs| ==> bs[k] < 128 then Ok(Bytes.AsciiText(bs))
      else Err(UnicodeDecodeError)
  }

  // ----- The property -----

  /** The getter: `u'.'.join([unicode(self.<major>), unicode(self.<minor>)])`. */
  function GetVersion(r: Record, major: Name, minor: Name): Result<string>
  {
    var a :- GetAttr(r, major);
    var sa :- Unicode(a);
    var b :- GetAttr(r, minor);
    var sb :- Unicode(b);
    Ok(sa + "." + sb)
  }

  /**
   * The setter: `self.<major>, self.<minor> = map(int, version.split('.'))`.
   * A string without exactly one dot fails to unpack.
   */
  function SetVersion(r: Record, major: Name, minor: Name, version: string): (r': Result<Record>)
    requires Valid(r)
    ensures r'.Ok? ==> Valid(r'.value) && r'.value.layout == r.layout
  {
    var ints :- ParseAll(Split(version));
    if |ints| > 2 then Err(ValueError("too many values to unpack"))
    else if |ints| < 2 then Err(ValueError("need more than 1 value to unpack"))
    else Ok(SetAttr(SetAttr(r, major, Int(ints[0])), minor, Int(ints[1])))
  }

  /** Field values that render as `unicode()` of two integers. */
  predicate IntFields(r: Record, major: Name, minor: Name, a: int, b: int)
  {
    GetAttr(r, major) == Ok(Int(a)) && GetAttr(r, minor) == Ok(Int(b))
  }

  /** The getter of two integer fields is their decimal rendering joined by a dot. */
  lemma {:induction false} GetVersionOfInts(r: Record, major: Name, minor: Name, a: int, b: int)
    requires IntFields(r, major, minor, a, b)
    ensures GetVersion(r, major, minor) == Ok(IntToString(a) + "." + IntToString(b))
  {
  }

  /**
   * Setting `"a.b"` for integers `a` and `b` stores them in the two fields,
   * so the getter then returns the same string.
   */
  lemma {:induction false} SetThenGet(r: Record, major: Name, minor: Name, a: int, b: int)
    requires Valid(r) && major != minor
    ensures var r' := SetVersion(r, major, minor, IntToString(a) + "." + IntToString(b));
      r'.Ok? && IntFields(r'.value, major, minor, a, b) &&
      GetVersion(r'.value, major, minor) == Ok(IntToString(a) + "." + IntToString(b))
  {
    var s := IntToString(a) + "." + IntToString(b);
    SplitJoin(IntToString(a), IntToString(b));
    ParseIntOfIntToString(a);
    ParseIntOfIntToString(b);
    ParseAllTwo(IntToString(a), IntToString(b), a, b);
    var r1 := SetAttr(r, major, Int(a));
    var r2 := SetAttr(r1, minor, Int(b));
    assert SetVersion(r, major, minor, s) == Ok(r2);
    SetAttrFrame(r1, minor, Int(b), major);
    GetVersionOfInts(r2, major, minor, a, b);
  }

  /** Writing back the version just read leaves two integer fields as they were. */
  lemma {:induction false} GetThenSet(r: Record, major: Name, minor: Name, a: int, b: int)
    requires Valid(r) && major != minor && IntFields(r, major, minor, a, b)
    ensures var r' := SetVersion(r, major, minor, GetVersion(r, major, minor).value);
      r'.Ok? && IntFields(r'.value, major, minor, a, b)
  {
    GetVersionOfInts(r, major, minor, a, b);
    SetThenGet(r, major, minor, a, b);
  }

  /** Two dot-free renderings joined by a dot determine both pieces. */
  lemma {:induction false} JoinInjective(a: string, b: string, c: string, d: string)
    requires '.' !in a && '.' !in b && '.' !in c && '.' !in d
    requires a + "." + b == c + "." + d
    ensures a == c && b == d
  {
    SplitJoin(a, b);
    SplitJoin(c, d);
  }

  /** With integer fields, the version reads `s` exactly when the fields hold the integers `s` names. */
  lemma {:induction false} VersionIs(r: Record, major: Name, minor: Name, a: int, b: int, x: int, y: int)
    requires IntFields(r, major, minor, a, b)
    ensures GetVersion(r, major, minor) == Ok(IntToString(x) + "." + IntToString(y)) <==> a == x && b == y
  {
    GetVersionOfInts(r, major, minor, a, b);
    VersionTextIs(a, b, x, y);
  }

  /** The text `"a.b"` of two integers names exactly those integers. */
  lemma {:induction false} VersionTextIs(a: int, b: int, x: int, y: int)
    ensures IntToString(a) + "." + IntToString(b) == IntToString(x) + "." + IntToString(y) <==> a == x && b == y
  {
    if IntToString(a) + "." + IntToString(b) == IntToString(x) + "." + IntToString(y) {
      JoinInjective(IntToString(a), IntToString(b), IntToString(x), IntToString(y));
      IntToStringInjective(a, x);
      IntToStringInjective(b, y);
    }
  }

  /** A setter string with two dots fails to unpack, whatever its numbers. */
  lemma {:induction false} SetVersionTooMany(r: Record, major: Name, minor: Name, a: int, b: int, c: int)
    requires Valid(r)
    ensures SetVersion(r, major, minor, IntToString(a) + "." + IntToString(b) + "." + IntToString(c))
      == Err(ValueError("too many values to unpack"))
  {
    var x, y, z := IntToString(a), IntToString(b), IntToString(c);
    SplitThree(x, y, z);
    ParseIntOfIntToString(a);
    ParseIntOfIntToString(b);
    ParseIntOfIntToString(c);
    ParseAllThree(x, y, z, a, b, c);
  }

  lemma {:induction false} SplitThree(x: string, y: string, z: string)
    requires '.' !in x && '.' !in y && '.' !in z
    ensures Split(x + "." + y + "." + z) == [x, y, z]
  {
    assert x + "." + y + "." + z == x + "." + (y + "." + z);
    SplitHead(x, y + "." + z);
    SplitJoin(y, z);
  }

  lemma {:induction false} ParseAllThree(x: string, y: string, z: string, a: int, b: int, c: int)
    requires ParseInt(x) == Ok(a) && ParseInt(y) == Ok(b) && ParseInt(z) == Ok(c)
    ensures ParseAll([x, y, z]) == Ok([a, b, c])
  {
    ParseAllTwo(y, z, b, c);
    ParseAllCons(x, [y, z], a, [b, c]);
    assert [x] + [y, z] == [x, y, z] && [a] + [b, c] == [a, b, c];
  }

  /** A setter string without a dot has one piece, too few to unpack. */
  lemma {:induction false} SetVersionTooFew(r: Record, major: Name, minor: Name, a: int)
    requires Valid(r)
    ensures SetVersion(r, major, minor, IntToString(a)) == Err(ValueError("need more than 1 value to unpack"))
  {
    var x := IntToString(a);
    assert Split(x) == [x];
    ParseIntOfIntToString(a);
    assert ParseAll([]) == Ok([]);
    ParseAllCons(x, [], a, []);
    assert [x] + [] == [x] && [a] + [] == [a];
  }

  /** A piece that is not a number makes the setter fail before any field changes. */
  lemma {:induction false} SetVersionNotANumber(r: Record, major: Name, minor: Name, version: string, k: nat)
    requires Valid(r) && k < |Split(version)| && ParseInt(Split(version)[k]).Err?
    ensures SetVersion(r, major, minor, version).Err?
    ensures SetVersion(r, major, minor, version).error.ValueError?
  {
    ParseAllFails(Split(version), k);
  }

  lemma {:induction false} ParseAllFails(parts: seq<string>, k: nat)
    requires k < |parts| && ParseInt(parts[k]).Err?
    ensures ParseAll(parts).Err?
  {
    if k > 0 && ParseInt(parts[0]).Ok? {
      ParseAllFails(parts[1..], k - 1);
    }
  }
}
