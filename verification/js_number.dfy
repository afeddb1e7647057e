/** The ECMAScript number conversions the core relies on: Number.prototype.toString(radix),
    parseInt(s, 16), the Uint8Array element conversion and Math.ceil of a quotient. */
module JsNumber {
  import opened Results
  import opened JsText

  /** An element of a Uint8Array. */
  type byte = b: int | 0 <= b < 256

  predicate IsDecimalDigit(c: char) {
    '0' <= c <= '9'
  }

  /** A hexadecimal digit in either case, as parseInt(…, 16) and the regular expression class
      `[a-f\d]` under the `i` flag accept it. */
  predicate IsHexDigit(c: char) {
    '0' <= c <= '9' || 'a' <= c <= 'f' || 'A' <= c <= 'F'
  }

  function DigitValue(c: char): (d: nat)
    requires IsHexDigit(c)
    ensures d < 16
    ensures IsDecimalDigit(c) <==> d < 10
  {
    if '0' <= c <= '9' then c as int - '0' as int
    else if 'a' <= c <= 'f' then c as int - 'a' as int + 10
    else c as int - 'A' as int + 10
  }

  /** The lower-case digit Number.prototype.toString uses for `d`. */
  function DigitChar(d: nat): (c: char)
    requires d < 16
    ensures IsHexDigit(c) && DigitValue(c) == d
    ensures '0' <= c <= '9' || 'a' <= c <= 'f'
  {
    if d < 10 then ('0' as int + d) as char else ('a' as int + d - 10) as char
  }

  /** Every character of `s` is a digit of the given radix. */
  predicate AllDigits(s: string, radix: nat) {
    forall i :: 0 <= i < |s| ==> IsHexDigit(s[i]) && DigitValue(s[i]) < radix
  }

  /** The value of a digit string, most significant digit first. */
  function ParseDigits(s: string, radix: nat): nat
    requires AllDigits(s, radix)
  {
    if |s| == 0 then 0
    else ParseDigits(s[..|s| - 1], radix) * radix + DigitValue(s[|s| - 1])
  }

  /** Number.prototype.toString(radix) of a non-negative integer: lower-case digits,
      no leading zero. */
  function NatToString(n: nat, radix: nat): (s: string)
    requires 2 <= radix <= 16
    ensures |s| >= 1 && AllDigits(s, radix)
    ensures s[0] != '0' || s == "0"
    ensures forall i :: 0 <= i < |s| ==> '0' <= s[i] <= '9' || 'a' <= s[i] <= 'f'
    decreases n
  {
    if n < radix then [DigitChar(n)]
    else
      var q, d := n / radix, n % radix;
      assert q < n && d < radix by {
        DivisionFacts(n, radix);
      }
      var s := NatToString(q, radix) + [DigitChar(d)];
      assert s[0] == NatToString(q, radix)[0];
      s
  }

  lemma DivisionFacts(n: nat, radix: nat)
    requires 2 <= radix <= n
    ensures n / radix < n && n % radix < radix && n / radix >= 1
    ensures n == n / radix * radix + n % radix
  {
  }

  /** Reading back the digits toString writes gives the number again. */
  lemma {:induction false} ParseNatToString(n: nat, radix: nat)
    requires 2 <= radix <= 16
    ensures ParseDigits(NatToString(n, radix), radix) == n
    decreases n
  {
    var s := NatToString(n, radix);
    if n >= radix {
      var q, d := n / radix, n % radix;
      DivisionFacts(n, radix);
      ParseNatToString(q, radix);
      assert s == NatToString(q, radix) + [DigitChar(d)];
      assert s[..|s| - 1] == NatToString(q, radix);
      assert ParseDigits(s, radix) == q * radix + d;
    }
  }

  /** The length of the longest prefix of `s` made of hexadecimal digits. */
  function HexPrefixLength(s: string): (k: nat)
    ensures k <= |s| && AllDigits(s[..k], 16)
    ensures k == |s| || !IsHexDigit(s[k])
  {
    if |s| > 0 && IsHexDigit(s[0]) then
      var k := 1 + HexPrefixLength(s[1..]);
      assert forall i :: 1 <= i < k ==> s[..k][i] == s[1..][..k - 1][i - 1];
      k
    else 0
  }

  /** The unsigned part of parseInt(s, 16): an optional "0x"/"0X" is skipped, then the
      longest run of hexadecimal digits is read. None stands for NaN, returned when that run
      is empty. */
  function ParseHexMagnitude(u: string): Option<nat> {
    var v := if |u| >= 2 && u[0] == '0' && (u[1] == 'x' || u[1] == 'X') then u[2..] else u;
    var k := HexPrefixLength(v);
    if k == 0 then None else Some(ParseDigits(v[..k], 16))
  }

  /** parseInt(s, 16) after the leading whitespace: one sign is read, then the unsigned
      part, negated after a '-'. */
  function ParseSignedHex(t: string): Option<int> {
    var negative := |t| > 0 && t[0] == '-';
    var u := if |t| > 0 && (t[0] == '-' || t[0] == '+') then t[1..] else t;
    match ParseHexMagnitude(u)
    case None => None
    case Some(magnitude) => Some(if negative then -(magnitude as int) else magnitude)
  }

  /** parseInt(s, 16) (section 19.2.5 of ECMA-262): leading whitespace is skipped, then the
      signed part is read. */
  function ParseIntHex(s: string): (r: Option<int>)
  {
    ParseSignedHex(TrimStart(s))
  }

  /** The hexadecimal prefix of digits followed by a part that does not begin with a digit
      is exactly those digits. */
  lemma HexPrefixOfParts(d: string, r: string)
    requires AllDigits(d, 16)
    requires r == [] || !IsHexDigit(r[0])
    ensures HexPrefixLength(d + r) == |d|
    ensures (d + r)[..|d|] == d
  {
    var s := d + r;
    var k := HexPrefixLength(s);
    assert forall i :: 0 <= i < |d| ==> s[i] == d[i];
    assert |r| > 0 ==> s[|d|] == r[0];
    assert forall i :: 0 <= i < k ==> s[..k][i] == s[i];
    assert s[..|d|] == d;
  }

  /** The unsigned part, piece by piece: a prefix `x` that is empty, "0x" or "0X", a run of
      digits `d` and a rest `r` that does not continue the run read as the value of `d`, or
      NaN when `d` is empty. (When `x` is empty, "0" followed by 'x' is the prefix, not a run.) */
  lemma {:induction false} HexMagnitudeParts(x: string, d: string, r: string)
    requires x == "" || x == "0x" || x == "0X"
    requires AllDigits(d, 16)
    requires r == [] || !IsHexDigit(r[0])
    requires x == "" && d == "0" ==> r == [] || (r[0] != 'x' && r[0] != 'X')
    ensures ParseHexMagnitude(x + d + r) == if d == [] then None else Some(ParseDigits(d, 16))
  {
    var u := x + d + r;
    var v := if |u| >= 2 && u[0] == '0' && (u[1] == 'x' || u[1] == 'X') then u[2..] else u;
    assert v == d + r by {
      if x == "" {
        assert u == d + r;
        if |d| >= 2 {
          assert u[1] == d[1];
        } else if |d| == 1 && |r| > 0 {
          assert u[1] == r[0];
        } else if |d| == 0 && |r| > 0 {
          assert u[0] == r[0];
        }
      } else {
        assert u[2..] == d + r;
      }
    }
    HexPrefixOfParts(d, r);
  }

  /** The signed part: a sign followed by an unsigned text `u` that reads as `m` (and, with
      no sign, does not begin with one) reads as `m`, negated after a '-'. */
  lemma {:induction false} SignedParts(sign: string, u: string, m: Option<nat>)
    requires sign == "" || sign == "+" || sign == "-"
    requires sign == "" && u != [] ==> u[0] != '+' && u[0] != '-'
    requires ParseHexMagnitude(u) == m
    ensures m.None? ==> ParseSignedHex(sign + u) == None
    ensures m.Some? ==> ParseSignedHex(sign + u) == Some(if sign == "-" then -(m.value as int) else m.value)
  {
    if sign == "" {
      assert sign + u == u;
    } else {
      assert (sign + u)[0] == sign[0] && (sign + u)[1..] == u;
    }
  }

  /** Whitespace followed by a text that does not begin with whitespace: parseInt reads
      that text's signed part. */
  lemma ParseIntHexAfterBlank(w: string, t: string)
    requires AllWhitespace(w)
    requires t == [] || !IsWhitespace(t[0])
    ensures ParseIntHex(w + t) == ParseSignedHex(t)
  {
    TrimStartAfterBlank(w, t);
  }

  /** Concatenation regrouped, kept apart from the facts about the pieces. */
  lemma Regroup(w: string, sign: string, x: string, d: string, r: string)
    ensures w + sign + x + d + r == w + (sign + (x + d + r))
  {
  }

  /** A sign, an optional prefix and a non-empty run of digits begin with no whitespace,
      and, without the sign, with no sign character. */
  lemma FirstOfSigned(sign: string, x: string, d: string, r: string)
    requires sign == "" || sign == "+" || sign == "-"
    requires x == "" || x == "0x" || x == "0X"
    requires |d| > 0 && AllDigits(d, 16)
    ensures sign == "" ==> (x + d + r)[0] != '+' && (x + d + r)[0] != '-'
    ensures !IsWhitespace((sign + (x + d + r))[0])
  {
    assert (x + d + r)[0] == if x == "" then d[0] else '0';
  }

  /** What parseInt(s, 16) reads, part by part: leading whitespace `w`, a sign, an optional
      "0x"/"0X" prefix `x`, a non-empty run of digits `d` and a rest `r` that does not continue
      the run give the value of `d`, negated after a '-'. (When `x` is empty, "0" followed by
      'x' is the prefix, not a digit run.) */
  lemma {:induction false} ParseIntHexParts(w: string, sign: string, x: string, d: string, r: string)
    requires AllWhitespace(w)
    requires sign == "" || sign == "+" || sign == "-"
    requires x == "" || x == "0x" || x == "0X"
    requires |d| > 0 && AllDigits(d, 16)
    requires r == [] || !IsHexDigit(r[0])
    requires x == "" && d == "0" ==> r == [] || (r[0] != 'x' && r[0] != 'X')
    ensures ParseIntHex(w + sign + x + d + r)
      == Some(if sign == "-" then -(ParseDigits(d, 16) as int) else ParseDigits(d, 16))
  {
    Regroup(w, sign, x, d, r);
    ParseIntHexGrouped(w, sign, x, d, r);
  }

  /** ParseIntHexParts with the concatenation grouped from the right. */
  lemma {:induction false} ParseIntHexGrouped(w: string, sign: string, x: string, d: string, r: string)
    requires AllWhitespace(w)
    requires sign == "" || sign == "+" || sign == "-"
    requires x == "" || x == "0x" || x == "0X"
    requires |d| > 0 && AllDigits(d, 16)
    requires r == [] || !IsHexDigit(r[0])
    requires x == "" && d == "0" ==> r == [] || (r[0] != 'x' && r[0] != 'X')
    ensures ParseIntHex(w + (sign + (x + d + r)))
      == Some(if sign == "-" then -(ParseDigits(d, 16) as int) else ParseDigits(d, 16))
  {
    SignedHexParts(sign, x, d, r);
    ParseIntHexAfterBlank(w, sign + (x + d + r));
  }

  /** The signed part, piece by piece: a sign, an optional prefix, a non-empty run of digits
      and a rest that does not continue the run read as the value of the run, negated after
      a '-'; such a text does not begin with whitespace. */
  lemma {:induction false} SignedHexParts(sign: string, x: string, d: string, r: string)
    requires sign == "" || sign == "+" || sign == "-"
    requires x == "" || x == "0x" || x == "0X"
    requires |d| > 0 && AllDigits(d, 16)
    requires r == [] || !IsHexDigit(r[0])
    requires x == "" && d == "0" ==> r == [] || (r[0] != 'x' && r[0] != 'X')
    ensures ParseSignedHex(sign + (x + d + r))
      == Some(if sign == "-" then -(ParseDigits(d, 16) as int) else ParseDigits(d, 16))
    ensures !IsWhitespace((sign + (x + d + r))[0])
  {
    HexMagnitudeParts(x, d, r);
    FirstOfSigned(sign, x, d, r);
    SignedParts(sign, x + d + r, Some(ParseDigits(d, 16)));
  }

  /** parseInt(s, 16) is NaN when no digit follows the skipped whitespace, sign and "0x"/"0X"
      prefix: leading whitespace `w`, a sign, a prefix `x` and a rest `r` that begins with no
      digit give NaN. (When neither a sign nor a prefix is there, `r` must not itself begin
      with whitespace or a sign, which `w` or the sign would otherwise take.) */
  lemma ParseIntHexNaN(w: string, sign: string, x: string, r: string)
    requires AllWhitespace(w)
    requires sign == "" || sign == "+" || sign == "-"
    requires x == "" || x == "0x" || x == "0X"
    requires r == [] || !IsHexDigit(r[0])
    requires sign == "" && x == "" && r != [] ==> !IsWhitespace(r[0]) && r[0] != '+' && r[0] != '-'
    ensures ParseIntHex(w + sign + x + r) == None
  {
    var u := x + r;
    Regroup(w, sign, x, [], r);
    assert x + [] + r == u && w + sign + x + [] + r == w + sign + x + r;
    assert u != [] ==> u[0] == '0' || u[0] == r[0];
    assert sign + u == [] || (sign + u)[0] == '+' || (sign + u)[0] == '-' || (sign + u)[0] == u[0];
    HexMagnitudeParts(x, [], r);
    SignedParts(sign, u, None);
    ParseIntHexAfterBlank(w, sign + u);
  }

  /** parseInt(s, 16) of a non-empty string of hexadecimal digits that does not begin with
      "0x" or "0X" is the value of those digits. */
  lemma ParseIntHexOfDigits(s: string)
    requires |s| > 0 && AllDigits(s, 16)
    requires !(|s| >= 2 && s[0] == '0' && (s[1] == 'x' || s[1] == 'X'))
    ensures ParseIntHex(s) == Some(ParseDigits(s, 16))
  {
    assert LeadingWhitespace(s) == 0 by {
      assert !IsWhitespace(s[0]);
    }
    assert TrimStart(s) == s;
    HexPrefixOfDigits(s);
    assert s[..|s|] == s;
  }

  /** The hexadecimal prefix of a string of hexadecimal digits is all of it. */
  lemma HexPrefixOfDigits(s: string)
    requires AllDigits(s, 16)
    ensures HexPrefixLength(s) == |s|
  {
  }

  /** ToUint8 (section 7.1.11 of ECMA-262), as storing a number into a Uint8Array does:
      NaN becomes 0, any integer is reduced modulo 256. */
  function ToUint8(v: Option<int>): (b: byte)
    ensures v.Some? && 0 <= v.value < 256 ==> b == v.value
    ensures v.None? ==> b == 0
    ensures v.Some? ==> (b - v.value) % 256 == 0
  {
    match v
    case None => 0
    case Some(n) => n % 256
  }

  /** Math.ceil(a / b) for a positive divisor. */
  function CeilDiv(a: int, b: int): (q: int)
    requires b > 0
    ensures (q - 1) * b < a <= q * b
  {
    -((-a) / b)
  }
}
