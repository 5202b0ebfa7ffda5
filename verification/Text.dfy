/** Strings, bytes and their encodings: the primitives the wire formats are built from. */
module Text {

  datatype Option<+T> = None | Some(value: T)

  type Byte = n: int | 0 <= n < 256

  // ----- Lexicographic order on strings (the order of `Array.prototype.sort`) -----

  predicate Less(a: string, b: string) {
    if a == [] then b != []
    else b != [] && (a[0] < b[0] || (a[0] == b[0] && Less(a[1..], b[1..])))
  }

  lemma {:induction false} LessTotal(a: string, b: string)
    ensures a == b || Less(a, b) || Less(b, a)
    ensures !(Less(a, b) && Less(b, a))
    ensures !Less(a, a)
  {
    if a != [] {
      LessTotal(a[1..], a[1..]);
      if b != [] && a[0] == b[0] {
        LessTotal(a[1..], b[1..]);
        assert a == [a[0]] + a[1..] && b == [b[0]] + b[1..];
      }
    }
  }

  lemma {:induction false} LessTransitive(a: string, b: string, c: string)
    requires Less(a, b) && Less(b, c)
    ensures Less(a, c)
  {
    if a != [] && a[0] == b[0] && b[0] == c[0] {
      LessTransitive(a[1..], b[1..], c[1..]);
    }
  }

  /** Up to position `k` the texts agree, and there the first one ends or has the smaller character. */
  ghost predicate DiffersAt(a: string, b: string, k: nat) {
    && k <= |a| && k < |b| && a[..k] == b[..k]
    && (k < |a| ==> a[k] < b[k])
  }

  /** Dictionary order: the first difference decides, and a proper prefix comes first. */
  ghost predicate LexBefore(a: string, b: string) { exists k: nat :: DiffersAt(a, b, k) }

  lemma {:induction false} LessIff(a: string, b: string)
    ensures Less(a, b) <==> LexBefore(a, b)
  {
    if a == [] || b == [] || a[0] < b[0] {
      if Less(a, b) { assert DiffersAt(a, b, 0); }
    } else if a[0] == b[0] {
      LessIff(a[1..], b[1..]);
      if Less(a, b) {
        var k: nat :| DiffersAt(a[1..], b[1..], k);
        DiffersLater(a, b, k);
      }
      forall k: nat | DiffersAt(a, b, k) ensures Less(a, b) {
        DiffersEarlier(a, b, k);
      }
    } else {
      forall k: nat ensures !DiffersAt(a, b, k) {
        assert k > 0 && k <= |a| && k < |b| ==> a[..k][0] == a[0] && b[..k][0] == b[0];
      }
    }
  }

  lemma DiffersLater(a: string, b: string, k: nat)
    requires a != [] && b != [] && a[0] == b[0] && DiffersAt(a[1..], b[1..], k)
    ensures DiffersAt(a, b, k + 1)
  {
    assert a[..k + 1] == [a[0]] + a[1..][..k] && b[..k + 1] == [b[0]] + b[1..][..k];
  }

  lemma DiffersEarlier(a: string, b: string, k: nat)
    requires a != [] && b != [] && a[0] == b[0] && DiffersAt(a, b, k)
    ensures k > 0 && DiffersAt(a[1..], b[1..], k - 1)
  {
    assert a[1..][..k - 1] == a[..k][1..] && b[1..][..k - 1] == b[..k][1..];
  }

  // ----- Characters and colons -----

  predicate HasColon(s: string) { ':' in s }

  /** `s.indexOf(':')`, with `|s|` standing for -1. */
  function IndexOfColon(s: string): (k: nat)
    ensures k <= |s| && ':' !in s[..k]
    ensures k < |s| ==> s[k] == ':'
  {
    if s == [] || s[0] == ':' then 0
    else
      var k := IndexOfColon(s[1..]) + 1;
      assert s[..k] == [s[0]] + s[1..][..k - 1];
      k
  }

  lemma FirstColon(left: string, right: string)
    requires ':' !in left
    ensures IndexOfColon(left + ":" + right) == |left|
    ensures (left + ":" + right)[..|left|] == left
    ensures (left + ":" + right)[|left| + 1..] == right
  {
    var s := left + ":" + right;
    var k := IndexOfColon(s);
    assert s[|left|] == ':';
    assert forall i :: 0 <= i < |left| ==> s[i] == left[i];
    assert forall i :: 0 <= i < k ==> s[..k][i] == s[i];
  }

  /** The rightmost separator splits a string in only one way. */
  lemma LastSplit(sep: char, a: string, b: string, c: string, d: string)
    requires a + [sep] + b == c + [sep] + d
    requires sep !in b && sep !in d
    ensures a == c && b == d
  {
    var s := a + [sep] + b;
    var t := c + [sep] + d;
    assert s[|a|] == sep && t[|c|] == sep;
    assert forall i :: |a| < i < |s| ==> s[i] == b[i - |a| - 1];
    assert forall i :: |c| < i < |t| ==> t[i] == d[i - |c| - 1];
    assert s[..|a|] == a && t[..|c|] == c;
    assert s[|a| + 1..] == b && t[|c| + 1..] == d;
  }

  lemma LastColonSplit(a: string, b: string, c: string, d: string)
    requires a + ":" + b == c + ":" + d
    requires ':' !in b && ':' !in d
    ensures a == c && b == d
  {
    LastSplit(':', a, b, c, d);
  }

  /** The part after a fixed middle, when the middle's last character does not occur in it. */
  lemma SplitField(a: string, mid: string, x: string, b: string, y: string)
    requires mid != "" && a + mid + x == b + mid + y
    requires mid[|mid| - 1] !in x && mid[|mid| - 1] !in y
    ensures a == b && x == y
  {
    var n := |mid| - 1;
    assert mid == mid[..n] + [mid[n]];
    assert a + mid + x == (a + mid[..n]) + [mid[n]] + x;
    assert b + mid + y == (b + mid[..n]) + [mid[n]] + y;
    LastSplit(mid[n], a + mid[..n], x, b + mid[..n], y);
    assert (a + mid[..n])[..|a|] == a && (b + mid[..n])[..|b|] == b;
  }

  // ----- Decimal numbers (template-literal rendering of a block number) -----

  function Digit(d: nat): (c: char)
    requires d < 10
    ensures '0' <= c <= '9' && c as int - '0' as int == d
  {
    ('0' as int + d) as char
  }

  function Decimal(n: nat): (s: string)
    ensures s != [] && ':' !in s
  {
    if n < 10 then [Digit(n)] else Decimal(n / 10) + [Digit(n % 10)]
  }

  lemma {:induction false} DecimalInjective(m: nat, n: nat)
    requires Decimal(m) == Decimal(n)
    ensures m == n
  {
    var s, t := Decimal(m), Decimal(n);
    assert m % 10 == s[|s| - 1] as int - '0' as int;
    assert n % 10 == t[|t| - 1] as int - '0' as int;
    if m >= 10 {
      assert s[..|s| - 1] == Decimal(m / 10);
      if n >= 10 {
        assert t[..|t| - 1] == Decimal(n / 10);
        DecimalInjective(m / 10, n / 10);
      }
    }
  }

  /** Decimal digits, without a leading zero. */
  predicate IsNumeral(s: string) {
    && s != "" && (forall i :: 0 <= i < |s| ==> s[i] in "0123456789")
    && (|s| > 1 ==> s[0] != '0')
  }

  /** The number that a text of digits denotes, the last digit being the units. */
  function NumeralValue(s: string): nat
    requires forall i :: 0 <= i < |s| ==> s[i] in "0123456789"
  {
    if s == "" then 0 else 10 * NumeralValue(s[..|s| - 1]) + (s[|s| - 1] as int - '0' as int)
  }

  /** The numeral of a number, and no other one. */
  lemma {:induction false} DecimalIff(n: nat, s: string)
    ensures s == Decimal(n) <==> IsNumeral(s) && NumeralValue(s) == n
  {
    DecimalDenotes(n);
    if IsNumeral(s) && NumeralValue(s) == n {
      DenotesOnce(s, Decimal(n));
    }
  }

  lemma {:induction false} DecimalDenotes(n: nat)
    ensures IsNumeral(Decimal(n)) && NumeralValue(Decimal(n)) == n
    ensures n > 0 ==> Decimal(n)[0] != '0'
  {
    var s := Decimal(n);
    if n < 10 {
      assert NumeralValue(s[..0]) == 0;
    } else {
      DecimalDenotes(n / 10);
      assert s[..|s| - 1] == Decimal(n / 10) && s[|s| - 1] == Digit(n % 10);
    }
  }

  lemma {:induction false} Positive(s: string)
    requires IsNumeral(s) && s[0] != '0'
    ensures NumeralValue(s) > 0
  {
    if |s| > 1 {
      Positive(s[..|s| - 1]);
    }
  }

  lemma SameUnits(x: nat, c: char, y: nat, d: char)
    requires c in "0123456789" && d in "0123456789"
    requires 10 * x + (c as int - '0' as int) == 10 * y + (d as int - '0' as int)
    ensures x == y && c == d
  {}

  lemma {:induction false} DenotesOnce(s: string, t: string)
    requires IsNumeral(s) && IsNumeral(t) && NumeralValue(s) == NumeralValue(t)
    ensures s == t
  {
    var m, n := |s| - 1, |t| - 1;
    assert s == s[..m] + [s[m]] && t == t[..n] + [t[n]];
    SameUnits(NumeralValue(s[..m]), s[m], NumeralValue(t[..n]), t[n]);
    if m > 0 { Positive(s[..m]); }
    if n > 0 { Positive(t[..n]); }
    if m > 0 && n > 0 {
      DenotesOnce(s[..m], t[..n]);
    }
  }

  // ----- Hexadecimal -----

  predicate IsHexDigit(c: char) {
    '0' <= c <= '9' || 'a' <= c <= 'f' || 'A' <= c <= 'F'
  }

  predicate IsLowerHexDigit(c: char) {
    '0' <= c <= '9' || 'a' <= c <= 'f'
  }

  /** The pattern `^[0-9a-fA-F]{64}$`. */
  predicate IsHex32(s: string) {
    |s| == 64 && forall i :: 0 <= i < |s| ==> IsHexDigit(s[i])
  }

  predicate IsLowerHex32(s: string) {
    |s| == 64 && forall i :: 0 <= i < |s| ==> IsLowerHexDigit(s[i])
  }

  function LowerChar(c: char): (l: char)
    ensures IsHexDigit(c) <==> IsLowerHexDigit(l)
    ensures IsLowerHexDigit(c) ==> l == c
  {
    if 'A' <= c <= 'Z' then (c as int + 32) as char else c
  }

  /** `toLowerCase` on the letters that can occur in hexadecimal text; other letters
      never become hexadecimal digits, so a hexadecimal test sees no difference. */
  function ToLower(s: string): (l: string)
    ensures |l| == |s|
    ensures forall i :: 0 <= i < |s| ==> l[i] == LowerChar(s[i])
    ensures IsHex32(s) ==> IsLowerHex32(l)
    ensures IsHex32(s) <==> IsHex32(l)
    ensures IsLowerHex32(s) ==> l == s
  {
    seq(|s|, i requires 0 <= i < |s| => LowerChar(s[i]))
  }

  function HexDigit(d: nat): (c: char)
    requires d < 16
    ensures IsLowerHexDigit(c)
  {
    if d < 10 then ('0' as int + d) as char else ('a' as int + d - 10) as char
  }

  function HexValue(c: char): (d: nat)
    requires IsHexDigit(c)
    ensures d < 16
    ensures HexDigit(d) == LowerChar(c)
  {
    if c <= '9' then c as int - '0' as int
    else if c <= 'F' then c as int - 'A' as int + 10
    else c as int - 'a' as int + 10
  }

  function HexEncode(bytes: seq<Byte>): (s: string)
    ensures |s| == 2 * |bytes|
    ensures forall i :: 0 <= i < |s| ==> IsLowerHexDigit(s[i])
  {
    if bytes == [] then []
    else [HexDigit(bytes[0] / 16), HexDigit(bytes[0] % 16)] + HexEncode(bytes[1..])
  }

  predicate AllHex(s: string) {
    forall i :: 0 <= i < |s| ==> IsHexDigit(s[i])
  }

  /** `hex::decode`: an even number of hexadecimal digits, most significant first. */
  function HexDecode(s: string): (r: Option<seq<Byte>>)
    ensures r.Some? <==> |s| % 2 == 0 && AllHex(s)
    ensures r.Some? ==> |s| == 2 * |r.value|
  {
    if s == [] then Some([])
    else if |s| == 1 then None
    else if !IsHexDigit(s[0]) || !IsHexDigit(s[1]) then None
    else
      assert AllHex(s) ==> AllHex(s[2..]);
      assert AllHex(s[2..]) ==> AllHex(s) by {
        if AllHex(s[2..]) {
          forall i | 0 <= i < |s| ensures IsHexDigit(s[i]) {
            if i >= 2 { assert s[i] == s[2..][i - 2]; }
          }
        }
      }
      match HexDecode(s[2..])
      case None => None
      case Some(rest) => Some([HexValue(s[0]) * 16 + HexValue(s[1])] + rest)
  }

  /** The digits and letters of hexadecimal text, and lower case. */
  lemma HexAlphabet(c: char)
    ensures IsHexDigit(c) <==> c in "0123456789abcdefABCDEF"
    ensures IsLowerHexDigit(c) <==> c in "0123456789abcdef"
    ensures 'A' <= c <= 'Z' ==> LowerChar(c) == "abcdefghijklmnopqrstuvwxyz"[c as int - 'A' as int]
    ensures !('A' <= c <= 'Z') ==> LowerChar(c) == c
  {}

  /** Each byte is two digits, the high half first. */
  lemma {:induction false} HexEncodeAt(bytes: seq<Byte>, i: nat)
    requires i < |bytes|
    ensures HexEncode(bytes)[2 * i] == "0123456789abcdef"[bytes[i] / 16]
    ensures HexEncode(bytes)[2 * i + 1] == "0123456789abcdef"[bytes[i] % 16]
  {
    if i > 0 {
      HexEncodeAt(bytes[1..], i - 1);
    }
  }

  /** Texts that decode are the same up to letter case exactly when they decode to the same bytes. */
  lemma SameBytesIff(s: string, t: string)
    requires HexDecode(s).Some? && HexDecode(t).Some?
    ensures ToLower(s) == ToLower(t) <==> HexDecode(s) == HexDecode(t)
  {
    HexRoundTripText(s);
    HexRoundTripText(t);
    HexRoundTrip(HexDecode(s).value);
    HexRoundTrip(HexDecode(t).value);
  }

  /** Decoding undoes encoding. */
  lemma {:induction false} HexRoundTrip(bytes: seq<Byte>)
    ensures HexDecode(HexEncode(bytes)) == Some(bytes)
  {
    if bytes != [] {
      HexRoundTrip(bytes[1..]);
      var s := HexEncode(bytes);
      assert s[2..] == HexEncode(bytes[1..]);
      HexDigitRoundTrip(bytes[0] / 16);
      HexDigitRoundTrip(bytes[0] % 16);
      assert s[0] == HexDigit(bytes[0] / 16) && s[1] == HexDigit(bytes[0] % 16);
      assert bytes == [bytes[0]] + bytes[1..];
    }
  }

  lemma HexDigitRoundTrip(d: nat)
    requires d < 16
    ensures HexValue(HexDigit(d)) == d
  {}

  lemma HexByteRoundTrip(hi: nat, lo: nat)
    requires hi < 16 && lo < 16
    ensures (hi * 16 + lo) / 16 == hi && (hi * 16 + lo) % 16 == lo
  {}

  /** Encoding undoes decoding, up to letter case. */
  lemma {:induction false} HexRoundTripText(s: string)
    requires HexDecode(s).Some?
    ensures HexEncode(HexDecode(s).value) == ToLower(s)
  {
    if s != [] {
      var bytes := HexDecode(s).value;
      HexRoundTripText(s[2..]);
      HexByteRoundTrip(HexValue(s[0]), HexValue(s[1]));
      assert bytes[1..] == HexDecode(s[2..]).value;
      var l := HexEncode(bytes);
      assert l == [LowerChar(s[0]), LowerChar(s[1])] + ToLower(s[2..]);
      forall i | 0 <= i < |s| ensures l[i] == LowerChar(s[i]) {
        if i >= 2 { assert l[i] == ToLower(s[2..])[i - 2]; }
      }
    }
  }

  // ----- Trimming (`str::trim`) -----

  /** The characters with Unicode property White_Space. */
  predicate IsWhiteSpace(c: char) {
    var n := c as int;
    || 0x9 <= n <= 0xD || n == 0x20 || n == 0x85 || n == 0xA0 || n == 0x1680 || 0x2000 <= n <= 0x200A
    || n == 0x2028 || n == 0x2029 || n == 0x202F || n == 0x205F || n == 0x3000
  }

  function TrimStart(s: string): (t: string)
    ensures t != "" ==> !IsWhiteSpace(t[0])
  {
    if s != "" && IsWhiteSpace(s[0]) then TrimStart(s[1..]) else s
  }

  function TrimEnd(s: string): (t: string)
    ensures t <= s
    ensures t != "" ==> !IsWhiteSpace(t[|t| - 1])
  {
    if s != "" && IsWhiteSpace(s[|s| - 1]) then TrimEnd(s[..|s| - 1]) else s
  }

  function Trim(s: string): (t: string)
    ensures t != "" ==> !IsWhiteSpace(t[0]) && !IsWhiteSpace(t[|t| - 1])
  {
    TrimEnd(TrimStart(s))
  }

  ghost predicate AllWhite(s: string) { forall i :: 0 <= i < |s| ==> IsWhiteSpace(s[i]) }

  ghost predicate TrimsTo(s: string, t: string, before: string, after: string) {
    && s == before + t + after && AllWhite(before) && AllWhite(after)
    && (t != "" ==> !IsWhiteSpace(t[0]) && !IsWhiteSpace(t[|t| - 1]))
  }

  lemma {:induction false} TrimStartDrops(s: string) returns (before: string)
    ensures s == before + TrimStart(s) && AllWhite(before)
  {
    before := "";
    if s != "" && IsWhiteSpace(s[0]) {
      var rest := TrimStartDrops(s[1..]);
      before := [s[0]] + rest;
      assert s == [s[0]] + s[1..];
    }
  }

  lemma {:induction false} TrimEndDrops(s: string) returns (after: string)
    ensures s == TrimEnd(s) + after && AllWhite(after)
  {
    after := "";
    if s != "" && IsWhiteSpace(s[|s| - 1]) {
      var rest := TrimEndDrops(s[..|s| - 1]);
      after := rest + [s[|s| - 1]];
      assert s == s[..|s| - 1] + [s[|s| - 1]];
    }
  }

  /** Trimming drops white space at both ends and nothing else. */
  lemma TrimDrops(s: string) returns (before: string, after: string)
    ensures TrimsTo(s, Trim(s), before, after)
  {
    before := TrimStartDrops(s);
    after := TrimEndDrops(TrimStart(s));
  }

  /** Hexadecimal text has nothing to trim. */
  lemma TrimHex(s: string)
    requires AllHex(s)
    ensures Trim(s) == s
  {}

  // ----- UTF-8 (section 3 of RFC 3629) -----

  function Utf8Char(c: char): (bytes: seq<Byte>)
    ensures 1 <= |bytes| <= 4
  {
    var n := c as int;
    if n < 0x80 then [n]
    else if n < 0x800 then [0xC0 + n / 0x40, 0x80 + n % 0x40]
    else if n < 0x10000 then [0xE0 + n / 0x1000, 0x80 + n / 0x40 % 0x40, 0x80 + n % 0x40]
    else [0xF0 + n / 0x40000, 0x80 + n / 0x1000 % 0x40, 0x80 + n / 0x40 % 0x40, 0x80 + n % 0x40]
  }

  function Utf8(s: string): (bytes: seq<Byte>)
    ensures |bytes| >= |s|
  {
    if s == [] then [] else Utf8Char(s[0]) + Utf8(s[1..])
  }

  predicate IsTail(x: int) { 128 <= x < 192 }

  /** What bytes mean: a lead byte that gives their number, then six bits in each; no longer than needed. */
  predicate Denotes(b: seq<int>, n: int) {
    || (|b| == 1 && b[0] < 128 && n == b[0])
    || (|b| == 2 && 192 <= b[0] < 224 && IsTail(b[1]) && n >= 128 && n == (b[0] - 192) * 64 + (b[1] - 128))
    || (|b| == 3 && 224 <= b[0] < 240 && IsTail(b[1]) && IsTail(b[2]) && n >= 2048
        && n == (b[0] - 224) * 4096 + (b[1] - 128) * 64 + (b[2] - 128))
    || (|b| == 4 && 240 <= b[0] < 248 && IsTail(b[1]) && IsTail(b[2]) && IsTail(b[3]) && n >= 65536
        && n == (b[0] - 240) * 262144 + (b[1] - 128) * 4096 + (b[2] - 128) * 64 + (b[3] - 128))
  }

  lemma Utf8CharDenotes(c: char)
    ensures Denotes(Utf8Char(c), c as int)
  {
    var n := c as int;
    assert n / 0x1000 == n / 0x40 / 0x40 && n / 0x40000 == n / 0x1000 / 0x40;
  }

  lemma JoinThree<T>(a: seq<T>, b: seq<T>, c: seq<T>)
    ensures a + (b + c) == (a + b) + c
  {}

  /** The bytes of a text are those of its characters, in order. */
  lemma {:induction false} Utf8Append(s: string, t: string)
    ensures Utf8(s + t) == Utf8(s) + Utf8(t)
  {
    if s == "" {
      assert s + t == t;
    } else {
      Utf8Append(s[1..], t);
      assert (s + t)[1..] == s[1..] + t && (s + t)[0] == s[0];
      JoinThree(Utf8Char(s[0]), Utf8(s[1..]), Utf8(t));
    }
  }

  /** The first byte fixes the length, and the bytes fix the character. */
  lemma Utf8CharPrefixFree(c: char, d: char, x: seq<Byte>, y: seq<Byte>)
    requires Utf8Char(c) + x == Utf8Char(d) + y
    ensures c == d && x == y
  {
    var u, v := Utf8Char(c), Utf8Char(d);
    assert (u + x)[0] == (v + y)[0];
    assert |u| == |v|;
    assert u == (u + x)[..|u|] && v == (v + y)[..|v|];
    assert x == (u + x)[|u|..] && y == (v + y)[|v|..];
    Utf8CharInjective(c, d);
  }

  lemma Utf8CharInjective(c: char, d: char)
    requires Utf8Char(c) == Utf8Char(d)
    ensures c == d
  {
    var m, n := c as int, d as int;
    var u := Utf8Char(c);
    if |u| == 2 {
      assert m / 0x40 == n / 0x40;
    } else if |u| == 3 {
      assert m / 0x40 % 0x40 == n / 0x40 % 0x40;
      assert m / 0x1000 == m / 0x40 / 0x40 && n / 0x1000 == n / 0x40 / 0x40;
    } else if |u| == 4 {
      assert m / 0x1000 == m / 0x40 / 0x40 && n / 0x1000 == n / 0x40 / 0x40;
      assert m / 0x40000 == m / 0x1000 / 0x40 && n / 0x40000 == n / 0x1000 / 0x40;
      assert m / 0x1000 == n / 0x1000;
    }
  }

  lemma {:induction false} Utf8Injective(s: string, t: string)
    requires Utf8(s) == Utf8(t)
    ensures s == t
  {
    if s != [] && t != [] {
      Utf8CharPrefixFree(s[0], t[0], Utf8(s[1..]), Utf8(t[1..]));
      Utf8Injective(s[1..], t[1..]);
      assert s == [s[0]] + s[1..] && t == [t[0]] + t[1..];
    }
  }
}
