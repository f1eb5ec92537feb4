/**
 The few operations on strings that the username protocol uses: substring search,
 trimming, lower-casing, and printing and reading decimal numbers.

 A string is one of Go: a sequence of bytes, which hold UTF-8 or something that is not. A
 character here stands for the byte of its number.
 */
module Text {

  datatype Option<+T> = None | Some(value: T)

  predicate OccursAt(s: string, t: string, i: int) {
    0 <= i && i + |t| <= |s| && s[i..i + |t|] == t
  }

  function IndexFrom(s: string, t: string, i: nat): (r: int)
    requires i <= |s|
    ensures r == -1 || (i <= r && OccursAt(s, t, r))
    ensures forall j | i <= j < (if r < 0 then |s| + 1 else r) :: !OccursAt(s, t, j)
    decreases |s| - i
  {
    if OccursAt(s, t, i) then i
    else if i == |s| then -1
    else IndexFrom(s, t, i + 1)
  }

  /** strings.Index: the first position of t in s, or -1. */
  function IndexOf(s: string, t: string): (r: int)
    ensures r == -1 || OccursAt(s, t, r)
    ensures forall j | 0 <= j < (if r < 0 then |s| + 1 else r) :: !OccursAt(s, t, j)
  {
    IndexFrom(s, t, 0)
  }

  predicate Contains(s: string, t: string) {
    IndexOf(s, t) >= 0
  }

  predicate HasPrefix(s: string, t: string) {
    OccursAt(s, t, 0)
  }

  predicate IsDigit(c: char) { '0' <= c <= '9' }

  predicate IsAlnum(c: char) { IsDigit(c) || 'A' <= c <= 'Z' || 'a' <= c <= 'z' }

  predicate IsHex(c: char) { IsDigit(c) || 'A' <= c <= 'F' || 'a' <= c <= 'f' }

  predicate IsASCII(c: char) { c as int < 0x80 }

  predicate IsASCIISpace(c: char) { 0x09 <= c as int <= 0x0D || c == ' ' }

  /** The UTF-8 encodings of the white space outside ASCII: here U+0085 and U+00A0. */
  predicate IsSpace2(a: char, b: char) {
    a as int == 0xC2 && (b as int == 0x85 || b as int == 0xA0)
  }

  /** U+1680, U+2000 to U+200A, U+2028, U+2029, U+202F, U+205F and U+3000. */
  predicate IsSpace3(a: char, b: char, c: char) {
    var x, y, z := a as int, b as int, c as int;
    || (x == 0xE1 && y == 0x9A && z == 0x80)
    || (x == 0xE2 && y == 0x80 && (0x80 <= z <= 0x8A || z == 0xA8 || z == 0xA9 || z == 0xAF))
    || (x == 0xE2 && y == 0x81 && z == 0x9F)
    || (x == 0xE3 && y == 0x80 && z == 0x80)
  }

  /** How many bytes the white space takes that s starts with; zero if it starts with none. */
  function LeadingSpace(s: string): (n: nat)
    ensures n <= |s|
  {
    if |s| >= 1 && IsASCIISpace(s[0]) then 1
    else if |s| >= 2 && IsSpace2(s[0], s[1]) then 2
    else if |s| >= 3 && IsSpace3(s[0], s[1], s[2]) then 3
    else 0
  }

  function TrailingSpace(s: string): (n: nat)
    ensures n <= |s|
  {
    var k := |s|;
    if k >= 1 && IsASCIISpace(s[k - 1]) then 1
    else if k >= 2 && IsSpace2(s[k - 2], s[k - 1]) then 2
    else if k >= 3 && IsSpace3(s[k - 3], s[k - 2], s[k - 1]) then 3
    else 0
  }

  function TrimLeft(s: string): string {
    if LeadingSpace(s) > 0 then TrimLeft(s[LeadingSpace(s)..]) else s
  }

  function TrimRight(s: string): string {
    if TrailingSpace(s) > 0 then TrimRight(s[..|s| - TrailingSpace(s)]) else s
  }

  /** strings.TrimSpace. A byte that is no valid UTF-8 is not white space. */
  function TrimSpace(s: string): string { TrimRight(TrimLeft(s)) }

  /** What starts and ends with a visible ASCII character is not trimmed. */
  lemma TrimKeeps(s: string)
    requires s != "" && IsASCII(s[0]) && !IsASCIISpace(s[0])
    requires IsASCII(s[|s| - 1]) && !IsASCIISpace(s[|s| - 1])
    ensures TrimSpace(s) == s
  {
    assert LeadingSpace(s) == 0 && TrailingSpace(s) == 0;
  }

  function LowerByte(c: char): char {
    if 'A' <= c <= 'Z' then (c as int + 32) as char else c
  }

  /** strings.ToLower, as far as ASCII is concerned: its result has the same ASCII characters at
      the same places between the others. Two characters outside ASCII have a lower case inside:
      U+0130 and U+212A. */
  function ToLower(s: string): string {
    if s == "" then ""
    else if |s| >= 2 && s[0] as int == 0xC4 && s[1] as int == 0xB0 then "i" + ToLower(s[2..])
    else if |s| >= 3 && s[0] as int == 0xE2 && s[1] as int == 0x84 && s[2] as int == 0xAA then "k" + ToLower(s[3..])
    else [LowerByte(s[0])] + ToLower(s[1..])
  }

  lemma {:induction false} LowerASCII(s: string)
    requires forall i | 0 <= i < |s| :: IsASCII(s[i])
    ensures |ToLower(s)| == |s| && forall i | 0 <= i < |s| :: ToLower(s)[i] == LowerByte(s[i])
  {
    if s != "" { LowerASCII(s[1..]); }
  }

  function DigitChar(d: nat): (c: char)
    requires d < 10
    ensures IsDigit(c)
  {
    (d + '0' as int) as char
  }

  /** fmt's %d of a number that is not negative. */
  function Decimal(n: nat): (s: string)
    ensures |s| > 0 && forall i | 0 <= i < |s| :: IsDigit(s[i])
  {
    if n < 10 then [DigitChar(n)] else Decimal(n / 10) + [DigitChar(n % 10)]
  }

  predicate AllDigits(s: string) {
    forall i | 0 <= i < |s| :: IsDigit(s[i])
  }

  function DigitsValue(s: string): nat
    requires AllDigits(s)
  {
    if s == "" then 0
    else
      assert IsDigit(s[|s| - 1]);
      10 * DigitsValue(s[..|s| - 1]) + (s[|s| - 1] as int - '0' as int)
  }

  const INT64_LIMIT := 0x8000_0000_0000_0000

  function InRange(negative: bool, n: int): Option<int> {
    if negative then (if n <= INT64_LIMIT then Some(-n) else None)
    else if n < INT64_LIMIT then Some(n) else None
  }

  /** strconv.Atoi on a 64-bit platform: an optional sign, digits, and a range check. */
  function Atoi(s: string): Option<int> {
    var negative := HasPrefix(s, "-");
    var digits := if negative || HasPrefix(s, "+") then s[1..] else s;
    if digits == "" || !AllDigits(digits) then None else InRange(negative, DigitsValue(digits))
  }

  lemma {:induction false} DecimalValue(n: nat)
    ensures DigitsValue(Decimal(n)) == n
  {
    if n < 10 {
      assert Decimal(n)[..0] == "";
    } else {
      DecimalValue(n / 10);
      assert Decimal(n)[..|Decimal(n)| - 1] == Decimal(n / 10);
    }
  }

  /** Reading back a printed number gives the number, as long as it fits 64 bits. */
  lemma AtoiDecimal(n: nat)
    ensures Atoi(Decimal(n)) == if n < INT64_LIMIT then Some(n) else None
  {
    DecimalValue(n);
    assert IsDigit(Decimal(n)[0]);
  }

  function Pow10(k: nat): nat { if k == 0 then 1 else 10 * Pow10(k - 1) }

  lemma {:induction false} DecimalLength(n: nat, k: nat)
    requires 0 < k && n < Pow10(k)
    ensures |Decimal(n)| <= k
  {
    if n >= 10 {
      assert Pow10(0) == 1 && Pow10(1) == 10;
      DecimalLength(n / 10, k - 1);
    }
  }

  // ---------------------------------------------------------------- what these functions mean

  /** White space by code point, and the UTF-8 encoding of a code point below 0x10000. */
  predicate IsWhite(c: nat) {
    || 0x09 <= c <= 0x0D || c == 0x20 || c == 0x85 || c == 0xA0 || c == 0x1680 || 0x2000 <= c <= 0x200A
    || c == 0x2028 || c == 0x2029 || c == 0x202F || c == 0x205F || c == 0x3000
  }

  function Utf8(c: nat): string
    requires c < 0x10000
  {
    if c < 0x80 then [c as char]
    else if c < 0x800 then [(0xC0 + c / 64) as char, (0x80 + c % 64) as char]
    else [(0xE0 + c / 4096) as char, (0x80 + c / 64 % 64) as char, (0x80 + c % 64) as char]
  }

  predicate AllWhite(cs: seq<nat>) {
    forall i | 0 <= i < |cs| :: cs[i] < 0x10000 && IsWhite(cs[i])
  }

  function Encoded(cs: seq<nat>): string
    requires AllWhite(cs)
  {
    if cs == [] then "" else Utf8(cs[0]) + Encoded(cs[1..])
  }

  lemma WhiteBytes(c: nat)
    requires c < 0x10000 && IsWhite(c)
    ensures var u := Utf8(c);
      || (|u| == 1 && IsASCIISpace(u[0]))
      || (|u| == 2 && IsSpace2(u[0], u[1]))
      || (|u| == 3 && IsSpace3(u[0], u[1], u[2]))
  {
  }

  lemma BytesAreSpace(u: string, s: string)
    requires
      || (|u| == 1 && IsASCIISpace(u[0]))
      || (|u| == 2 && IsSpace2(u[0], u[1]))
      || (|u| == 3 && IsSpace3(u[0], u[1], u[2]))
    ensures LeadingSpace(u + s) == |u| == TrailingSpace(s + u)
  {
  }

  lemma WhiteIsSpace(c: nat, s: string)
    requires c < 0x10000 && IsWhite(c)
    ensures LeadingSpace(Utf8(c) + s) == |Utf8(c)| == TrailingSpace(s + Utf8(c)) > 0
  {
    WhiteBytes(c);
    BytesAreSpace(Utf8(c), s);
  }

  lemma Associative(a: string, b: string, c: string)
    ensures a + b + c == a + (b + c)
  {
  }

  lemma {:induction false} TrimLeftWhite(cs: seq<nat>, s: string)
    requires AllWhite(cs) && LeadingSpace(s) == 0
    ensures TrimLeft(Encoded(cs) + s) == s
  {
    if cs == [] {
      assert Encoded(cs) + s == s;
    } else {
      var rest := Encoded(cs[1..]) + s;
      assert Encoded(cs) + s == Utf8(cs[0]) + rest;
      WhiteIsSpace(cs[0], rest);
      assert (Utf8(cs[0]) + rest)[|Utf8(cs[0])|..] == rest;
      TrimLeftWhite(cs[1..], s);
    }
  }

  lemma {:induction false} EncodedAppend(cs: seq<nat>, c: nat)
    requires AllWhite(cs) && c < 0x10000 && IsWhite(c)
    ensures AllWhite(cs + [c]) && Encoded(cs + [c]) == Encoded(cs) + Utf8(c)
  {
    if cs == [] {
      assert (cs + [c])[1..] == [];
    } else {
      assert (cs + [c])[1..] == cs[1..] + [c];
      EncodedAppend(cs[1..], c);
      Associative(Utf8(cs[0]), Encoded(cs[1..]), Utf8(c));
    }
  }

  lemma {:induction false} TrimRightWhite(s: string, cs: seq<nat>)
    requires AllWhite(cs) && TrailingSpace(s) == 0
    ensures TrimRight(s + Encoded(cs)) == s
  {
    if cs == [] {
      assert s + Encoded(cs) == s;
    } else {
      var front, c := cs[..|cs| - 1], cs[|cs| - 1];
      assert cs == front + [c];
      EncodedAppend(front, c);
      var rest := s + Encoded(front);
      assert s + Encoded(cs) == rest + Utf8(c);
      WhiteIsSpace(c, rest);
      assert (rest + Utf8(c))[..|rest + Utf8(c)| - |Utf8(c)|] == rest;
      TrimRightWhite(s, front);
    }
  }

  lemma VisibleStays(s: string, t: string)
    requires s != "" && IsASCII(s[0]) && !IsASCIISpace(s[0])
    requires IsASCII(s[|s| - 1]) && !IsASCIISpace(s[|s| - 1])
    ensures LeadingSpace(s + t) == 0 == TrailingSpace(s)
  {
  }

  /** Trimming takes away all white space before and after, and nothing of a string that starts
      and ends with a visible ASCII character. */
  lemma TrimsWhite(before: seq<nat>, s: string, after: seq<nat>)
    requires AllWhite(before) && AllWhite(after)
    requires s != "" && IsASCII(s[0]) && !IsASCIISpace(s[0])
    requires IsASCII(s[|s| - 1]) && !IsASCIISpace(s[|s| - 1])
    ensures TrimSpace(Encoded(before) + s + Encoded(after)) == s
  {
    var a, b := Encoded(before), Encoded(after);
    assert a + s + b == a + (s + b);
    VisibleStays(s, b);
    TrimLeftWhite(before, s + b);
    TrimRightWhite(s, after);
  }

  /** s spells the lower-case word w in any letter case; outside ASCII, U+0130 stands for i and
      U+212A for k. */
  predicate Spells(s: string, w: string) {
    if s == "" || w == "" then s == w
    else
      || ((s[0] == w[0] || ('A' <= s[0] <= 'Z' && s[0] as int + 32 == w[0] as int)) && Spells(s[1..], w[1..]))
      || (HasPrefix(s, Utf8(0x130)) && w[0] == 'i' && Spells(s[2..], w[1..]))
      || (HasPrefix(s, Utf8(0x212A)) && w[0] == 'k' && Spells(s[3..], w[1..]))
  }

  predicate IsLowerWord(w: string) {
    forall i | 0 <= i < |w| :: w[i] == '_' || 'a' <= w[i] <= 'z'
  }

  lemma {:induction false} LowerSpells(s: string, w: string)
    requires IsLowerWord(w)
    ensures ToLower(s) == w <==> Spells(s, w)
  {
    if s != "" && w != "" {
      var n := if HasPrefix(s, Utf8(0x130)) then 2 else if HasPrefix(s, Utf8(0x212A)) then 3 else 1;
      assert ToLower(s)[1..] == ToLower(s[n..]);
      LowerSpells(s[n..], w[1..]);
      assert ToLower(s) == w <==> ToLower(s)[0] == w[0] && ToLower(s)[1..] == w[1..];
    }
  }

  lemma {:induction false} SpellsASCII(s: string, w: string)
    requires forall i | 0 <= i < |s| :: IsASCII(s[i])
    ensures Spells(s, w) <==>
      && |s| == |w|
      && forall i | 0 <= i < |s| :: s[i] == w[i] || ('A' <= s[i] <= 'Z' && s[i] as int + 32 == w[i] as int)
  {
    if s != "" && w != "" {
      SpellsASCII(s[1..], w[1..]);
    }
  }

  function Zeros(k: nat): string { seq(k, _ => '0') }

  predicate WrittenAs(s: string, n: int, sign: string, k: nat) {
    && sign in ["", "+", "-"] && (if sign == "-" then n <= 0 else 0 <= n)
    && s == sign + (Zeros(k) + Decimal(if n < 0 then -n else n))
  }

  /** s is n written in decimal, possibly with a sign and leading zeros. */
  ghost predicate Writes(s: string, n: int) {
    exists sign, k: nat :: WrittenAs(s, n, sign, k)
  }

  lemma {:induction false} PaddedValue(k: nat, m: nat)
    ensures AllDigits(Zeros(k) + Decimal(m)) && DigitsValue(Zeros(k) + Decimal(m)) == m
  {
    var s := Zeros(k) + Decimal(m);
    if m >= 10 {
      PaddedValue(k, m / 10);
      assert s[..|s| - 1] == Zeros(k) + Decimal(m / 10);
    } else if k > 0 {
      PaddedValue(k - 1, 0);
      assert s[..|s| - 1] == Zeros(k - 1) + Decimal(0);
    } else {
      assert s[..|s| - 1] == "";
    }
  }

  lemma DecimalMore(n: nat, d: nat)
    requires 0 < n && d < 10
    ensures Decimal(10 * n + d) == Decimal(n) + [DigitChar(d)]
  {
  }

  lemma OneMoreDigit(k: nat, n: nat, d: nat) returns (more: nat)
    requires d < 10
    ensures Zeros(k) + Decimal(n) + [DigitChar(d)] == Zeros(more) + Decimal(10 * n + d)
  {
    more := k;
    if n > 0 {
      DecimalMore(n, d);
    } else {
      more := k + 1;
      assert Zeros(k) + "0" == Zeros(k + 1);
    }
  }

  lemma {:induction false} DigitsArePadded(d: string) returns (k: nat)
    requires d != "" && AllDigits(d)
    ensures d == Zeros(k) + Decimal(DigitsValue(d))
  {
    k := 0;
    var front, c := d[..|d| - 1], d[|d| - 1];
    assert d == front + [c] && IsDigit(c);
    if front == "" {
      assert Zeros(0) == "";
    } else {
      k := DigitsArePadded(front);
      k := OneMoreDigit(k, DigitsValue(front), c as int - '0' as int);
    }
  }

  lemma PrefixChar(s: string, c: char)
    ensures HasPrefix(s, [c]) <==> s != "" && s[0] == c
  {
  }

  lemma AtoiSigned(sign: string, d: string)
    requires sign in ["", "+", "-"] && d != "" && AllDigits(d)
    ensures Atoi(sign + d) == InRange(sign == "-", DigitsValue(d))
  {
    var s := sign + d;
    PrefixChar(s, '-');
    PrefixChar(s, '+');
    assert IsDigit(d[0]);
    assert s[|sign|..] == d;
  }

  lemma AtoiShape(s: string) returns (sign: string, d: string)
    requires Atoi(s).Some?
    ensures sign in ["", "+", "-"] && d != "" && AllDigits(d) && s == sign + d
  {
    sign := if HasPrefix(s, "-") then "-" else if HasPrefix(s, "+") then "+" else "";
    d := s[|sign|..];
  }

  lemma ReadIsWritten(s: string, n: int)
    requires Atoi(s) == Some(n)
    ensures Writes(s, n) && -INT64_LIMIT <= n < INT64_LIMIT
  {
    var sign, d := AtoiShape(s);
    AtoiSigned(sign, d);
    var k := DigitsArePadded(d);
    assert DigitsValue(d) == if n < 0 then -n else n;
    assert WrittenAs(s, n, sign, k);
  }

  lemma WrittenIsRead(s: string, n: int, sign: string, k: nat)
    requires WrittenAs(s, n, sign, k) && -INT64_LIMIT <= n < INT64_LIMIT
    ensures Atoi(s) == Some(n)
  {
    var m: nat := if n < 0 then -n else n;
    PaddedValue(k, m);
    AtoiSigned(sign, Zeros(k) + Decimal(m));
  }

  /** Atoi reads exactly the numbers of 64 bits, written in decimal. */
  lemma AtoiIff(s: string, n: int)
    ensures Atoi(s) == Some(n) <==> Writes(s, n) && -INT64_LIMIT <= n < INT64_LIMIT
  {
    if Atoi(s) == Some(n) { ReadIsWritten(s, n); }
    if Writes(s, n) && -INT64_LIMIT <= n < INT64_LIMIT {
      var sign, k: nat :| WrittenAs(s, n, sign, k);
      WrittenIsRead(s, n, sign, k);
    }
  }

  lemma DecimalOf120()
    ensures Decimal(120) == "120"
  {
  }
}
