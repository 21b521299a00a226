/** Strings as the relay handles them: searching, splitting, joining, trimming,
    upper-casing, and the decimal form of an unsigned byte. */
module Text {

  datatype Option<+T> = None | Some(value: T)

  /** A byte on the wire. */
  type byte = bv8

  /** An unsigned 8-bit number. */
  type u8 = n: nat | n < 256

  /** Position of the first c in s, or |s| when there is none. */
  function IndexOf(s: string, c: char): (i: nat)
    ensures i <= |s| && (i < |s| ==> s[i] == c)
    ensures forall k :: 0 <= k < i ==> s[k] != c
  {
    if s == [] || s[0] == c then 0 else 1 + IndexOf(s[1..], c)
  }

  lemma {:induction false} IndexOfUnique(s: string, c: char, i: nat)
    requires i <= |s| && (i < |s| ==> s[i] == c)
    requires forall k :: 0 <= k < i ==> s[k] != c
    ensures IndexOf(s, c) == i
  {
    var k := IndexOf(s, c);
  }

  lemma IndexOfConcat(a: string, c: char, b: string)
    requires c !in a
    ensures IndexOf(a + [c] + b, c) == |a|
    ensures (a + [c] + b)[..|a|] == a && (a + [c] + b)[|a| + 1..] == b
  {
    var s := a + [c] + b;
    assert s[..|a|] == a && s[|a| + 1..] == b;
    forall k | 0 <= k < |a| ensures s[k] != c {
      assert s[k] == a[k];
    }
    IndexOfUnique(s, c, |a|);
  }

  lemma IndexOfAbsent(s: string, c: char)
    requires c !in s
    ensures IndexOf(s, c) == |s|
  {
    IndexOfUnique(s, c, |s|);
  }

  /** Position of the last c in s, or |s| when there is none. */
  function LastIndexOf(s: string, c: char): (i: nat)
    ensures i <= |s|
    ensures i < |s| ==> s[i] == c
    ensures forall k :: (if i < |s| then i + 1 else 0) <= k < |s| ==> s[k] != c
  {
    if s == [] then 0
    else if s[|s| - 1] == c then |s| - 1
    else
      var i := LastIndexOf(s[..|s| - 1], c);
      if i == |s| - 1 then |s| else i
  }

  lemma {:induction false} LastIndexOfUnique(s: string, c: char, i: nat)
    requires i < |s| && s[i] == c
    requires forall k :: i < k < |s| ==> s[k] != c
    ensures LastIndexOf(s, c) == i
  {
  }

  lemma LastIndexOfConcat(a: string, c: char, b: string)
    requires c !in b
    ensures LastIndexOf(a + [c] + b, c) == |a|
    ensures (a + [c] + b)[..|a|] == a && (a + [c] + b)[|a| + 1..] == b
  {
    var s := a + [c] + b;
    assert s[|a|] == c && s[|a| + 1..] == b && s[..|a|] == a;
    forall k | |a| < k < |s| ensures s[k] != c {
      assert s[k] == b[k - |a| - 1];
    }
    LastIndexOfUnique(s, c, |a|);
  }

  /** The part of s before the first c: all of s when there is none. */
  function Before(s: string, c: char): (t: string)
    ensures c !in t && t <= s
  {
    s[..IndexOf(s, c)]
  }

  /** The part of s after the first c: empty when there is none. */
  function After(s: string, c: char): string {
    var i := IndexOf(s, c);
    if i == |s| then "" else s[i + 1..]
  }

  lemma BeforeConcat(a: string, c: char, b: string)
    requires c !in a
    ensures Before(a + [c] + b, c) == a && After(a + [c] + b, c) == b
  {
    IndexOfConcat(a, c, b);
  }

  lemma BeforeAbsent(s: string, c: char)
    requires c !in s
    ensures Before(s, c) == s
  {
    IndexOfAbsent(s, c);
  }

  lemma BeforeOfPrefix(a: string, b: string, c: char)
    requires c in a
    ensures Before(a + b, c) == Before(a, c)
  {
    IndexOfUnique(a + b, c, IndexOf(a, c));
  }

  lemma BeforePastPrefix(a: string, b: string, c: char)
    requires c !in a
    ensures Before(a + b, c) == a + Before(b, c)
  {
    var i := IndexOf(b, c);
    forall k | 0 <= k < |a| + i ensures (a + b)[k] != c {
      assert k < |a| ==> (a + b)[k] == a[k];
    }
    IndexOfUnique(a + b, c, |a| + i);
  }

  /** The pieces of s between occurrences of c; always at least one. */
  function Split(s: string, c: char): (parts: seq<string>)
    ensures |parts| >= 1
    ensures forall p :: p in parts ==> c !in p && forall x :: x in p ==> x in s
    decreases |s|
  {
    var i := IndexOf(s, c);
    if i == |s| then [s] else [s[..i]] + Split(s[i + 1..], c)
  }

  function Join(parts: seq<string>, c: char): string
    requires |parts| >= 1
  {
    if |parts| == 1 then parts[0] else parts[0] + [c] + Join(parts[1..], c)
  }

  lemma {:induction false} SplitJoin(parts: seq<string>, c: char)
    requires |parts| >= 1
    requires forall p :: p in parts ==> c !in p
    ensures Split(Join(parts, c), c) == parts
    decreases |parts|
  {
    if |parts| == 1 {
      IndexOfAbsent(parts[0], c);
    } else {
      SplitJoin(parts[1..], c);
      SplitConcat(parts[0], c, Join(parts[1..], c));
    }
  }

  lemma SplitConcat(a: string, c: char, b: string)
    requires c !in a
    ensures Split(a + [c] + b, c) == [a] + Split(b, c)
  {
    IndexOfConcat(a, c, b);
  }

  lemma {:induction false} JoinSplit(s: string, c: char)
    ensures Join(Split(s, c), c) == s
    decreases |s|
  {
    hide IndexOf, Join;
    var i := IndexOf(s, c);
    if i < |s| {
      JoinSplit(s[i + 1..], c);
      JoinCons(s[..i], Split(s[i + 1..], c), c);
      assert s == s[..i] + [c] + s[i + 1..];
    } else {
      JoinOne(s, c);
    }
  }

  lemma JoinOne(s: string, c: char)
    ensures Join([s], c) == s
  {
  }

  lemma JoinCons(first: string, rest: seq<string>, c: char)
    requires |rest| >= 1
    ensures Join([first] + rest, c) == first + [c] + Join(rest, c)
  {
    assert ([first] + rest)[1..] == rest;
  }

  lemma {:induction false} JoinSnoc(parts: seq<string>, last: string, c: char)
    requires |parts| >= 1
    ensures Join(parts + [last], c) == Join(parts, c) + [c] + last
    decreases |parts|
  {
    if |parts| == 1 {
      assert (parts + [last])[1..] == [last];
    } else {
      JoinSnoc(parts[1..], last, c);
      assert (parts + [last])[1..] == parts[1..] + [last];
    }
  }

  lemma {:induction false} JoinChars(parts: seq<string>, c: char, x: char)
    requires |parts| >= 1
    ensures x in Join(parts, c) <==> (|parts| > 1 && x == c) || exists p :: p in parts && x in p
    decreases |parts|
  {
    if |parts| > 1 {
      JoinChars(parts[1..], c, x);
      forall p | p in parts ensures p == parts[0] || p in parts[1..] {}
    }
  }

  /** s without its trailing characters that satisfy the test. */
  function TrimEndMatches(s: string, test: char -> bool): (t: string)
    ensures t <= s && (t == [] || !test(t[|t| - 1]))
    ensures forall i :: |t| <= i < |s| ==> test(s[i])
  {
    if s == [] || !test(s[|s| - 1]) then s else TrimEndMatches(s[..|s| - 1], test)
  }

  lemma TrimEndIdentity(s: string, test: char -> bool)
    requires s == [] || !test(s[|s| - 1])
    ensures TrimEndMatches(s, test) == s
  {
  }

  /** Unicode White_Space. */
  predicate IsWhitespace(c: char) {
    var n := c as int;
    0x09 <= n <= 0x0D || n == 0x20 || n == 0x85 || n == 0xA0 || n == 0x1680 || 0x2000 <= n <= 0x200A ||
    n == 0x2028 || n == 0x2029 || n == 0x202F || n == 0x205F || n == 0x3000
  }

  /** Among the characters up to code point 255: the five controls from tab on, the blank, next line and the
      no-break space. */
  lemma WhitespaceByte(c: char)
    requires c as int < 256
    ensures IsWhitespace(c) <==> '\t' <= c <= '\r' || c == ' ' || c as int == 133 || c as int == 160
  {
  }

  function TrimEnd(s: string): string {
    TrimEndMatches(s, IsWhitespace)
  }

  function TrimStart(s: string): string {
    if s == [] || !IsWhitespace(s[0]) then s else TrimStart(s[1..])
  }

  function Trim(s: string): string {
    TrimEnd(TrimStart(s))
  }

  /** Blanks, tabs and line ends at the end go, whatever stands before them. */
  lemma {:induction false} TrimEndDrops(s: string, blanks: string)
    requires forall i :: 0 <= i < |blanks| ==> blanks[i] in " \t\r\n"
    ensures TrimEnd(s + blanks) == TrimEnd(s)
    decreases |blanks|
  {
    if blanks == [] {
      assert s + blanks == s;
    } else {
      var n := |blanks| - 1;
      TrimEndDrops(s, blanks[..n]);
      assert (s + blanks)[..|s + blanks| - 1] == s + blanks[..n];
    }
  }

  /** A visible ASCII character at the end stays, and all before it. */
  lemma TrimEndKeeps(s: string, c: char)
    requires '!' <= c <= '~'
    ensures TrimEnd(s + [c]) == s + [c]
  {
  }

  /** Text without blanks at its ends is what trimming leaves between blanks. */
  lemma TrimBetween(before: string, s: string, after: string)
    requires forall i :: 0 <= i < |before| ==> before[i] in " \t\r\n"
    requires forall i :: 0 <= i < |after| ==> after[i] in " \t\r\n"
    requires s == "" || (!IsWhitespace(s[0]) && !IsWhitespace(s[|s| - 1]))
    ensures Trim(before + s + after) == s
  {
    hide IsWhitespace;
    if s == "" {
      BlankOnly(before + after);
      assert before + s + after == before + after;
    } else {
      TrimStartDrops(before, s + after);
      assert before + s + after == before + (s + after);
      assert TrimStart(s + after) == s + after;
      TrimEndDrops(s, after);
      TrimEndIdentity(s, IsWhitespace);
    }
  }

  lemma {:induction false} TrimStartDrops(blanks: string, s: string)
    requires forall i :: 0 <= i < |blanks| ==> blanks[i] in " \t\r\n"
    ensures TrimStart(blanks + s) == TrimStart(s)
    decreases |blanks|
  {
    if blanks == [] {
      assert blanks + s == s;
    } else {
      TrimStartDrops(blanks[1..], s);
      assert (blanks + s)[1..] == blanks[1..] + s;
    }
  }

  lemma BlankOnly(blanks: string)
    requires forall i :: 0 <= i < |blanks| ==> blanks[i] in " \t\r\n"
    ensures Trim(blanks) == ""
  {
    TrimStartDrops(blanks, "");
    assert blanks + "" == blanks;
  }

  predicate StartsWith(s: string, prefix: string) {
    prefix <= s
  }

  /** Upper case of one character with code point at most 255; the micro sign, sharp s and
      y with diaeresis leave that range, later characters are kept as they are. */
  function UpperChar(c: char): string {
    var n := c as int;
    if 'a' <= c <= 'z' || (0xE0 <= n <= 0xFE && n != 0xF7) then [(n - 0x20) as char]
    else if n == 0xDF then "SS"
    else if n == 0xFF then [0x178 as char]
    else if n == 0xB5 then [0x39C as char]
    else [c]
  }

  function Upper(s: string): string {
    if s == [] then [] else UpperChar(s[0]) + Upper(s[1..])
  }

  /** ASCII text keeps its length, small letters become capitals, and nothing else changes. */
  lemma {:induction false} UpperAscii(s: string)
    requires forall i :: 0 <= i < |s| ==> s[i] as int < 128
    ensures |Upper(s)| == |s|
    ensures forall i :: 0 <= i < |s| ==>
              Upper(s)[i] == if 'a' <= s[i] <= 'z' then (s[i] as int - 32) as char else s[i]
  {
    if s != [] {
      UpperAscii(s[1..]);
      assert Upper(s)[1..] == Upper(s[1..]);
    }
  }

  /** Beyond ASCII, up to code point 255: the small letters lose 32, the sharp s becomes two letters, and the
      capitals of the micro sign and of y with diaeresis lie elsewhere. */
  lemma UpperLatin(c: char)
    requires 128 <= c as int < 256
    ensures var n := c as int;
            UpperChar(c) == if n == 0xB5 then [0x39C as char]
                            else if n == 0xDF then "SS"
                            else if n == 0xFF then [0x178 as char]
                            else if n >= 0xE0 && n != 0xF7 then [(n - 32) as char] else [c]
  {
  }

  predicate IsDigit(c: char) {
    '0' <= c <= '9'
  }

  function DigitValue(c: char): nat
    requires IsDigit(c)
  {
    c as int - '0' as int
  }

  function DecimalValue(digits: string): nat
    requires forall c :: c in digits ==> IsDigit(c)
  {
    if digits == [] then 0
    else 10 * DecimalValue(digits[..|digits| - 1]) + DigitValue(digits[|digits| - 1])
  }

  /** Reading an unsigned byte: an optional '+', then digits with a value of at most 255. */
  function ParseU8(s: string): Option<u8> {
    var digits := if |s| > 0 && s[0] == '+' then s[1..] else s;
    if digits == [] || (exists c :: c in digits && !IsDigit(c)) then None
    else if DecimalValue(digits) > 255 then None
    else Some(DecimalValue(digits))
  }

  function Digit(n: nat): (c: char)
    requires n < 10
    ensures IsDigit(c) && DigitValue(c) == n
  {
    ('0' as int + n) as char
  }

  /** Decimal form without leading zeros. */
  function PrintU8(n: u8): (s: string)
    ensures 1 <= |s| && forall c :: c in s ==> IsDigit(c)
  {
    if n < 10 then [Digit(n)]
    else if n < 100 then [Digit(n / 10), Digit(n % 10)]
    else [Digit(n / 100), Digit(n / 10 % 10), Digit(n % 10)]
  }

  lemma {:induction false} DecimalSnoc(digits: string, d: char)
    requires forall c :: c in digits + [d] ==> IsDigit(c)
    ensures forall c :: c in digits ==> IsDigit(c)
    ensures IsDigit(d) && DecimalValue(digits + [d]) == 10 * DecimalValue(digits) + DigitValue(d)
  {
    assert forall c :: c in digits ==> c in digits + [d];
    assert d in digits + [d];
    assert (digits + [d])[..|digits|] == digits;
  }

  lemma PrintedValue(n: u8)
    ensures DecimalValue(PrintU8(n)) == n
  {
    var s := PrintU8(n);
    hide PrintU8, DecimalValue, IsDigit, DigitValue;
    assert DecimalValue([]) == 0 by { NoDigits(); }
    DecimalSnoc([], s[0]);
    assert [] + [s[0]] == [s[0]];
    PrintedDigits(n);
    if |s| >= 2 {
      DecimalSnoc([s[0]], s[1]);
      assert [s[0]] + [s[1]] == [s[0], s[1]];
      if |s| == 3 {
        DecimalSnoc([s[0], s[1]], s[2]);
        assert s == [s[0], s[1]] + [s[2]];
      } else {
        assert s == [s[0], s[1]];
      }
    } else {
      assert s == [s[0]];
    }
  }

  lemma NoDigits()
    ensures DecimalValue([]) == 0
  {
  }

  lemma PrintedDigits(n: u8)
    ensures var s := PrintU8(n);
            && |s| == (if n < 10 then 1 else if n < 100 then 2 else 3)
            && IsDigit(s[0]) && (|s| >= 2 ==> IsDigit(s[1])) && (|s| == 3 ==> IsDigit(s[2]))
            && n == (if n < 10 then DigitValue(s[0])
                     else if n < 100 then 10 * DigitValue(s[0]) + DigitValue(s[1])
                     else 10 * (10 * DigitValue(s[0]) + DigitValue(s[1])) + DigitValue(s[2]))
  {
    hide IsDigit, DigitValue;
    DecimalParts(n);
  }

  lemma DecimalParts(n: u8)
    ensures n == 10 * (10 * (n / 100) + n / 10 % 10) + n % 10
    ensures n / 100 < 10 && (n < 100 ==> n / 10 < 10 && n == 10 * (n / 10) + n % 10)
  {
  }

  /** A number is read after an optional '+', and only when it fits a byte and has nothing but digits. */
  lemma ParsedNumber(s: string)
    ensures (s != "" && (forall c :: c in s ==> IsDigit(c)) ==>
               && ParseU8(s) == (if DecimalValue(s) <= 255 then Some(DecimalValue(s)) else None)
               && ParseU8("+" + s) == ParseU8(s))
    ensures ParseU8("") == None && ParseU8("+") == None
    ensures (exists c :: c in s && !IsDigit(c) && c != '+') ==> ParseU8(s) == None
  {
    hide DecimalValue;
    assert ("+" + s)[1..] == s;
    if s != "" {
      assert s[0] in s && s == [s[0]] + s[1..];
    }
  }

  lemma ParsePrintU8(n: u8)
    ensures ParseU8(PrintU8(n)) == Some(n)
  {
    hide PrintU8, DecimalValue;
    var s := PrintU8(n);
    assert s[0] != '+' by { assert IsDigit(s[0]); }
    PrintedValue(n);
  }
}
