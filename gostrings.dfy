/**
  The handful of functions from Go's `strings` and `path` packages that the
  models call. A Go string is a sequence of bytes; here it is a `string`
  with one character per byte.
 */
module GoStrings {
  import opened Wrappers

  /** `strings.HasPrefix(s, p)` */
  predicate HasPrefix(s: string, p: string) {
    |p| <= |s| && s[..|p|] == p
  }

  /** `strings.HasSuffix(s, x)` */
  predicate HasSuffix(s: string, x: string) {
    |x| <= |s| && s[|s| - |x|..] == x
  }

  /** `sub` occurs in `s` starting at byte offset `i`. */
  predicate OccursAt(s: string, sub: string, i: int) {
    0 <= i && i + |sub| <= |s| && s[i..i + |sub|] == sub
  }

  /** The first occurrence of `sub` at or after `from`, or -1. */
  function IndexFrom(s: string, sub: string, from: nat): (r: int)
    ensures r == -1 || (from <= r && OccursAt(s, sub, r))
    ensures forall j :: from <= j && (r == -1 || j < r) ==> !OccursAt(s, sub, j)
    decreases |s| - from
  {
    if from + |sub| > |s| then -1
    else if s[from..from + |sub|] == sub then from
    else IndexFrom(s, sub, from + 1)
  }

  /** `strings.Index(s, sub)`: the offset of the first occurrence of `sub`, or -1. */
  function Index(s: string, sub: string): (r: int)
    ensures r == -1 <==> forall j :: !OccursAt(s, sub, j)
    ensures r != -1 ==> OccursAt(s, sub, r) && forall j :: 0 <= j < r ==> !OccursAt(s, sub, j)
  {
    IndexFrom(s, sub, 0)
  }

  /** The last occurrence of `sub` starting before `upto`, or -1. */
  function LastIndexBefore(s: string, sub: string, upto: nat): (r: int)
    ensures r == -1 || (r < upto && OccursAt(s, sub, r))
    ensures forall j :: r < j < upto ==> !OccursAt(s, sub, j)
    decreases upto
  {
    if upto == 0 then -1
    else if OccursAt(s, sub, upto - 1) then upto - 1
    else LastIndexBefore(s, sub, upto - 1)
  }

  /** `strings.LastIndex(s, sub)`: the offset of the last occurrence of `sub`, or -1. */
  function LastIndex(s: string, sub: string): (r: int)
    ensures r == -1 <==> forall j :: !OccursAt(s, sub, j)
    ensures r != -1 ==> OccursAt(s, sub, r) && forall j :: r < j ==> !OccursAt(s, sub, j)
  {
    LastIndexBefore(s, sub, |s| + 1)
  }

  /** `strings.Contains(s, sub)` */
  predicate Contains(s: string, sub: string)
  {
    Index(s, sub) >= 0
  }

  /** `strings.ReplaceAll(s, from, to)` for one-byte `from` and `to`. */
  function ReplaceChar(s: string, from: char, to: char): (r: string)
    ensures |r| == |s|
    ensures forall i :: 0 <= i < |s| ==> r[i] == if s[i] == from then to else s[i]
  {
    if s == [] then []
    else [if s[0] == from then to else s[0]] + ReplaceChar(s[1..], from, to)
  }

  /** The decimal form `fmt` gives an `int` with the `%d` verb. */
  function DecimalString(n: int): (r: string)
    ensures |r| > 0
  {
    if n < 0 then "-" + Digits(-n) else Digits(n)
  }

  /** The decimal digits of a natural number, most significant first. */
  function Digits(n: nat): (r: string)
    ensures |r| > 0
    ensures forall i :: 0 <= i < |r| ==> '0' <= r[i] <= '9'
    decreases n
  {
    var d := [((n % 10) + '0' as int) as char];
    if n < 10 then d else Digits(n / 10) + d
  }

  /**
    Go's `%q` verb on a string (`strconv.Quote`): the text between double
    quotes, each character written as `QuoteChar` writes it.
   */
  function GoQuote(s: string): (r: string)
    ensures |r| >= |s| + 2 && r[0] == '"' && r[|r| - 1] == '"'
    ensures forall i :: 0 <= i < |r| ==> !IsControl(r[i])
  {
    "\"" + QuoteBody(s) + "\""
  }

  /** An ASCII control character: below a space, or DEL. */
  predicate IsControl(c: char) {
    c < ' ' || c == '\U{7F}'
  }

  const LowerHex: string := "0123456789abcdef"

  /**
    The letter `strconv.Quote` writes after a backslash for `"`, `\` and the
    seven control characters with a C escape; `None` for every other character.
   */
  function EscapeLetter(c: char): (e: Option<char>)
    ensures e.Some? ==> (IsControl(c) || c == '"' || c == '\\') && !IsControl(e.value) && e.value != 'x'
  {
    if c == '"' || c == '\\' then Some(c)
    else if c == '\U{07}' then Some('a')
    else if c == '\U{08}' then Some('b')
    else if c == '\U{0C}' then Some('f')
    else if c == '\n' then Some('n')
    else if c == '\r' then Some('r')
    else if c == '\t' then Some('t')
    else if c == '\U{0B}' then Some('v')
    else None
  }

  /** The character a letter after a backslash stands for; `None` for any other letter. */
  function UnescapeLetter(e: char): Option<char> {
    if e == '"' || e == '\\' then Some(e)
    else if e == 'a' then Some('\U{07}')
    else if e == 'b' then Some('\U{08}')
    else if e == 'f' then Some('\U{0C}')
    else if e == 'n' then Some('\n')
    else if e == 'r' then Some('\r')
    else if e == 't' then Some('\t')
    else if e == 'v' then Some('\U{0B}')
    else None
  }

  /** Every escape letter reads back as the character it was written for. */
  lemma UnescapeEscapeLetter(c: char)
    requires EscapeLetter(c).Some?
    ensures UnescapeLetter(EscapeLetter(c).value) == Some(c)
  {
  }

  /**
    How `strconv.Quote` writes one character: `"`, `\` and the seven
    C-escaped control characters as a backslash and their `EscapeLetter`;
    any other control character as `\x` and two lower-case hex digits;
    every other character as it is.
   */
  function QuoteChar(c: char): (r: string)
    ensures |r| >= 1 && forall i :: 0 <= i < |r| ==> !IsControl(r[i])
    ensures IsControl(c) || c == '"' || c == '\\' <==> r[0] == '\\'
  {
    var e := EscapeLetter(c);
    if e.Some? then ['\\', e.value]
    else if IsControl(c) then ['\\', 'x', LowerHex[c as int / 16], LowerHex[c as int % 16]]
    else [c]
  }

  /** The quoted text without its surrounding quotes. */
  function QuoteBody(s: string): (r: string)
    ensures |r| >= |s|
    ensures forall i :: 0 <= i < |r| ==> !IsControl(r[i])
  {
    if s == [] then []
    else
      var head := QuoteChar(s[0]);
      var tail := QuoteBody(s[1..]);
      assert forall i :: |head| <= i < |head + tail| ==> (head + tail)[i] == tail[i - |head|];
      head + tail
  }

  /** The value of a lower-case hex digit. */
  function HexValue(c: char): (n: int)
    ensures -1 <= n < 16
    ensures 0 <= n ==> LowerHex[n] == c
  {
    if '0' <= c <= '9' then c as int - '0' as int
    else if 'a' <= c <= 'f' then c as int - 'a' as int + 10
    else -1
  }

  /** `c` put in front of a decoded text, if there is one. */
  function Cons(c: char, o: Option<string>): Option<string> {
    if o.Some? then Some([c] + o.value) else None
  }

  /** The inverse of `QuoteBody`: reads the escapes back, failing on one it does not know. */
  function UnquoteBody(t: string): Option<string>
  {
    if t == [] then Some([])
    else if t[0] != '\\' then Cons(t[0], UnquoteBody(t[1..]))
    else if |t| < 2 then None
    else if UnescapeLetter(t[1]).Some? then Cons(UnescapeLetter(t[1]).value, UnquoteBody(t[2..]))
    else if t[1] == 'x' && |t| >= 4 && HexValue(t[2]) >= 0 && HexValue(t[3]) >= 0 then
      Cons((HexValue(t[2]) * 16 + HexValue(t[3])) as char, UnquoteBody(t[4..]))
    else None
  }

  /** One quoted character is read back in front of whatever follows it. */
  lemma UnquoteChar(c: char, rest: string)
    ensures UnquoteBody(QuoteChar(c) + rest) == Cons(c, UnquoteBody(rest))
  {
    var q := QuoteChar(c);
    var t := q + rest;
    assert t[|q|..] == rest;
    if EscapeLetter(c).Some? {
      UnescapeEscapeLetter(c);
    } else if IsControl(c) {
      UnquoteHexEscape(c, rest);
    }
  }

  /** A control character without a C escape is read back from its two hex digits. */
  lemma UnquoteHexEscape(c: char, rest: string)
    requires IsControl(c) && EscapeLetter(c).None?
    ensures UnquoteBody(QuoteChar(c) + rest) == Cons(c, UnquoteBody(rest))
  {
    var hi := c as int / 16;
    var lo := c as int % 16;
    var t := QuoteChar(c) + rest;
    assert t == ['\\', 'x', LowerHex[hi], LowerHex[lo]] + rest;
    assert HexValue(LowerHex[hi]) == hi && HexValue(LowerHex[lo]) == lo;
    assert t[4..] == rest;
  }

  /** Quoting loses nothing: the quoted text reads back as the original. */
  lemma {:induction false} UnquoteQuote(s: string)
    ensures UnquoteBody(QuoteBody(s)) == Some(s)
  {
    if s != [] {
      UnquoteQuote(s[1..]);
      UnquoteChar(s[0], QuoteBody(s[1..]));
      assert [s[0]] + s[1..] == s;
    }
  }

  /** Go's `<` on strings: byte-wise lexicographic order, a proper prefix coming first. */
  predicate LexLess(a: string, b: string)
    decreases |a|
  {
    if |a| == 0 then |b| > 0
    else if |b| == 0 then false
    else if a[0] != b[0] then a[0] < b[0]
    else LexLess(a[1..], b[1..])
  }

  /** No string is before itself. */
  lemma {:induction false} LexLessIrreflexive(a: string)
    ensures !LexLess(a, a)
    decreases |a|
  {
    if |a| > 0 {
      LexLessIrreflexive(a[1..]);
    }
  }

  /** Two strings are ordered one way or the other, or equal. */
  lemma {:induction false} LexLessTotal(a: string, b: string)
    ensures a == b || LexLess(a, b) || LexLess(b, a)
    ensures !(LexLess(a, b) && LexLess(b, a))
    decreases |a|
  {
    if |a| > 0 && |b| > 0 && a[0] == b[0] {
      LexLessTotal(a[1..], b[1..]);
      if a[1..] == b[1..] {
        assert a == [a[0]] + a[1..] && b == [b[0]] + b[1..];
      }
    }
  }

  /** The order is transitive. */
  lemma {:induction false} LexLessTransitive(a: string, b: string, c: string)
    requires LexLess(a, b) && LexLess(b, c)
    ensures LexLess(a, c)
    decreases |a|
  {
    if |a| > 0 && a[0] == b[0] && b[0] == c[0] {
      LexLessTransitive(a[1..], b[1..], c[1..]);
    }
  }

  /** "Not after" is transitive too: the form a sort's stopping test needs. */
  lemma LexLeTransitive(a: string, b: string, c: string)
    requires !LexLess(b, a) && !LexLess(c, b)
    ensures !LexLess(c, a)
  {
    LexLessTotal(a, b);
    LexLessTotal(b, c);
    if a != b && b != c {
      LexLessTransitive(a, b, c);
      LexLessTotal(a, c);
    }
  }
}
