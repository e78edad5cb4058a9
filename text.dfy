/**
 * The string operations the event log is built from, with the behaviour of
 * their Rust counterparts: `str::find`, `str::split`, `str::lines`,
 * `str::trim`, lower-casing, `str::contains`, `Ord for str`, `Display` for
 * integers and `str::parse::<u32>`.  Strings are sequences of characters;
 * lower-casing and white space are the ASCII / Unicode-White_Space subsets
 * listed below.
 */
module Text {
  import opened Wrappers

  const U32_MODULUS: nat := 0x1_0000_0000

  /** Rust's `u32`. */
  type U32 = n: nat | n < U32_MODULUS

  // ------------------------------------------------------------------
  // Searching, splitting and joining

  /** `s.find(c)`: the index of the first occurrence of `c`, if any. */
  function Find(s: string, c: char): (r: Option<nat>)
    ensures r.None? <==> c !in s
    ensures r.Some? ==> r.value < |s| && s[r.value] == c && c !in s[..r.value]
  {
    if s == [] then None
    else if s[0] == c then Some(0)
    else match Find(s[1..], c)
      case None => None
      case Some(i) =>
        assert s[..i + 1] == [s[0]] + s[1..][..i];
        Some(i + 1)
  }

  /** The first occurrence is the only index `Find` can return. */
  lemma FindFirst(s: string, c: char, i: nat)
    requires i < |s| && s[i] == c && c !in s[..i]
    ensures Find(s, c) == Some(i)
  {
    assert c in s;
  }

  /** The inverse of `Split`: the pieces with `sep` between neighbours. */
  function Join(parts: seq<string>, sep: char): string
  {
    if |parts| == 0 then ""
    else if |parts| == 1 then parts[0]
    else parts[0] + [sep] + Join(parts[1..], sep)
  }

  /**
   * `s.split(sep).collect()`: always at least one piece; `n` separators give
   * `n + 1` pieces; no piece holds the separator, and joining the pieces gives
   * `s` back.
   */
  function Split(s: string, sep: char): (r: seq<string>)
    ensures |r| >= 1
    ensures Join(r, sep) == s
    ensures forall i :: 0 <= i < |r| ==> sep !in r[i]
    decreases |s|
  {
    match Find(s, sep)
    case None => [s]
    case Some(i) =>
      var rest := Split(s[i + 1..], sep);
      assert ([s[..i]] + rest)[1..] == rest;
      assert s == s[..i] + [sep] + s[i + 1..];
      [s[..i]] + rest
  }

  /** Splitting undoes joining pieces that do not hold the separator. */
  lemma {:induction false} SplitJoin(parts: seq<string>, sep: char)
    requires |parts| >= 1
    requires forall i :: 0 <= i < |parts| ==> sep !in parts[i]
    ensures Split(Join(parts, sep), sep) == parts
  {
    if |parts| > 1 {
      SplitHead(parts[0], Join(parts[1..], sep), sep);
      SplitJoin(parts[1..], sep);
      assert parts == [parts[0]] + parts[1..];
    }
  }

  /** The first piece is the text before the first separator. */
  lemma SplitFirst(s: string, sep: char)
    ensures var f := Split(s, sep)[0];
            |f| <= |s| && f == s[..|f|] && sep !in f && (|f| < |s| ==> s[|f|] == sep)
  {
    match Find(s, sep)
    case None =>
      assert s[..|s|] == s;
    case Some(i) =>
  }

  /** Splitting after a separator-free head: the head is the first piece. */
  lemma SplitFirstOf(head: string, tail: string, sep: char)
    requires sep !in head
    ensures Split(head + [sep] + tail, sep)[0] == head
  {
    SplitHead(head, tail, sep);
  }

  /** A text without the separator is one piece. */
  lemma SplitNone(s: string, sep: char)
    requires sep !in s
    ensures Split(s, sep) == [s]
  {
  }

  /** Splitting stops at the first separator. */
  lemma SplitHead(head: string, tail: string, sep: char)
    requires sep !in head
    ensures Split(head + [sep] + tail, sep) == [head] + Split(tail, sep)
  {
    var s := head + [sep] + tail;
    assert s[..|head|] == head;
    FindFirst(s, sep, |head|);
    assert s[|head| + 1..] == tail;
  }

  /** A character that is neither the separator nor in any piece is not in the joined text. */
  lemma {:induction false} JoinAvoids(parts: seq<string>, sep: char, c: char)
    requires c != sep
    requires forall i :: 0 <= i < |parts| ==> c !in parts[i]
    ensures c !in Join(parts, sep)
  {
    if |parts| > 1 {
      JoinAvoids(parts[1..], sep, c);
    }
  }

  /** A character in one of the pieces is in the joined text. */
  lemma {:induction false} JoinContains(parts: seq<string>, sep: char, c: char, i: nat)
    requires i < |parts| && c in parts[i]
    ensures c in Join(parts, sep)
  {
    if i > 0 {
      JoinContains(parts[1..], sep, c, i - 1);
    }
  }

  /** The pieces of a text that avoids a character avoid it too. */
  lemma SplitAvoids(s: string, sep: char, c: char)
    requires c !in s
    ensures forall i :: 0 <= i < |Split(s, sep)| ==> c !in Split(s, sep)[i]
  {
    var parts := Split(s, sep);
    forall i | 0 <= i < |parts| ensures c !in parts[i] {
      if c in parts[i] {
        JoinContains(parts, sep, c, i);
      }
    }
  }

  // ------------------------------------------------------------------
  // Lines

  /** Drops one trailing carriage return. */
  function StripCr(l: string): string
  {
    if |l| > 0 && l[|l| - 1] == '\r' then l[..|l| - 1] else l
  }

  /** The length of the first line of `s`: the index of its first '\n', or `|s|`. */
  function LineEnd(s: string): (n: nat)
    ensures n <= |s|
  {
    if s == [] || s[0] == '\n' then 0 else 1 + LineEnd(s[1..])
  }

  /** `LineEnd` stops at the first line break. */
  lemma {:induction false} LineEndAt(s: string, i: nat)
    requires i < |s| && s[i] == '\n' && '\n' !in s[..i]
    ensures LineEnd(s) == i
  {
    if i > 0 {
      assert s[0] in s[..i];
      assert s[1..][..i - 1] == s[1..i];
      assert forall k :: 0 <= k < i - 1 ==> s[1..][k] == s[..i][k + 1];
      LineEndAt(s[1..], i - 1);
    }
  }

  /**
   * `s.lines()`: the text cut at each '\n'; a '\r' right before a '\n' is
   * dropped, and a final '\n' does not start an empty last line.
   */
  function Lines(s: string): seq<string>
    decreases |s|
  {
    if s == [] then []
    else
      var n := LineEnd(s);
      if n == |s| then [s] else [StripCr(s[..n])] + Lines(s[n + 1..])
  }

  /** The first line holds no line break. */
  lemma {:induction false} LineEndClear(s: string)
    ensures '\n' !in s[..LineEnd(s)]
  {
    if s != [] && s[0] != '\n' {
      LineEndClear(s[1..]);
      assert s[..LineEnd(s)] == [s[0]] + s[1..][..LineEnd(s[1..])];
    }
  }

  /** No line holds a line break, and none holds a character the text does not hold. */
  lemma {:induction false} LinesAvoid(s: string, c: char)
    requires c == '\n' || c !in s
    ensures forall l :: l in Lines(s) ==> c !in l
    decreases |s|
  {
    if s != [] {
      var n := LineEnd(s);
      LineEndClear(s);
      if n < |s| {
        LinesAvoid(s[n + 1..], c);
        var first := StripCr(s[..n]);
        assert first == s[..n] || first == s[..n][..|s[..n]| - 1];
        assert Lines(s) == [first] + Lines(s[n + 1..]);
      } else {
        assert s[..n] == s;
      }
    }
  }

  /** A text that is empty or ends with a line break: appending starts a new line. */
  predicate LineTerminated(s: string)
  {
    s == [] || s[|s| - 1] == '\n'
  }

  /** A line that `writeln!` can write and `lines()` reads back unchanged. */
  predicate WritableLine(line: string)
  {
    '\n' !in line && !(|line| > 0 && line[|line| - 1] == '\r')
  }

  /** One step of `Lines`: the text up to the first line break, then the rest. */
  lemma LinesStep(s: string, i: nat)
    requires i < |s| && s[i] == '\n' && '\n' !in s[..i]
    ensures Lines(s) == [StripCr(s[..i])] + Lines(s[i + 1..])
  {
    LineEndAt(s, i);
    LinesCut(s, i);
  }

  lemma LinesCut(s: string, n: nat)
    requires n < |s| && LineEnd(s) == n
    ensures Lines(s) == [StripCr(s[..n])] + Lines(s[n + 1..])
  {
  }

  /** Slicing a concatenation inside its left operand. */
  lemma SliceConcat(a: string, b: string, k: nat)
    requires k <= |a|
    ensures (a + b)[..k] == a[..k] && (a + b)[k..] == a[k..] + b
  {
  }

  /** A text holding one written line reads back as that line. */
  lemma LinesOfOneLine(line: string)
    requires WritableLine(line)
    ensures Lines(line + ['\n']) == [line]
  {
    var written := line + ['\n'];
    SliceConcat(line, ['\n'], |line|);
    LinesStep(written, |line|);
    assert written[|line| + 1..] == [];
    assert StripCr(line) == line;
  }

  /** Writing one more line after complete lines adds exactly that line. */
  lemma {:induction false} LinesAppend(s: string, line: string)
    requires LineTerminated(s) && WritableLine(line)
    ensures Lines(s + line + ['\n']) == Lines(s) + [line]
    decreases |s|
  {
    if s == [] {
      assert s + line + ['\n'] == line + ['\n'];
      LinesOfOneLine(line);
    } else {
      var i := FirstLineBreak(s);
      var rest := s[i + 1..];
      assert LineTerminated(rest) by {
        if rest != [] { assert rest[|rest| - 1] == s[|s| - 1]; }
      }
      LinesAppend(rest, line);
      LinesAppendJoin(s, line, i);
    }
  }

  /** The first line of a text is not changed by appending a line after the rest. */
  lemma LinesAppendJoin(s: string, line: string, i: nat)
    requires i < |s| && s[i] == '\n' && '\n' !in s[..i]
    requires Lines(s[i + 1..] + line + ['\n']) == Lines(s[i + 1..]) + [line]
    ensures Lines(s + line + ['\n']) == Lines(s) + [line]
  {
    LinesStep(s, i);
    LinesAfterFirst(s, line + ['\n'], i);
    assert s + line + ['\n'] == s + (line + ['\n']);
    assert s[i + 1..] + (line + ['\n']) == s[i + 1..] + line + ['\n'];
  }

  /** Text appended after the first line break changes only the lines after the first. */
  lemma LinesAfterFirst(s: string, tail: string, i: nat)
    requires i < |s| && s[i] == '\n' && '\n' !in s[..i]
    ensures Lines(s + tail) == [StripCr(s[..i])] + Lines(s[i + 1..] + tail)
  {
    SliceConcat(s, tail, i);
    SliceConcat(s, tail, i + 1);
    LinesStep(s + tail, i);
  }

  /** The index of the first line break of a text that ends with one. */
  function FirstLineBreak(s: string): (i: nat)
    requires s != [] && s[|s| - 1] == '\n'
    ensures i < |s| && s[i] == '\n' && '\n' !in s[..i]
  {
    assert s[|s| - 1] in s;
    Find(s, '\n').value
  }

  // ------------------------------------------------------------------
  // Case and substrings

  /** Lower-casing of one character (ASCII letters only). */
  function Lower(c: char): char
  {
    if 'A' <= c <= 'Z' then (c as int + 32) as char else c
  }

  /** `s.to_lowercase()` over the ASCII letters. */
  function ToLower(s: string): string
  {
    seq(|s|, i requires 0 <= i < |s| => Lower(s[i]))
  }

  /** `needle` occurs in `hay` starting at index `i`. */
  predicate OccursAt(hay: string, needle: string, i: nat)
  {
    i + |needle| <= |hay| && hay[i..i + |needle|] == needle
  }

  /** `hay.contains(needle)`, scanning start positions left to right. */
  predicate Contains(hay: string, needle: string)
    decreases |hay|
  {
    OccursAt(hay, needle, 0) || (hay != [] && Contains(hay[1..], needle))
  }

  /** `Contains` holds exactly when the needle occurs at some index. */
  lemma {:induction false} ContainsIff(hay: string, needle: string)
    ensures Contains(hay, needle) <==> exists i :: OccursAt(hay, needle, i)
    decreases |hay|
  {
    if hay != [] {
      ContainsIff(hay[1..], needle);
      forall i: nat | OccursAt(hay[1..], needle, i)
        ensures OccursAt(hay, needle, i + 1)
      {
        assert hay[i + 1..i + 1 + |needle|] == hay[1..][i..i + |needle|];
      }
      forall i: nat | i > 0 && OccursAt(hay, needle, i)
        ensures OccursAt(hay[1..], needle, i - 1)
      {
        assert hay[i..i + |needle|] == hay[1..][i - 1..i - 1 + |needle|];
      }
      if Contains(hay, needle) && !OccursAt(hay, needle, 0) {
        var i: nat :| OccursAt(hay[1..], needle, i);
        assert OccursAt(hay, needle, i + 1);
      }
    } else {
      forall i: nat | OccursAt(hay, needle, i) ensures OccursAt(hay, needle, 0) {
      }
    }
  }

  // ------------------------------------------------------------------
  // White space

  /** `char::is_whitespace`: the Unicode White_Space characters. */
  predicate IsWhitespace(c: char)
  {
    || c == ' ' || c == '\t' || c == '\n' || c == '\r'
    || c == 11 as char || c == 12 as char || c == 0x85 as char || c == 0xA0 as char
    || c == 0x1680 as char || (0x2000 <= c as int <= 0x200A)
    || c == 0x2028 as char || c == 0x2029 as char || c == 0x202F as char
    || c == 0x205F as char || c == 0x3000 as char
  }

  /** The number of white-space characters `s` starts with. */
  function LeadingSpace(s: string): (n: nat)
    ensures n <= |s|
    ensures forall k :: 0 <= k < n ==> IsWhitespace(s[k])
    ensures n < |s| ==> !IsWhitespace(s[n])
  {
    if s != [] && IsWhitespace(s[0]) then
      var n := 1 + LeadingSpace(s[1..]);
      assert forall k :: 1 <= k < n ==> s[k] == s[1..][k - 1];
      n
    else 0
  }

  /** The number of white-space characters `s` ends with. */
  function TrailingSpace(s: string): (n: nat)
    ensures n <= |s|
    ensures forall k :: |s| - n <= k < |s| ==> IsWhitespace(s[k])
    ensures n < |s| ==> !IsWhitespace(s[|s| - n - 1])
  {
    if s != [] && IsWhitespace(s[|s| - 1]) then
      var n := 1 + TrailingSpace(s[..|s| - 1]);
      assert forall k :: |s| - n <= k < |s| - 1 ==> s[k] == s[..|s| - 1][k];
      n
    else 0
  }

  /** `s.trim_start()`: the suffix of `s` after its leading white space. */
  function TrimStart(s: string): (r: string)
    ensures r == [] || !IsWhitespace(r[0])
    ensures |r| <= |s| && r == s[|s| - |r|..]
  {
    s[LeadingSpace(s)..]
  }

  /** `s.trim_end()`: the prefix of `s` before its trailing white space. */
  function TrimEnd(s: string): (r: string)
    ensures r == [] || !IsWhitespace(r[|r| - 1])
    ensures |r| <= |s| && r == s[..|r|]
  {
    s[..|s| - TrailingSpace(s)]
  }

  /** `s.trim()`: `s` with its leading and trailing white space removed. */
  function Trim(s: string): (r: string)
    ensures r == [] || (!IsWhitespace(r[0]) && !IsWhitespace(r[|r| - 1]))
  {
    var t := TrimStart(s);
    var r := TrimEnd(t);
    assert r != [] ==> r[0] == t[0];
    r
  }

  /** The trimmed text is a slice of `s` whose surroundings are all white space. */
  lemma TrimSlice(s: string)
    ensures var r := Trim(s);
            var i := |s| - |TrimStart(s)|;
            i + |r| <= |s| && r == s[i..i + |r|] && TrimmedAround(s, i, i + |r|)
  {
    var i := LeadingSpace(s);
    TrimIsSlice(s, i);
    TrailingAfterTrim(s, i, i + |Trim(s)|);
  }

  /** The trimmed text starts after the leading white space and stops before the trailing white space. */
  lemma TrimIsSlice(s: string, i: nat)
    requires i == LeadingSpace(s)
    ensures |s| - |TrimStart(s)| == i
    ensures i + |Trim(s)| <= |s| && Trim(s) == s[i..i + |Trim(s)|]
    ensures |Trim(s)| == |s| - i - TrailingSpace(s[i..])
  {
    assert TrimStart(s) == s[i..];
  }

  /** What follows the trimmed text is white space. */
  lemma TrailingAfterTrim(s: string, i: nat, j: nat)
    requires i <= |s| && j == |s| - TrailingSpace(s[i..])
    ensures forall k :: j <= k < |s| ==> IsWhitespace(s[k])
  {
    var t := s[i..];
    forall k | j <= k < |s| ensures IsWhitespace(s[k]) {
      assert s[k] == t[k - i];
    }
  }

  /** Everything in `s` outside `s[i..j]` is white space. */
  predicate TrimmedAround(s: string, i: nat, j: nat)
    requires i <= j <= |s|
  {
    forall k :: 0 <= k < |s| && (k < i || j <= k) ==> IsWhitespace(s[k])
  }

  // ------------------------------------------------------------------
  // Ordering

  datatype Ordering = Less | Equal | Greater {
    /** `Ordering::reverse`. */
    function Reverse(): Ordering
    {
      match this
      case Less => Greater
      case Equal => Equal
      case Greater => Less
    }
  }

  /** `Ord for u32`. */
  function CompareNat(a: nat, b: nat): Ordering
  {
    if a < b then Less else if a == b then Equal else Greater
  }

  /** `Ord for str`: lexicographic by character code, a proper prefix first. */
  function CompareStr(a: string, b: string): Ordering
    decreases |a|
  {
    if a == [] then (if b == [] then Equal else Less)
    else if b == [] then Greater
    else if a[0] < b[0] then Less
    else if a[0] > b[0] then Greater
    else CompareStr(a[1..], b[1..])
  }

  /** String comparison says `Equal` exactly for equal strings. */
  lemma {:induction false} CompareStrEqual(a: string, b: string)
    ensures CompareStr(a, b) == Equal <==> a == b
    decreases |a|
  {
    if a != [] && b != [] && a[0] == b[0] {
      CompareStrEqual(a[1..], b[1..]);
      assert a == [a[0]] + a[1..] && b == [b[0]] + b[1..];
    }
  }

  /** Swapping the operands reverses the comparison. */
  lemma {:induction false} CompareStrReverse(a: string, b: string)
    ensures CompareStr(b, a) == CompareStr(a, b).Reverse()
    decreases |a|
  {
    if a != [] && b != [] && a[0] == b[0] {
      CompareStrReverse(a[1..], b[1..]);
    }
  }

  /** String comparison is transitive. */
  lemma {:induction false} CompareStrTransitive(a: string, b: string, c: string)
    requires CompareStr(a, b) == Less && CompareStr(b, c) == Less
    ensures CompareStr(a, c) == Less
    decreases |a|
  {
    if a != [] && a[0] == b[0] && b[0] == c[0] {
      CompareStrTransitive(a[1..], b[1..], c[1..]);
    }
  }

  // ------------------------------------------------------------------
  // Decimal numbers

  predicate IsDigit(c: char)
  {
    '0' <= c <= '9'
  }

  predicate AllDigits(s: string)
  {
    forall i :: 0 <= i < |s| ==> IsDigit(s[i])
  }

  function DigitChar(d: nat): char
    requires d < 10
  {
    ('0' as int + d) as char
  }

  /** `format!("{}", n)` for an unsigned integer: digits, no leading zeros. */
  function Dec(n: nat): (r: string)
    ensures r != [] && AllDigits(r)
    ensures |r| > 1 ==> r[0] != '0'
  {
    if n < 10 then [DigitChar(n)] else Dec(n / 10) + [DigitChar(n % 10)]
  }

  /** `format!("{}", i)` for a signed integer. */
  function DecInt(i: int): string
  {
    if i < 0 then "-" + Dec(-i) else Dec(i)
  }

  /** The value of a string of decimal digits. */
  function DigitsValue(d: string): nat
    requires AllDigits(d)
  {
    if d == [] then 0 else DigitsValue(d[..|d| - 1]) * 10 + (d[|d| - 1] as int - '0' as int)
  }

  /** Reading back the digits `Dec` writes gives the number. */
  lemma {:induction false} DecValue(n: nat)
    ensures DigitsValue(Dec(n)) == n
  {
    if n >= 10 {
      var d := Dec(n);
      assert d[..|d| - 1] == Dec(n / 10);
      DecValue(n / 10);
    }
  }

  /**
   * `s.parse::<u32>()`: an optional '+' followed by at least one ASCII digit,
   * with a value below 2^32; anything else is an error (`None`).
   */
  function ParseU32(s: string): Option<U32>
  {
    var digits := if s != [] && s[0] == '+' then s[1..] else s;
    if digits != [] && AllDigits(digits) && DigitsValue(digits) < U32_MODULUS
    then Some(DigitsValue(digits))
    else None
  }

  /** A `u32` written with `Display` parses back to itself. */
  lemma ParseU32Dec(n: U32)
    ensures ParseU32(Dec(n)) == Some(n)
  {
    DecValue(n);
  }

  /** Numbers are written without separators or line breaks. */
  lemma DecIsPlain(n: nat)
    ensures ',' !in Dec(n) && '\n' !in Dec(n) && '\r' !in Dec(n)
  {
    var d := Dec(n);
    forall i | 0 <= i < |d| ensures d[i] != ',' && d[i] != '\n' && d[i] != '\r' {
      assert IsDigit(d[i]);
    }
  }
}
