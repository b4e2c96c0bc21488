/** The Python string primitives the toolkit relies on (`strip`, `split`,
    `join`, `startswith`, `replace`, `lower`, `int`, `str` of a natural and
    reading a file as lines), stated on `string`, which is `seq<char>`. */
module Text {
  import opened Wrappers

  // ---------------------------------------------------------------------
  // Whitespace, strip and split()
  // ---------------------------------------------------------------------

  /** Python's `str.isspace()` for one character: the characters that
      `strip()` removes and that `split()` splits on. */
  predicate IsSpace(c: char)
  {
    || ('\t' <= c <= '\r')
    || ('\U{1C}' <= c <= ' ')
    || c == '\U{85}' || c == '\U{A0}' || c == '\U{1680}'
    || ('\U{2000}' <= c <= '\U{200A}')
    || c == '\U{2028}' || c == '\U{2029}' || c == '\U{202F}' || c == '\U{205F}'
    || c == '\U{3000}'
  }

  predicate NoSpace(s: string)
  {
    forall k :: 0 <= k < |s| ==> !IsSpace(s[k])
  }

  predicate AllSpace(s: string)
  {
    forall k :: 0 <= k < |s| ==> IsSpace(s[k])
  }

  /** Length of the leading run of whitespace of `s`. */
  function LeadingSpaces(s: string): (n: nat)
    ensures n <= |s|
    ensures AllSpace(s[..n])
    ensures n < |s| ==> !IsSpace(s[n])
  {
    if s != [] && IsSpace(s[0]) then
      var m := LeadingSpaces(s[1..]);
      assert s[..m + 1] == [s[0]] + s[1..][..m];
      m + 1
    else 0
  }

  /** Where the trailing run of whitespace of `s` begins. */
  function TrailingSpaces(s: string): (n: nat)
    ensures n <= |s|
    ensures AllSpace(s[n..])
    ensures n > 0 ==> !IsSpace(s[n - 1])
  {
    if s != [] && IsSpace(s[|s| - 1]) then
      var m := TrailingSpaces(s[..|s| - 1]);
      assert s[m..] == s[..|s| - 1][m..] + [s[|s| - 1]];
      m
    else |s|
  }

  /** `s.lstrip()`: the suffix of `s` that starts at its first non-space. */
  function StripLeft(s: string): (r: string)
    ensures r == [] || !IsSpace(r[0])
  {
    s[LeadingSpaces(s)..]
  }

  /** `s.rstrip()`: the prefix of `s` that ends at its last non-space. */
  function StripRight(s: string): (r: string)
    ensures r == [] || !IsSpace(r[|r| - 1])
  {
    s[..TrailingSpaces(s)]
  }

  /** `s.strip()`. */
  function Strip(s: string): (r: string)
    ensures r == [] || (!IsSpace(r[0]) && !IsSpace(r[|r| - 1]))
  {
    StripRight(StripLeft(s))
  }

  lemma {:induction false} StripLeftOfSpaces(w: string)
    requires AllSpace(w)
    ensures StripLeft(w) == []
  {
    if w != [] {
      StripLeftOfSpaces(w[1..]);
    }
  }

  lemma {:induction false} StripRightDropsSpaces(s: string, w: string)
    requires s == [] || !IsSpace(s[|s| - 1])
    requires AllSpace(w)
    ensures StripRight(s + w) == s
    decreases |w|
  {
    if w == [] {
      assert s + w == s;
    } else {
      assert (s + w)[..|s + w| - 1] == s + w[..|w| - 1];
      StripRightDropsSpaces(s, w[..|w| - 1]);
    }
  }

  /** A text whose first and last characters are not whitespace is returned
      by `strip()` unchanged even after trailing whitespace (a line ending)
      is appended: `("<ca>" + "\n").strip() == "<ca>"`. */
  lemma StripKeepsCore(s: string, w: string)
    requires s == [] || (!IsSpace(s[0]) && !IsSpace(s[|s| - 1]))
    requires AllSpace(w)
    ensures Strip(s + w) == s
  {
    if s == [] {
      assert s + w == w;
      StripLeftOfSpaces(w);
    } else {
      assert StripLeft(s + w) == s + w;
      StripRightDropsSpaces(s, w);
    }
  }

  /** Length of the leading run of non-space characters of `s`. */
  function WordEnd(s: string): (n: nat)
    ensures n <= |s|
    ensures NoSpace(s[..n])
    ensures n < |s| ==> IsSpace(s[n])
  {
    if s == [] || IsSpace(s[0]) then 0 else 1 + WordEnd(s[1..])
  }

  /** `s.split()` with no argument: the maximal runs of non-space
      characters, in order. */
  function Tokens(s: string): (r: seq<string>)
    ensures forall i :: 0 <= i < |r| ==> r[i] != [] && NoSpace(r[i])
    decreases |s|
  {
    var t := StripLeft(s);
    if t == [] then []
    else
      var n := WordEnd(t);
      [t[..n]] + Tokens(t[n..])
  }

  lemma {:induction false} WordEndOfWord(a: string, w: string)
    requires NoSpace(a)
    requires w == [] || IsSpace(w[0])
    ensures WordEnd(a + w) == |a|
  {
    if a == [] {
      assert a + w == w;
    } else {
      assert (a + w)[1..] == a[1..] + w;
      WordEndOfWord(a[1..], w);
    }
  }

  lemma TokensOfWordStart(s: string)
    requires s != [] && !IsSpace(s[0])
    ensures Tokens(s) == [s[..WordEnd(s)]] + Tokens(s[WordEnd(s)..])
  {
  }

  lemma TokensSkipSpace(s: string)
    requires s != [] && IsSpace(s[0])
    ensures Tokens(s) == Tokens(s[1..])
  {
  }

  lemma TokensOfWord(a: string)
    requires a != [] && NoSpace(a)
    ensures Tokens(a) == [a]
  {
    TokensOfWordStart(a);
    WordEndOfWord(a, []);
    assert a + [] == a;
    assert a[|a|..] == [];
  }

  /** A word followed by whitespace (or nothing) is the first token. */
  lemma TokensAfterWord(a: string, w: string)
    requires a != [] && NoSpace(a)
    requires w == [] || IsSpace(w[0])
    ensures Tokens(a + w) == [a] + Tokens(w)
  {
    var s := a + w;
    assert s[0] == a[0];
    TokensOfWordStart(s);
    WordEndOfWord(a, w);
    assert s[..|a|] == a;
    assert s[|a|..] == w;
  }

  /** A space before a single word is skipped. */
  lemma TokensOfSpaceWord(b: string)
    requires b != [] && NoSpace(b)
    ensures Tokens(" " + b) == [b]
  {
    var w := " " + b;
    TokensSkipSpace(w);
    assert w[1..] == b;
    TokensOfWord(b);
  }

  /** `"a b".split() == ["a", "b"]` for two words without whitespace. */
  lemma TokensOfTwoWords(a: string, b: string)
    requires a != [] && NoSpace(a)
    requires b != [] && NoSpace(b)
    ensures Tokens(a + " " + b) == [a, b]
  {
    AppendAssoc(a, " ", b);
    TokensAfterWord(a, " " + b);
    TokensOfSpaceWord(b);
  }

  // ---------------------------------------------------------------------
  // split(sep) and sep.join
  // ---------------------------------------------------------------------

  /** The index of the first occurrence of `c` in `s`. */
  function FirstIndex(s: string, c: char): (i: nat)
    requires c in s
    ensures i < |s| && s[i] == c && c !in s[..i]
    ensures forall k :: 0 <= k < i ==> s[k] != c
  {
    if s[0] == c then 0
    else
      assert s == [s[0]] + s[1..];
      var j := FirstIndex(s[1..], c);
      assert s[..j + 1] == [s[0]] + s[1..][..j];
      j + 1
  }

  /** `sep.join(parts)`. */
  function Join(parts: seq<string>, sep: char): string
  {
    if parts == [] then []
    else if |parts| == 1 then parts[0]
    else parts[0] + [sep] + Join(parts[1..], sep)
  }

  /** `s.split(sep)` for a one-character separator: the pieces between
      separators, at least one, none containing the separator, which joined
      back give `s`. */
  function Split(s: string, sep: char): (parts: seq<string>)
    ensures |parts| >= 1
    ensures forall i :: 0 <= i < |parts| ==> sep !in parts[i]
    ensures Join(parts, sep) == s
    decreases |s|
  {
    if sep !in s then [s]
    else
      var i := FirstIndex(s, sep);
      var rest := Split(s[i + 1..], sep);
      assert s == s[..i] + [sep] + s[i + 1..];
      [s[..i]] + rest
  }

  /** Splitting a join gives the parts back when no part holds the separator. */
  lemma {:induction false} SplitJoin(parts: seq<string>, sep: char)
    requires |parts| >= 1
    requires forall i :: 0 <= i < |parts| ==> sep !in parts[i]
    ensures Split(Join(parts, sep), sep) == parts
  {
    if |parts| == 1 {
      assert sep !in parts[0];
    } else {
      var s := Join(parts, sep);
      var tail := Join(parts[1..], sep);
      assert s == parts[0] + [sep] + tail;
      assert sep in s by { assert s[|parts[0]|] == sep; }
      var i := FirstIndex(s, sep);
      assert sep !in parts[0];
      assert s[|parts[0]|] == sep;
      forall k | 0 <= k < |parts[0]|
        ensures s[k] != sep
      {
        assert s[k] == parts[0][k];
      }
      assert i == |parts[0]|;
      assert s[..i] == parts[0];
      assert s[i + 1..] == tail;
      SplitJoin(parts[1..], sep);
    }
  }

  /** Splitting two pieces joined by the separator. */
  lemma SplitTwo(a: string, b: string, sep: char)
    requires sep !in a && sep !in b
    ensures Split(a + [sep] + b, sep) == [a, b]
  {
    var parts := [a, b];
    assert parts[1..] == [b];
    assert Join(parts[1..], sep) == b;
    assert Join(parts, sep) == a + [sep] + b;
    SplitJoin(parts, sep);
  }

  // ---------------------------------------------------------------------
  // Prefixes, replace, lower, concatenation, lines
  // ---------------------------------------------------------------------

  /** `s.startswith(prefix)`. */
  predicate StartsWith(s: string, prefix: string)
  {
    |prefix| <= |s| && s[..|prefix|] == prefix
  }

  /** `s.replace(a, b)` for single characters. */
  function ReplaceChar(s: string, a: char, b: char): (r: string)
    ensures |r| == |s|
    ensures forall i :: 0 <= i < |s| ==> r[i] == (if s[i] == a then b else s[i])
  {
    if s == [] then [] else [if s[0] == a then b else s[0]] + ReplaceChar(s[1..], a, b)
  }

  /** `s.lower()` on ASCII letters; every other character is kept. */
  function Lower(s: string): (r: string)
    ensures |r| == |s|
    ensures forall i :: 0 <= i < |s| ==>
      r[i] == (if 'A' <= s[i] <= 'Z' then (s[i] as int + 32) as char else s[i])
  {
    if s == [] then []
    else [if 'A' <= s[0] <= 'Z' then (s[0] as int + 32) as char else s[0]] + Lower(s[1..])
  }

  /** `"".join(pieces)`. */
  function Concat(pieces: seq<string>): string
  {
    if pieces == [] then [] else pieces[0] + Concat(pieces[1..])
  }

  lemma {:induction false} ConcatAppend(a: seq<string>, b: seq<string>)
    ensures Concat(a + b) == Concat(a) + Concat(b)
  {
    if a == [] {
      assert a + b == b;
    } else {
      assert (a + b)[1..] == a[1..] + b;
      ConcatAppend(a[1..], b);
    }
  }

  /** A line as `readlines()` returns it when a newline follows it. */
  predicate IsLine(line: string)
  {
    line != [] && line[|line| - 1] == '\n' && '\n' !in line[..|line| - 1]
  }

  /** `readlines()` of a text: each line with its `\n`, then the unterminated
      remainder, if any. */
  function SplitLines(s: string): (lines: seq<string>)
    ensures Concat(lines) == s
    decreases |s|
  {
    if s == [] then []
    else if '\n' !in s then [s]
    else
      var i := FirstIndex(s, '\n');
      assert s == s[..i + 1] + s[i + 1..];
      [s[..i + 1]] + SplitLines(s[i + 1..])
  }

  /** Reading back a text made of whole lines gives those lines. */
  lemma {:induction false} SplitLinesOfLines(lines: seq<string>)
    requires forall i :: 0 <= i < |lines| ==> IsLine(lines[i])
    ensures SplitLines(Concat(lines)) == lines
  {
    if lines != [] {
      var first := lines[0];
      var s := Concat(lines);
      var rest := Concat(lines[1..]);
      assert s == first + rest;
      assert s[|first| - 1] == '\n';
      var i := FirstIndex(s, '\n');
      forall k | 0 <= k < |first| - 1
        ensures s[k] != '\n'
      {
        assert s[k] == first[..|first| - 1][k];
      }
      assert i == |first| - 1;
      assert s[..i + 1] == first;
      assert s[i + 1..] == rest;
      SplitLinesOfLines(lines[1..]);
    }
  }

  // ---------------------------------------------------------------------
  // Decimal numbers: str(n) and int(s)
  // ---------------------------------------------------------------------

  predicate IsDigit(c: char)
  {
    '0' <= c <= '9'
  }

  predicate IsDecimal(s: string)
  {
    forall k :: 0 <= k < |s| ==> IsDigit(s[k])
  }

  function DigitValue(c: char): (d: nat)
    requires IsDigit(c)
    ensures d < 10
  {
    c as int - '0' as int
  }

  function Digit(d: nat): (c: char)
    requires d < 10
    ensures IsDigit(c) && DigitValue(c) == d
  {
    (48 + d) as char
  }

  /** The value of a string of decimal digits, as Python's `int` gives it. */
  function DecimalValue(s: string): nat
    requires IsDecimal(s)
  {
    if s == [] then 0 else 10 * DecimalValue(s[..|s| - 1]) + DigitValue(s[|s| - 1])
  }

  /** `str(n)` for a natural number: its shortest decimal numeral. */
  function Decimal(n: nat): (s: string)
    ensures s != [] && IsDecimal(s) && DecimalValue(s) == n
    ensures s[0] == '0' <==> n == 0
    ensures n == 0 <==> s == "0"
    ensures n < 10 ==> |s| == 1
    ensures n < 100 ==> |s| <= 2
    ensures n < 1000 ==> |s| <= 3
  {
    if n < 10 then [Digit(n)]
    else
      var q := n / 10;
      var d := n % 10;
      assert n == 10 * q + d && 1 <= q;
      assert n < 100 ==> q < 10;
      assert n < 1000 ==> q < 100;
      var prefix := Decimal(q);
      var s := prefix + [Digit(d)];
      assert s[..|s| - 1] == prefix;
      assert s[0] == prefix[0] && s[|s| - 1] == Digit(d);
      assert DecimalValue(s) == 10 * DecimalValue(prefix) + d;
      s
  }

  /** Python's `int(s)` on a string: surrounding whitespace, an optional
      sign and at least one ASCII digit. */
  function ParseInt(s: string): (r: Option<int>)
    ensures r.Some? ==> Strip(s) != []
  {
    var t := Strip(s);
    if t != [] && (t[0] == '+' || t[0] == '-') then
      var ds := t[1..];
      if ds != [] && IsDecimal(ds) then
        Some(if t[0] == '-' then -(DecimalValue(ds) as int) else DecimalValue(ds))
      else None
    else if t != [] && IsDecimal(t) then Some(DecimalValue(t))
    else None
  }

  /** `int(str(n)) == n`. */
  lemma ParseIntOfDecimal(n: nat)
    ensures ParseInt(Decimal(n)) == Some(n)
  {
    var s := Decimal(n);
    StripKeepsCore(s, []);
    assert s + [] == s;
  }

  lemma AppendAssoc<T>(a: seq<T>, b: seq<T>, c: seq<T>)
    ensures (a + b) + c == a + (b + c)
  {
  }

  /** No element occurs twice. */
  predicate NoDuplicates<T(==)>(s: seq<T>)
  {
    forall i, j :: 0 <= i < j < |s| ==> s[i] != s[j]
  }
}
