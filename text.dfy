/**
 * The few operations on Python `str` values that the scorer, the notes store
 * and the star renderer rely on: substring search (`p in s`), `strip()`,
 * `split('.')`, `split()`, repetition by an integer and `str(int)`.
 * A Python string is a sequence of code points, here a `seq<char>`.
 */
module Text {

  /** Python 3's `str.isspace`: the 29 code points it treats as whitespace. */
  predicate IsWhitespace(c: char) {
    || ('\t' <= c <= '\r')
    || ('\U{1C}' <= c <= ' ')
    || c == '\U{85}' || c == '\U{A0}' || c == '\U{1680}'
    || ('\U{2000}' <= c <= '\U{200A}')
    || c == '\U{2028}' || c == '\U{2029}' || c == '\U{202F}' || c == '\U{205F}' || c == '\U{3000}'
  }

  /** Every character of `s` is whitespace (so `s.strip()` is empty). */
  predicate IsBlank(s: string) {
    forall i :: 0 <= i < |s| ==> IsWhitespace(s[i])
  }

  predicate NoWhitespace(s: string) {
    forall i :: 0 <= i < |s| ==> !IsWhitespace(s[i])
  }

  /** A string with no whitespace at either end is its own strip. */
  lemma {:induction false} StripOfStripped(s: string)
    requires s == [] || (!IsWhitespace(s[0]) && !IsWhitespace(s[|s| - 1]))
    ensures Strip(s) == s
  {
    assert TrimLeft(s) == s;
    assert TrimRight(s) == s;
  }

  // ---------------------------------------------------------------------------
  // Substring search: Python's `p in s`

  /** `p` occurs in `s` as a contiguous run, searched from the left. */
  predicate IsSubstring(p: string, s: string)
    decreases |s|
  {
    p <= s || (s != [] && IsSubstring(p, s[1..]))
  }

  /** The search agrees with the declarative reading: some suffix of `s` starts with `p`. */
  lemma {:induction false} SubstringIff(p: string, s: string)
    ensures IsSubstring(p, s) <==> exists i :: 0 <= i <= |s| && p <= s[i..]
    decreases |s|
  {
    if s == [] {
      assert s[0..] == s;
    } else {
      SubstringIff(p, s[1..]);
      if IsSubstring(p, s[1..]) {
        var i :| 0 <= i <= |s[1..]| && p <= s[1..][i..];
        assert s[i + 1..] == s[1..][i..];
      } else if p <= s {
        assert s[0..] == s;
      }
      if exists i :: 0 <= i <= |s| && p <= s[i..] {
        var i :| 0 <= i <= |s| && p <= s[i..];
        if i > 0 {
          assert s[1..][i - 1..] == s[i..];
          assert IsSubstring(p, s[1..]);
        } else {
          assert s[0..] == s;
        }
      }
    }
  }

  /** An occurrence at a known position makes `p in s` true. */
  lemma {:induction false} SubstringAt(p: string, s: string, i: nat)
    requires i <= |s| && p <= s[i..]
    ensures IsSubstring(p, s)
  {
    SubstringIff(p, s);
  }

  /** A non-empty `p` whose first character never occurs in `s` is not in `s`. */
  lemma {:induction false} NotSubstringWithoutFirstChar(p: string, s: string)
    requires p != [] && p[0] !in s
    ensures !IsSubstring(p, s)
    decreases |s|
  {
    if s != [] {
      assert s[0] != p[0];
      NotSubstringWithoutFirstChar(p, s[1..]);
    }
  }

  /** Text added on either side of `s` keeps every substring of `s`. */
  lemma {:induction false} SubstringOfExtension(p: string, s: string, before: string, after: string)
    requires IsSubstring(p, s)
    ensures IsSubstring(p, before + s + after)
  {
    SubstringIff(p, s);
    var i :| 0 <= i <= |s| && p <= s[i..];
    var t := before + s + after;
    assert t[|before| + i..][..|p|] == s[i..][..|p|];
    SubstringAt(p, t, |before| + i);
  }

  // ---------------------------------------------------------------------------
  // strip()

  /** `s.lstrip()`: drop the leading whitespace. */
  function TrimLeft(s: string): (r: string)
    ensures |r| <= |s| && r == s[|s| - |r|..]
    ensures IsBlank(s[..|s| - |r|])
    ensures r == [] || !IsWhitespace(r[0])
    decreases |s|
  {
    if s != [] && IsWhitespace(s[0]) then
      var r := TrimLeft(s[1..]);
      assert s[..|s| - |r|] == [s[0]] + s[1..][..|s[1..]| - |r|];
      r
    else s
  }

  /** `s.rstrip()`: drop the trailing whitespace. */
  function TrimRight(s: string): (r: string)
    ensures r <= s
    ensures IsBlank(s[|r|..])
    ensures r == [] || !IsWhitespace(r[|r| - 1])
    decreases |s|
  {
    if s != [] && IsWhitespace(s[|s| - 1]) then
      var r := TrimRight(s[..|s| - 1]);
      assert s[|r|..] == s[..|s| - 1][|r|..] + [s[|s| - 1]];
      r
    else s
  }

  /** `r` is `s` with some whitespace-only margin removed on each side. */
  ghost predicate IsCore(r: string, s: string) {
    exists i :: 0 <= i <= |s| - |r| && r == s[i..i + |r|] && IsBlank(s[..i]) && IsBlank(s[i + |r|..])
  }

  /** Leading whitespace is all there is exactly when `s` is blank. */
  lemma {:induction false} TrimLeftBlank(s: string)
    ensures TrimLeft(s) == [] <==> IsBlank(s)
  {
    var t := TrimLeft(s);
    var k := |s| - |t|;
    if t == [] {
      assert s == s[..k];
    } else {
      assert s[k] == t[0];
    }
  }

  /** Trimming both ends removes a whitespace-only margin on each side. */
  lemma StripParts(s: string)
    ensures IsCore(TrimRight(TrimLeft(s)), s)
  {
    var t := TrimLeft(s);
    var r := TrimRight(t);
    var k := |s| - |t|;
    assert s[k..k + |r|] == t[..|r|];
    assert s[k + |r|..] == t[|r|..];
    assert 0 <= k <= |s| - |r| && r == s[k..k + |r|] && IsBlank(s[..k]) && IsBlank(s[k + |r|..]);
  }

  /** `s.strip()`: the stripped text is `s` without its whitespace margins,
      it neither starts nor ends with whitespace, and it is empty exactly
      when `s` is blank. */
  function Strip(s: string): (r: string)
    ensures |r| <= |s| && IsCore(r, s)
    ensures r == [] || (!IsWhitespace(r[0]) && !IsWhitespace(r[|r| - 1]))
    ensures r == [] <==> IsBlank(s)
  {
    StripParts(s);
    TrimLeftBlank(s);
    var t := TrimLeft(s);
    assert TrimRight(t) != [] ==> TrimRight(t)[0] == t[0];
    TrimRight(t)
  }

  // ---------------------------------------------------------------------------
  // split(sep) with a one-character separator, and its inverse sep.join(parts)

  /** `s.split(sep)`: the runs between separators, empty runs included. */
  function Split(s: string, sep: char): (parts: seq<string>)
    ensures |parts| >= 1
    ensures forall i :: 0 <= i < |parts| ==> sep !in parts[i]
    decreases |s|
  {
    if s == [] then [[]]
    else
      var rest := Split(s[1..], sep);
      if s[0] == sep then [[]] + rest
      else
        assert sep !in rest[0];
        [[s[0]] + rest[0]] + rest[1..]
  }

  /** `sep.join(parts)`. */
  function Join(parts: seq<string>, sep: char): string
    decreases |parts|
  {
    if parts == [] then []
    else if |parts| == 1 then parts[0]
    else parts[0] + [sep] + Join(parts[1..], sep)
  }

  /** Joining the pieces of a split gives back the original text. */
  lemma {:induction false} JoinSplit(s: string, sep: char)
    ensures Join(Split(s, sep), sep) == s
    decreases |s|
  {
    if s != [] {
      var rest := Split(s[1..], sep);
      JoinSplit(s[1..], sep);
      if s[0] != sep {
        var parts := [[s[0]] + rest[0]] + rest[1..];
        assert parts[1..] == rest[1..];
        if |rest| == 1 {
          assert Join(rest, sep) == rest[0];
        } else {
          assert Join(rest, sep) == rest[0] + [sep] + Join(rest[1..], sep);
        }
      } else {
        assert ([[]] + rest)[1..] == rest;
      }
    }
  }

  /** Splitting text that starts with a separator-free run `a`. */
  lemma {:induction false} SplitAfterRun(a: string, t: string, sep: char)
    requires sep !in a
    ensures Split(a + t, sep) == [a + Split(t, sep)[0]] + Split(t, sep)[1..]
    decreases |a|
  {
    if a != [] {
      assert (a + t)[1..] == a[1..] + t;
      SplitAfterRun(a[1..], t, sep);
      assert [a[0]] + (a[1..] + Split(t, sep)[0]) == a + Split(t, sep)[0];
    } else {
      assert a + t == t;
      assert a + Split(t, sep)[0] == Split(t, sep)[0];
      assert Split(t, sep) == [Split(t, sep)[0]] + Split(t, sep)[1..];
    }
  }

  /** Splitting a join of separator-free pieces gives back the pieces. */
  lemma {:induction false} SplitJoin(parts: seq<string>, sep: char)
    requires |parts| >= 1
    requires forall i :: 0 <= i < |parts| ==> sep !in parts[i]
    ensures Split(Join(parts, sep), sep) == parts
    decreases |parts|
  {
    if |parts| == 1 {
      SplitAfterRun(parts[0], [], sep);
      assert parts[0] + [] == parts[0];
    } else {
      var t := [sep] + Join(parts[1..], sep);
      SplitJoin(parts[1..], sep);
      assert Split(t, sep) == [[]] + parts[1..];
      assert parts[0] + [sep] + Join(parts[1..], sep) == parts[0] + t;
      SplitAfterRun(parts[0], t, sep);
      assert parts[0] + [] == parts[0];
    }
  }

  // ---------------------------------------------------------------------------
  // split() with no argument: the whitespace-separated words

  /** The longest whitespace-free prefix of `s`. */
  function TakeWord(s: string): (w: string)
    ensures w <= s && NoWhitespace(w)
    ensures |w| == |s| || IsWhitespace(s[|w|])
    ensures s != [] && !IsWhitespace(s[0]) ==> w != []
    decreases |s|
  {
    if s == [] || IsWhitespace(s[0]) then [] else [s[0]] + TakeWord(s[1..])
  }

  /** The number of positions of `s` at which a word starts: a character that
      is not whitespace and comes first or right after whitespace.
      `afterSpace` says whether the position before `s` counts as such. */
  function WordStarts(s: string, afterSpace: bool := true): nat
    decreases |s|
  {
    if s == [] then 0
    else (if afterSpace && !IsWhitespace(s[0]) then 1 else 0) + WordStarts(s[1..], IsWhitespace(s[0]))
  }

  /** A whitespace-only prefix holds no word start. */
  lemma {:induction false} WordStartsAfterBlank(s: string, k: nat)
    requires k <= |s| && IsBlank(s[..k])
    ensures WordStarts(s) == WordStarts(s[k..])
    decreases k
  {
    if k > 0 {
      assert IsWhitespace(s[..k][0]);
      assert s[1..][..k - 1] == s[..k][1..];
      WordStartsAfterBlank(s[1..], k - 1);
      assert s[1..][k - 1..] == s[k..];
    }
  }

  /** A whitespace-free prefix holds one word start at most, at its front. */
  lemma {:induction false} WordStartsInWord(s: string, k: nat, afterSpace: bool)
    requires 0 < k <= |s| && NoWhitespace(s[..k])
    ensures WordStarts(s, afterSpace) == (if afterSpace then 1 else 0) + WordStarts(s[k..], false)
    decreases k
  {
    assert !IsWhitespace(s[..k][0]);
    if k > 1 {
      assert s[1..][..k - 1] == s[..k][1..];
      WordStartsInWord(s[1..], k - 1, false);
      assert s[1..][k - 1..] == s[k..];
    }
  }

  /** Whether whitespace came before does not matter to text that is empty or starts with whitespace. */
  lemma {:induction false} WordStartsAtSpace(s: string)
    requires s == [] || IsWhitespace(s[0])
    ensures WordStarts(s, false) == WordStarts(s, true)
  {
  }

  /** A word of `s.split()`: non-empty and free of whitespace. */
  predicate IsWord(w: string) {
    w != [] && NoWhitespace(w)
  }

  /** `s.split()`: the maximal whitespace-free runs of `s`, in order.
      There are none exactly when `s` is blank. */
  function Words(s: string): (words: seq<string>)
    ensures forall i :: 0 <= i < |words| ==> IsWord(words[i])
    ensures words == [] <==> IsBlank(s)
    decreases |s|
  {
    TrimLeftBlank(s);
    var t := TrimLeft(s);
    if t == [] then []
    else
      var w := TakeWord(t);
      var rest := Words(t[|w|..]);
      AllWordsCons(w, rest);
      [w] + rest
  }

  /** Dropping leading whitespace loses no word start. */
  lemma {:induction false} WordStartsTrimLeft(s: string)
    ensures WordStarts(s) == WordStarts(TrimLeft(s))
  {
    var t := TrimLeft(s);
    WordStartsAfterBlank(s, |s| - |t|);
    assert s[|s| - |t|..] == t;
  }

  /** Text that starts with a word has one word start there, then those after the word. */
  lemma {:induction false} WordStartsAfterWord(t: string)
    requires t != [] && !IsWhitespace(t[0])
    ensures WordStarts(t) == 1 + WordStarts(t[|TakeWord(t)|..])
  {
    var w := TakeWord(t);
    assert t[..|w|] == w;
    WordStartsInWord(t, |w|, true);
    WordStartsAtSpace(t[|w|..]);
  }

  /** `len(s.split())` is the number of positions where a word starts. */
  lemma {:induction false} WordsCount(s: string)
    ensures |Words(s)| == WordStarts(s)
    decreases |s|
  {
    var t := TrimLeft(s);
    WordStartsTrimLeft(s);
    if t != [] {
      WordStartsAfterWord(t);
      WordsCount(t[|TakeWord(t)|..]);
    }
  }

  lemma {:induction false} AllWordsCons(w: string, rest: seq<string>)
    requires IsWord(w) && forall i :: 0 <= i < |rest| ==> IsWord(rest[i])
    ensures forall i :: 0 <= i < |[w] + rest| ==> IsWord(([w] + rest)[i])
  {
    forall i | 0 <= i < |[w] + rest|
      ensures IsWord(([w] + rest)[i])
    {
      if i > 0 {
        assert ([w] + rest)[i] == rest[i - 1];
      }
    }
  }

  /** The characters of `s` that are not whitespace, in order. */
  function NonWhitespace(s: string): string
    decreases |s|
  {
    if s == [] then [] else (if IsWhitespace(s[0]) then [] else [s[0]]) + NonWhitespace(s[1..])
  }

  function Concat(words: seq<string>): string
    decreases |words|
  {
    if words == [] then [] else words[0] + Concat(words[1..])
  }

  lemma {:induction false} NonWhitespaceAppend(a: string, b: string)
    ensures NonWhitespace(a + b) == NonWhitespace(a) + NonWhitespace(b)
    decreases |a|
  {
    if a == [] {
      assert a + b == b;
    } else {
      assert (a + b)[1..] == a[1..] + b;
      NonWhitespaceAppend(a[1..], b);
    }
  }

  lemma {:induction false} NonWhitespaceOfBlank(s: string)
    requires IsBlank(s)
    ensures NonWhitespace(s) == []
    decreases |s|
  {
    if s != [] {
      NonWhitespaceOfBlank(s[1..]);
    }
  }

  lemma {:induction false} NonWhitespaceOfWord(s: string)
    requires NoWhitespace(s)
    ensures NonWhitespace(s) == s
    decreases |s|
  {
    if s != [] {
      NonWhitespaceOfWord(s[1..]);
    }
  }

  /** Dropping leading whitespace loses no non-whitespace character. */
  lemma {:induction false} NonWhitespaceTrimLeft(s: string)
    ensures NonWhitespace(s) == NonWhitespace(TrimLeft(s))
  {
    var t := TrimLeft(s);
    assert s == s[..|s| - |t|] + t;
    NonWhitespaceAppend(s[..|s| - |t|], t);
    NonWhitespaceOfBlank(s[..|s| - |t|]);
  }

  /** The non-whitespace text of `t` is its first word, then that of the remainder. */
  lemma {:induction false} NonWhitespaceAfterWord(t: string)
    ensures NonWhitespace(t) == TakeWord(t) + NonWhitespace(t[|TakeWord(t)|..])
  {
    var w := TakeWord(t);
    assert t == w + t[|w|..];
    NonWhitespaceAppend(w, t[|w|..]);
    NonWhitespaceOfWord(w);
  }

  lemma {:induction false} ConcatCons(w: string, words: seq<string>)
    ensures Concat([w] + words) == w + Concat(words)
  {
    assert ([w] + words)[1..] == words;
  }

  /** The words are a partition of the non-whitespace text: nothing lost, nothing added. */
  lemma {:induction false} WordsPartitionText(s: string)
    ensures Concat(Words(s)) == NonWhitespace(s)
    decreases |s|
  {
    var t := TrimLeft(s);
    NonWhitespaceTrimLeft(s);
    if t != [] {
      var w := TakeWord(t);
      NonWhitespaceAfterWord(t);
      WordsPartitionText(t[|w|..]);
      ConcatCons(w, Words(t[|w|..]));
    }
  }

  // ---------------------------------------------------------------------------
  // Repetition and counting

  /** Python's `c * n` for a one-character string: empty when `n <= 0`. */
  function Repeat(c: char, n: int): (r: string)
    ensures |r| == if n <= 0 then 0 else n
    ensures forall i :: 0 <= i < |r| ==> r[i] == c
    decreases n
  {
    if n <= 0 then [] else [c] + Repeat(c, n - 1)
  }

  /** Number of occurrences of `c` in `s`. */
  function Occurrences(s: string, c: char): nat
    decreases |s|
  {
    if s == [] then 0 else (if s[0] == c then 1 else 0) + Occurrences(s[1..], c)
  }

  lemma {:induction false} OccurrencesAppend(a: string, b: string, c: char)
    ensures Occurrences(a + b, c) == Occurrences(a, c) + Occurrences(b, c)
    decreases |a|
  {
    if a == [] {
      assert a + b == b;
    } else {
      assert (a + b)[1..] == a[1..] + b;
      OccurrencesAppend(a[1..], b, c);
    }
  }

  /** A run of `n` copies of `c` holds `c` exactly `n` times and no other character. */
  lemma {:induction false} OccurrencesInRepeat(c: char, n: int, d: char)
    ensures Occurrences(Repeat(c, n), d) == if c == d && n > 0 then n else 0
    decreases n
  {
    if n > 0 {
      OccurrencesInRepeat(c, n - 1, d);
      assert Repeat(c, n)[1..] == Repeat(c, n - 1);
    }
  }

  lemma {:induction false} OccurrencesAbsent(s: string, c: char)
    requires c !in s
    ensures Occurrences(s, c) == 0
    decreases |s|
  {
    if s != [] {
      OccurrencesAbsent(s[1..], c);
    }
  }

  // ---------------------------------------------------------------------------
  // str(n) for an integer, and its inverse int(s)

  predicate IsDigit(c: char) {
    '0' <= c <= '9'
  }

  function DigitChar(d: int): (c: char)
    requires 0 <= d < 10
    ensures IsDigit(c)
  {
    ('0' as int + d) as char
  }

  /** Decimal digits of `n`, most significant first, without leading zeros. */
  function NatToDecimal(n: nat): (s: string)
    ensures s != [] && forall i :: 0 <= i < |s| ==> IsDigit(s[i])
    ensures |s| > 1 ==> s[0] != '0'
    decreases n
  {
    if n < 10 then [DigitChar(n)] else NatToDecimal(n / 10) + [DigitChar(n % 10)]
  }

  /** Python's `str(n)`: a minus sign before the digits of a negative number. */
  function IntToDecimal(n: int): (s: string)
  {
    if n < 0 then ['-'] + NatToDecimal(-n) else NatToDecimal(n)
  }

  /** Value of a string of decimal digits. */
  function DecimalValue(s: string): int
    requires forall i :: 0 <= i < |s| ==> IsDigit(s[i])
    decreases |s|
  {
    if s == [] then 0 else DecimalValue(s[..|s| - 1]) * 10 + (s[|s| - 1] as int - '0' as int)
  }

  /** Python's `int(s)` on an optional minus sign followed by digits. */
  function ParseInt(s: string): int
    requires s != [] && (s[0] == '-' || IsDigit(s[0]))
    requires forall i :: 1 <= i < |s| ==> IsDigit(s[i])
  {
    if s[0] == '-' then -DecimalValue(s[1..]) else DecimalValue(s)
  }

  lemma {:induction false} DecimalRoundTrip(n: nat)
    ensures DecimalValue(NatToDecimal(n)) == n
    decreases n
  {
    if n >= 10 {
      var s := NatToDecimal(n);
      assert s[..|s| - 1] == NatToDecimal(n / 10);
      DecimalRoundTrip(n / 10);
    }
  }

  /** `int(str(n)) == n`: the rendered number reads back as itself. */
  lemma {:induction false} IntToDecimalRoundTrip(n: int)
    ensures var s := IntToDecimal(n);
      s != [] && (s[0] == '-' || IsDigit(s[0])) && (forall i :: 1 <= i < |s| ==> IsDigit(s[i])) &&
      ParseInt(s) == n
    ensures n >= 0 <==> IsDigit(IntToDecimal(n)[0])
  {
    if n < 0 {
      DecimalRoundTrip(-n);
      assert IntToDecimal(n)[1..] == NatToDecimal(-n);
    } else {
      DecimalRoundTrip(n);
    }
  }
}
