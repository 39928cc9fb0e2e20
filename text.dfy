/** String helpers the record locator builds its messages and addresses
    from: Python's `str.isdigit`/`any`, `str(int)`, `"\n".join`, and
    `str.replace`, each with a reference property it is proved against. */
module Text {

  datatype Option<+T> = None | Some(value: T)

  /** `str.isdigit` on one character, narrowed to the ASCII digits. */
  predicate IsDigit(c: char) { '0' <= c <= '9' }

  /** `any(ch.isdigit() for ch in s)`, scanning left to right. */
  predicate ContainsDigit(s: string)
    decreases |s|
  {
    |s| > 0 && (IsDigit(s[0]) || ContainsDigit(s[1..]))
  }

  /** The scan agrees with "some position holds a digit". */
  lemma {:induction false} ContainsDigitIff(s: string)
    ensures ContainsDigit(s) <==> exists i :: 0 <= i < |s| && IsDigit(s[i])
    decreases |s|
  {
    if |s| > 0 {
      ContainsDigitIff(s[1..]);
      if !IsDigit(s[0]) && exists i :: 0 <= i < |s| && IsDigit(s[i]) {
        var i :| 0 <= i < |s| && IsDigit(s[i]);
        assert s[1..][i - 1] == s[i];
      }
    }
  }

  lemma Associative(a: string, b: string, c: string)
    ensures a + (b + c) == (a + b) + c
  {
  }

  predicate StartsWith(s: string, prefix: string) {
    |prefix| <= |s| && s[..|prefix|] == prefix
  }

  predicate EndsWith(s: string, suffix: string) {
    |suffix| <= |s| && s[|s| - |suffix|..] == suffix
  }

  function DigitChar(d: nat): (c: char)
    requires d < 10
    ensures IsDigit(c) && DigitValue(c) == d
  {
    ('0' as int + d) as char
  }

  function DigitValue(c: char): int {
    c as int - '0' as int
  }

  /** Decimal rendering of a natural number, most significant digit first,
      with no leading zeros. */
  function NatToStr(n: nat): (s: string)
    ensures |s| >= 1
    ensures forall i :: 0 <= i < |s| ==> IsDigit(s[i])
    ensures n == 0 ==> s == "0"
    ensures n > 0 ==> s[0] != '0'
    decreases n
  {
    if n < 10 then [DigitChar(n)] else NatToStr(n / 10) + [DigitChar(n % 10)]
  }

  /** Python's `str(n)` for an integer: a minus sign before negative values. */
  function IntToStr(n: int): string {
    if n < 0 then "-" + NatToStr(-n) else NatToStr(n)
  }

  /** Reads back a string of ASCII digits as a number. */
  function ParseNat(s: string): int
    decreases |s|
  {
    if s == [] then 0 else ParseNat(s[..|s| - 1]) * 10 + DigitValue(s[|s| - 1])
  }

  lemma {:induction false} NatToStrRoundTrip(n: nat)
    ensures ParseNat(NatToStr(n)) == n
    decreases n
  {
    var s := NatToStr(n);
    if n >= 10 {
      NatToStrRoundTrip(n / 10);
      assert s[..|s| - 1] == NatToStr(n / 10);
    } else {
      assert s[..|s| - 1] == [];
    }
  }

  /** Distinct integers render differently, so an id can be read back
      from its decimal text. */
  lemma IntToStrInjective(a: int, b: int)
    requires IntToStr(a) == IntToStr(b)
    ensures a == b
  {
    MinusSignIffNegative(a);
    MinusSignIffNegative(b);
    NatToStrRoundTrip(if a < 0 then -a else a);
    NatToStrRoundTrip(if b < 0 then -b else b);
  }

  lemma MinusSignIffNegative(n: int)
    ensures |IntToStr(n)| >= 1
    ensures IntToStr(n)[0] == '-' <==> n < 0
    ensures n < 0 ==> IntToStr(n)[1..] == NatToStr(-n)
  {
    if n >= 0 {
      assert IsDigit(NatToStr(n)[0]);
    }
  }

  /** The rendering of an integer holds no character outside `-0123456789`. */
  lemma IntToStrCharacters(n: int)
    ensures |IntToStr(n)| >= 1
    ensures forall i :: 0 <= i < |IntToStr(n)| ==> IsDigit(IntToStr(n)[i]) || IntToStr(n)[i] == '-'
  {
    if n < 0 {
      var t := NatToStr(-n);
      assert forall i :: 1 <= i < |IntToStr(n)| ==> IntToStr(n)[i] == t[i - 1];
    }
  }

  /** Python's `sep.join(lines)`. */
  function Join(lines: seq<string>, sep: string): string
    decreases |lines|
  {
    if |lines| == 0 then ""
    else if |lines| == 1 then lines[0]
    else lines[0] + sep + Join(lines[1..], sep)
  }

  /** Python's `s.split(c)` for a one-character separator: the pieces
      between separators, so always at least one piece. */
  function Split(s: string, c: char): (parts: seq<string>)
    ensures |parts| >= 1
    decreases |s|
  {
    if s == [] then [""]
    else
      var rest := Split(s[1..], c);
      if s[0] == c then [""] + rest else [[s[0]] + rest[0]] + rest[1..]
  }

  lemma {:induction false} SplitWithoutSeparator(s: string, c: char)
    requires c !in s
    ensures Split(s, c) == [s]
    decreases |s|
  {
    if s != [] {
      assert c !in s[1..] by {
        forall i | 0 <= i < |s[1..]| ensures s[1..][i] != c { assert s[1..][i] == s[i + 1]; }
      }
      SplitWithoutSeparator(s[1..], c);
      assert [s[0]] + s[1..] == s;
    }
  }

  lemma {:induction false} SplitAtSeparator(line: string, c: char, tail: string)
    requires c !in line
    ensures Split(line + [c] + tail, c) == [line] + Split(tail, c)
    decreases |line|
  {
    var s := line + [c] + tail;
    if line == [] {
      assert s == [c] + tail;
      assert s[1..] == tail;
    } else {
      var inner := line[1..];
      assert c !in inner by {
        forall i | 0 <= i < |inner| ensures inner[i] != c { assert inner[i] == line[i + 1]; }
      }
      assert s[1..] == inner + [c] + tail;
      SplitAtSeparator(inner, c, tail);
      assert [line[0]] + inner == line;
    }
  }

  /** Splitting a join on a separator that no line contains gives the lines
      back: the joined text holds exactly those lines, in order. */
  lemma {:induction false} SplitJoin(lines: seq<string>, c: char)
    requires |lines| >= 1
    requires forall i :: 0 <= i < |lines| ==> c !in lines[i]
    ensures Split(Join(lines, [c]), c) == lines
    decreases |lines|
  {
    if |lines| == 1 {
      SplitWithoutSeparator(lines[0], c);
    } else {
      SplitJoin(lines[1..], c);
      SplitAtSeparator(lines[0], c, Join(lines[1..], [c]));
      assert [lines[0]] + lines[1..] == lines;
    }
  }

  /** Python's `s.replace(pattern, replacement)`: every non-overlapping
      occurrence, leftmost first. */
  function ReplaceAll(s: string, pattern: string, replacement: string): string
    requires |pattern| > 0
    decreases |s|
  {
    if |s| < |pattern| then s
    else if s[..|pattern|] == pattern then replacement + ReplaceAll(s[|pattern|..], pattern, replacement)
    else [s[0]] + ReplaceAll(s[1..], pattern, replacement)
  }

  /** Where the pattern does not start, one character is kept as it is. */
  lemma ReplaceSkip(s: string, pattern: string, replacement: string)
    requires 0 < |pattern| <= |s| && !StartsWith(s, pattern)
    ensures ReplaceAll(s, pattern, replacement) == [s[0]] + ReplaceAll(s[1..], pattern, replacement)
  {
  }

  /** When the pattern occurs only at the very end of `prefix + pattern`,
      replacing swaps exactly that tail. */
  lemma {:induction false} ReplaceTrailing(prefix: string, pattern: string, replacement: string)
    requires |pattern| > 0
    requires forall i :: 0 <= i < |prefix| ==> !StartsWith((prefix + pattern)[i..], pattern)
    ensures ReplaceAll(prefix + pattern, pattern, replacement) == prefix + replacement
    decreases |prefix|
  {
    var s := prefix + pattern;
    if prefix == [] {
      assert s == pattern && s[|pattern|..] == [];
    } else {
      var rest := prefix[1..];
      assert !StartsWith(s, pattern) by {
        assert s[0..] == s;
      }
      assert s[1..] == rest + pattern;
      ReplaceSkip(s, pattern, replacement);
      assert forall i :: 0 <= i < |rest| ==> !StartsWith((rest + pattern)[i..], pattern) by {
        forall i | 0 <= i < |rest| ensures !StartsWith((rest + pattern)[i..], pattern) {
          assert (rest + pattern)[i..] == s[i + 1..];
        }
      }
      ReplaceTrailing(rest, pattern, replacement);
      Associative([prefix[0]], rest, replacement);
      assert [prefix[0]] + rest == prefix;
    }
  }
}
