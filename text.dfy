/**
 * Python string operations the system relies on: the character classes of `str.isspace()` and of
 * the regular-expression escapes `\s`, `\S` and `\d`, `strip`, `split`, `join`, `replace` and
 * zero-padded decimal numbers as written by `strftime`.
 */
module Text {
  import opened Sequences

  /** Python's `str.isspace()`, which is also what `\s` matches in a `str` pattern. */
  predicate IsSpace(c: char) {
    var n := c as int;
    (9 <= n <= 13) || (28 <= n <= 32) || n == 0x85 || n == 0xA0 || n == 0x1680
    || (0x2000 <= n <= 0x200A) || n == 0x2028 || n == 0x2029 || n == 0x202F
    || n == 0x205F || n == 0x3000
  }

  /** An ASCII decimal digit. */
  predicate IsDigit(c: char) {
    '0' <= c <= '9'
  }

  predicate AllSpace(s: string) {
    forall i :: 0 <= i < |s| ==> IsSpace(s[i])
  }

  predicate NoSpace(s: string) {
    forall i :: 0 <= i < |s| ==> !IsSpace(s[i])
  }

  predicate AllDigits(s: string) {
    forall i :: 0 <= i < |s| ==> IsDigit(s[i])
  }

  // ---------------------------------------------------------------------------------------------
  // Runs and stripping.

  /** Where a run of characters satisfying `p` that starts at position `i` of `s` ends: the
      first position from `i` on whose character does not satisfy `p`, or the end of `s`. This
      is how far a greedy `\s*`, `\S+` or `\d*` reaches from `i`. */
  function RunEnd(s: string, i: nat, p: char -> bool): (j: nat)
    requires i <= |s|
    ensures i <= j <= |s|
    ensures j < |s| ==> !p(s[j])
    decreases |s| - i
  {
    if i == |s| || !p(s[i]) then i else RunEnd(s, i + 1, p)
  }

  /** Every character a run passes over satisfies `p`. (Kept out of the contract of `RunEnd`, so
      that only the proofs that need it pay for the quantifier.) */
  lemma {:induction false} RunCovers(s: string, i: nat, p: char -> bool)
    requires i <= |s|
    ensures forall x :: i <= x < RunEnd(s, i, p) ==> p(s[x])
    decreases |s| - i
  {
    if i < |s| && p(s[i]) {
      RunCovers(s, i + 1, p);
    }
  }

  /** Where a run of characters satisfying `p` that ends just before position `j` starts. */
  function RunStart(s: string, j: nat, p: char -> bool): (i: nat)
    requires j <= |s|
    ensures i <= j
    ensures forall x :: i <= x < j ==> p(s[x])
    ensures 0 < i ==> !p(s[i - 1])
  {
    if j == 0 || !p(s[j - 1]) then j else RunStart(s, j - 1, p)
  }

  /** The characterisation of `RunEnd` determines it. */
  lemma {:induction false} RunEndUnique(s: string, i: nat, j: nat, p: char -> bool)
    requires i <= j <= |s|
    requires forall x :: i <= x < j ==> p(s[x])
    requires j < |s| ==> !p(s[j])
    ensures RunEnd(s, i, p) == j
    decreases j - i
  {
    if i < j {
      RunEndUnique(s, i + 1, j, p);
    }
  }

  /** A run passes over a piece of the text whose characters all satisfy `p`. */
  lemma RunOverPiece(s: string, a: nat, w: string, p: char -> bool)
    requires a + |w| <= |s| && s[a..a + |w|] == w
    requires forall x :: 0 <= x < |w| ==> p(w[x])
    ensures RunEnd(s, a, p) == RunEnd(s, a + |w|, p)
  {
    var j := RunEnd(s, a + |w|, p);
    RunCovers(s, a + |w|, p);
    assert forall x :: a <= x < a + |w| ==> s[x] == w[x - a];
    RunEndUnique(s, a, j, p);
  }

  /** A run reaches at least as far as the characters from `i` on satisfy `p`. */
  lemma {:induction false} RunReaches(s: string, i: nat, j: nat, p: char -> bool)
    requires i <= j <= |s|
    requires forall x :: i <= x < j ==> p(s[x])
    ensures j <= RunEnd(s, i, p)
    decreases j - i
  {
    if i < j {
      RunReaches(s, i + 1, j, p);
    }
  }

  /** The characters of a piece of the text, by position. */
  lemma PieceIndex(s: string, a: nat, w: string)
    requires a + |w| <= |s| && s[a..a + |w|] == w
    ensures forall x :: a <= x < a + |w| ==> s[x] == w[x - a]
  {
    forall x | a <= x < a + |w|
      ensures s[x] == w[x - a]
    {
      assert s[a..a + |w|][x - a] == s[x];
    }
  }

  /** The characters a run covers, read in the slice from where the run starts. */
  lemma RunPiece(s: string, a: nat, j: nat, p: char -> bool)
    requires a <= j <= |s| && j <= RunEnd(s, a, p)
    ensures forall x :: 0 <= x < j - a ==> p(s[a..j][x])
  {
    RunCovers(s, a, p);
    forall x | 0 <= x < j - a
      ensures p(s[a..j][x])
    {
      assert s[a..j][x] == s[a + x];
    }
  }

  /** A suffix of a text is the piece up to a cut point followed by the suffix from there. */
  lemma SliceSplit(s: string, a: nat, b: nat)
    requires a <= b <= |s|
    ensures s[a..b] + s[b..] == s[a..]
  {
  }

  /** A suffix of a text that is a concatenation, cut into its two parts. */
  lemma PiecesOf(s: string, a: nat, x: string, y: string)
    requires a <= |s| && s[a..] == x + y
    ensures a + |x| <= |s| && s[a..a + |x|] == x && s[a + |x|..] == y
  {
    assert s[a..a + |x|] == s[a..][..|x|];
    assert s[a + |x|..] == s[a..][|x|..];
  }

  /** Length of the longest prefix of `s` whose characters all satisfy `p`. */
  function LeadingRun(s: string, p: char -> bool): (n: nat)
    ensures n <= |s|
    ensures forall i :: 0 <= i < n ==> p(s[i])
    ensures n < |s| ==> !p(s[n])
  {
    RunCovers(s, 0, p);
    RunEnd(s, 0, p)
  }

  /** Length of the longest suffix of `s` whose characters all satisfy `p`. */
  function TrailingRun(s: string, p: char -> bool): (n: nat)
    ensures n <= |s|
    ensures forall i :: |s| - n <= i < |s| ==> p(s[i])
    ensures n < |s| ==> !p(s[|s| - n - 1])
  {
    |s| - RunStart(s, |s|, p)
  }

  /** `lstrip`: drops the leading characters that satisfy `p`. */
  function TrimLeft(s: string, p: char -> bool): (r: string)
    ensures r == s[LeadingRun(s, p)..]
    ensures r != [] ==> !p(r[0])
  {
    s[LeadingRun(s, p)..]
  }

  /** `strip`: drops the leading and the trailing characters that satisfy `p`. */
  function Strip(s: string, p: char -> bool): (r: string)
    ensures LeadingRun(s, p) + |r| <= |s|
    ensures r == s[LeadingRun(s, p)..LeadingRun(s, p) + |r|]
    ensures forall i :: LeadingRun(s, p) + |r| <= i < |s| ==> p(s[i])
    ensures r != [] ==> !p(r[0]) && !p(r[|r| - 1])
  {
    var t := TrimLeft(s, p);
    var n := TrailingRun(t, p);
    t[..|t| - n]
  }

  /** Whatever surrounds a text that neither starts nor ends with a stripped character, if it
      consists of stripped characters only, is exactly what `strip` removes. */
  lemma StripSurrounded(pre: string, x: string, post: string, p: char -> bool)
    requires forall i :: 0 <= i < |pre| ==> p(pre[i])
    requires forall i :: 0 <= i < |post| ==> p(post[i])
    requires x != [] && !p(x[0]) && !p(x[|x| - 1])
    ensures Strip(pre + x + post, p) == x
  {
    var s := pre + x + post;
    assert forall i :: 0 <= i < |pre| ==> s[i] == pre[i];
    assert s[|pre|] == x[0];
    RunEndUnique(s, 0, |pre|, p);
    var r := Strip(s, p);
    assert s[|pre| + |x| - 1] == x[|x| - 1];
    assert forall k :: |pre| + |x| <= k < |s| ==> s[k] == post[k - |pre| - |x|];
    assert |r| == |x|;
    assert r == s[|pre|..|pre| + |x|];
  }

  /** How far a run reaches into a concatenation. */
  lemma LeadingRunConcat(x: string, y: string, p: char -> bool)
    ensures LeadingRun(x + y, p) == if LeadingRun(x, p) < |x| then LeadingRun(x, p) else |x| + LeadingRun(y, p)
  {
    var s := x + y;
    var n := LeadingRun(x, p);
    assert forall i :: 0 <= i < |x| ==> s[i] == x[i];
    if n < |x| {
      RunEndUnique(s, 0, n, p);
    } else {
      var m := LeadingRun(y, p);
      assert forall i :: |x| <= i < |s| ==> s[i] == y[i - |x|];
      RunEndUnique(s, 0, |x| + m, p);
    }
  }

  // ---------------------------------------------------------------------------------------------
  // split and join.

  /** `sep.join(parts)`. */
  function Join(parts: seq<string>, sep: string): (r: string)
    ensures |parts| == 1 ==> r == parts[0]
  {
    if |parts| == 0 then []
    else if |parts| == 1 then parts[0]
    else parts[0] + sep + Join(parts[1..], sep)
  }

  /** `s.split(c)` for a one-character separator. */
  function Split(s: string, c: char): (r: seq<string>)
    ensures |r| >= 1
    ensures forall i :: 0 <= i < |r| ==> c !in r[i]
    ensures Join(r, [c]) == s
  {
    if s == [] then [[]]
    else
      var rest := Split(s[1..], c);
      if s[0] == c then
        assert [[]] + rest == [[]] + rest[0..];
        JoinCons([], rest, [c]);
        [[]] + rest
      else
        JoinPrepend(s[0], rest, [c]);
        [[s[0]] + rest[0]] + rest[1..]
  }

  lemma JoinCons(x: string, rest: seq<string>, sep: string)
    requires |rest| >= 1
    ensures Join([x] + rest, sep) == x + sep + Join(rest, sep)
  {
    assert ([x] + rest)[1..] == rest;
  }

  lemma JoinPrepend(ch: char, parts: seq<string>, sep: string)
    requires |parts| >= 1
    ensures Join([[ch] + parts[0]] + parts[1..], sep) == [ch] + Join(parts, sep)
  {
    if |parts| > 1 {
      JoinCons([ch] + parts[0], parts[1..], sep);
    }
  }

  lemma SplitNoSeparator(x: string, c: char)
    requires c !in x
    ensures Split(x, c) == [x]
  {
    if x != [] {
      SplitNoSeparator(x[1..], c);
    }
  }

  lemma {:induction false} SplitAfterSeparator(x: string, y: string, c: char)
    requires c !in x
    ensures Split(x + [c] + y, c) == [x] + Split(y, c)
  {
    if x == [] {
      assert x + [c] + y == [c] + y;
      assert ([c] + y)[1..] == y;
    } else {
      var s := x + [c] + y;
      assert s[0] == x[0] && s[1..] == x[1..] + [c] + y;
      var rest := Split(s[1..], c);
      SplitAfterSeparator(x[1..], y, c);
      assert rest[0] == x[1..] && rest[1..] == Split(y, c);
      assert Split(s, c) == [[x[0]] + rest[0]] + rest[1..];
      assert [x[0]] + x[1..] == x;
    }
  }

  /** Splitting a joined list again gives the list back when no part holds the separator. */
  lemma {:induction false} SplitJoin(parts: seq<string>, c: char)
    requires |parts| >= 1
    requires forall i :: 0 <= i < |parts| ==> c !in parts[i]
    ensures Split(Join(parts, [c]), c) == parts
  {
    if |parts| == 1 {
      SplitNoSeparator(parts[0], c);
    } else {
      SplitJoin(parts[1..], c);
      SplitAfterSeparator(parts[0], Join(parts[1..], [c]), c);
      assert parts[0] + [c] + Join(parts[1..], [c]) == Join(parts, [c]);
      assert [parts[0]] + parts[1..] == parts;
    }
  }

  /** `s.replace(a, b)` for one-character `a` and `b`. */
  function ReplaceChar(s: string, a: char, b: char): (r: string)
    ensures |r| == |s|
    ensures forall i :: 0 <= i < |s| ==> r[i] == (if s[i] == a then b else s[i])
  {
    if s == [] then [] else [if s[0] == a then b else s[0]] + ReplaceChar(s[1..], a, b)
  }

  // ---------------------------------------------------------------------------------------------
  // Decimal numbers.

  function Pow10(n: nat): (r: nat)
    ensures r >= 1
  {
    if n == 0 then 1 else 10 * Pow10(n - 1)
  }

  function DigitChar(d: nat): (c: char)
    requires d < 10
    ensures IsDigit(c)
  {
    ('0' as int + d) as char
  }

  function DigitValue(c: char): (d: nat)
    requires IsDigit(c)
    ensures d < 10
  {
    c as int - '0' as int
  }

  /** The value of a string of decimal digits. */
  function DigitsValue(s: string): (v: nat)
    requires AllDigits(s)
    ensures v < Pow10(|s|)
  {
    if s == [] then 0 else DigitsValue(s[..|s| - 1]) * 10 + DigitValue(s[|s| - 1])
  }

  /** The value of one or two digits. */
  lemma ShortDigitsValue(s: string)
    requires AllDigits(s) && 1 <= |s| <= 2
    ensures |s| == 1 ==> DigitsValue(s) == DigitValue(s[0])
    ensures |s| == 2 ==> DigitsValue(s) == DigitValue(s[0]) * 10 + DigitValue(s[1])
  {
    assert s[..|s| - 1][..|s| - 1] == s[..|s| - 1];
    if |s| == 2 {
      assert s[..1] == [s[0]];
    }
  }

  /** `n` written with exactly `width` digits, zero-padded on the left (`%02d`, `%04d`). */
  function Pad(n: nat, width: nat): (r: string)
    ensures |r| == width && AllDigits(r)
  {
    if width == 0 then [] else Pad(n / 10, width - 1) + [DigitChar(n % 10)]
  }

  /** Reading back a zero-padded number gives the number, when it fits the width. */
  lemma {:induction false} PadValue(n: nat, width: nat)
    requires n < Pow10(width)
    ensures DigitsValue(Pad(n, width)) == n
  {
    if width > 0 {
      PadValue(n / 10, width - 1);
      var r := Pad(n, width);
      assert r[..|r| - 1] == Pad(n / 10, width - 1);
      assert DigitValue(r[|r| - 1]) == n % 10;
    }
  }

  lemma DivModTen(a: nat, b: nat)
    requires b < 10
    ensures (a * 10 + b) / 10 == a && (a * 10 + b) % 10 == b
  {
  }

  /** Writing back the value of a string of digits with its own width gives the string back. */
  lemma {:induction false} DigitsPad(s: string)
    requires AllDigits(s)
    ensures Pad(DigitsValue(s), |s|) == s
  {
    if s != [] {
      var init, c := s[..|s| - 1], s[|s| - 1];
      InitLast(s);
      DigitsPad(init);
      var v := DigitsValue(s);
      assert v == DigitsValue(init) * 10 + DigitValue(c);
      DivModTen(DigitsValue(init), DigitValue(c));
      assert Pad(v, |s|) == Pad(DigitsValue(init), |init|) + [DigitChar(DigitValue(c))];
      assert DigitChar(DigitValue(c)) == c;
    }
  }
}
