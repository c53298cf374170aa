/** String utilities shared by both scripts: substring search, character
    replacement, digit filtering, decimal rendering and reading, newline
    joining and splitting, truncation, trimming and lower-casing. */
module Text {

  // ---------------------------------------------------------------------------
  // Character classes

  /** An ASCII decimal digit: JavaScript's `[0-9]` and `\d`. */
  predicate IsDigit(c: char) {
    '0' <= c <= '9'
  }

  /** JavaScript's WhiteSpace and LineTerminator code points, the set that
      `String.prototype.trim` removes. */
  predicate IsJsSpace(c: char) {
    c == '\t' || c == '\n' || c == '\U{0B}' || c == '\U{0C}' || c == '\r' || c == ' '
    || c == '\U{A0}' || c == '\U{1680}' || ('\U{2000}' <= c <= '\U{200A}')
    || c == '\U{2028}' || c == '\U{2029}' || c == '\U{202F}' || c == '\U{205F}'
    || c == '\U{3000}' || c == '\U{FEFF}'
  }

  // ---------------------------------------------------------------------------
  // Substring search (Python's `in` on strings, JavaScript's `includes`)

  predicate OccursAt(s: string, w: string, i: nat) {
    i + |w| <= |s| && s[i..i + |w|] == w
  }

  predicate Contains(s: string, w: string) {
    exists i: nat | i <= |s| :: OccursAt(s, w, i)
  }

  lemma SliceOfSlice(s: string, a: nat, b: nat, i: nat, j: nat)
    requires a <= b <= |s| && i <= j <= b - a
    ensures s[a..b][i..j] == s[a + i..a + j]
  {
    forall k | 0 <= k < j - i ensures s[a..b][i..j][k] == s[a + i..a + j][k] {
    }
  }

  lemma ContainsAt(s: string, w: string, i: nat)
    requires OccursAt(s, w, i)
    ensures Contains(s, w)
  {
  }

  /** A word cannot occur in a text that lacks the word's first character. */
  lemma MissingFirstChar(s: string, w: string)
    requires |w| > 0 && w[0] !in s
    ensures !Contains(s, w)
  {
    forall i: nat | i <= |s| ensures !OccursAt(s, w, i) {
      if i + |w| <= |s| {
        assert s[i..i + |w|][0] == s[i];
      }
    }
  }

  /** A word as long as the text occurs in it only as the whole text. */
  lemma ContainsSameLength(s: string, w: string)
    requires |s| == |w|
    ensures Contains(s, w) <==> s == w
  {
    if Contains(s, w) {
      var i: nat :| i <= |s| && OccursAt(s, w, i);
      assert i == 0;
      assert s[0..|w|] == s;
    } else {
      assert !OccursAt(s, w, 0);
      assert s[0..|w|] == s;
    }
  }

  lemma ContainsLeft(a: string, b: string, w: string)
    requires Contains(a, w)
    ensures Contains(a + b, w)
  {
    var i: nat :| i <= |a| && OccursAt(a, w, i);
    assert (a + b)[i..i + |w|] == a[i..i + |w|];
    assert OccursAt(a + b, w, i);
  }

  lemma ContainsRight(a: string, b: string, w: string)
    requires Contains(b, w)
    ensures Contains(a + b, w)
  {
    var i: nat :| i <= |b| && OccursAt(b, w, i);
    assert (a + b)[|a| + i..|a| + i + |w|] == b[i..i + |w|];
    assert OccursAt(a + b, w, |a| + i);
  }

  /** An occurrence of a text that itself contains `w` is an occurrence of `w`. */
  lemma ContainsTransitive(s: string, m: string, w: string)
    requires Contains(s, m) && Contains(m, w)
    ensures Contains(s, w)
  {
    var i: nat :| i <= |s| && OccursAt(s, m, i);
    var j: nat :| j <= |m| && OccursAt(m, w, j);
    SliceOfSlice(s, i, i + |m|, j, j + |w|);
    assert OccursAt(s, w, i + j);
  }

  // ---------------------------------------------------------------------------
  // Replacement (Python's `str.replace`)

  /** Every `a` becomes `b`; nothing else changes. */
  function ReplaceChar(s: string, a: char, b: char): (r: string)
    ensures |r| == |s|
    ensures a != b ==> a !in r
  {
    if s == [] then [] else [if s[0] == a then b else s[0]] + ReplaceChar(s[1..], a, b)
  }

  lemma {:induction false} ReplaceCharAt(s: string, a: char, b: char)
    ensures forall i :: 0 <= i < |s| ==> ReplaceChar(s, a, b)[i] == (if s[i] == a then b else s[i])
  {
    if s != [] {
      ReplaceCharAt(s[1..], a, b);
    }
  }

  lemma ReplaceCharAbsent(s: string, a: char, b: char, c: char)
    requires c !in s && c != b
    ensures c !in ReplaceChar(s, a, b)
  {
    ReplaceCharAt(s, a, b);
  }

  lemma ReplaceCharIndex(s: string, a: char, b: char, i: nat)
    requires i < |s|
    ensures ReplaceChar(s, a, b)[i] == (if s[i] == a then b else s[i])
  {
    ReplaceCharAt(s, a, b);
  }

  lemma ReplaceCharConcat(s: string, t: string, a: char, b: char)
    ensures ReplaceChar(s + t, a, b) == ReplaceChar(s, a, b) + ReplaceChar(t, a, b)
  {
    var l, x, y := ReplaceChar(s + t, a, b), ReplaceChar(s, a, b), ReplaceChar(t, a, b);
    ReplaceCharAt(s + t, a, b);
    ReplaceCharAt(s, a, b);
    ReplaceCharAt(t, a, b);
    forall i | 0 <= i < |l| ensures l[i] == (x + y)[i] {
      if i < |s| {
        assert (s + t)[i] == s[i];
        assert (x + y)[i] == x[i];
      } else {
        assert (s + t)[i] == t[i - |s|];
        assert (x + y)[i] == y[i - |s|];
      }
    }
    assert l == x + y;
  }

  lemma ReplaceCharPrefix(s: string, n: nat, a: char, b: char)
    requires n <= |s|
    ensures ReplaceChar(s, a, b)[..n] == ReplaceChar(s[..n], a, b)
  {
    ReplaceCharAt(s, a, b);
    ReplaceCharAt(s[..n], a, b);
  }

  lemma ReplaceCharSuffix(s: string, n: nat, a: char, b: char)
    requires n <= |s|
    ensures ReplaceChar(s, a, b)[n..] == ReplaceChar(s[n..], a, b)
  {
    ReplaceCharAt(s, a, b);
    ReplaceCharAt(s[n..], a, b);
  }

  lemma ReplaceCharIdempotent(s: string, a: char, b: char)
    ensures ReplaceChar(ReplaceChar(s, a, b), a, b) == ReplaceChar(s, a, b)
  {
  }

  /** Every `a` becomes the text `rep`. */
  function ReplaceWith(s: string, a: char, rep: string): (r: string)
    ensures a !in s ==> r == s
    ensures forall c :: c in r ==> c in rep || (c in s && c != a)
  {
    if s == [] then []
    else (if s[0] == a then rep else [s[0]]) + ReplaceWith(s[1..], a, rep)
  }

  lemma {:induction false} ReplaceWithConcat(s: string, t: string, a: char, rep: string)
    ensures ReplaceWith(s + t, a, rep) == ReplaceWith(s, a, rep) + ReplaceWith(t, a, rep)
  {
    if s != [] {
      var head := if s[0] == a then rep else [s[0]];
      assert (s + t)[0] == s[0] && (s + t)[1..] == s[1..] + t;
      assert ReplaceWith(s + t, a, rep) == head + ReplaceWith(s[1..] + t, a, rep);
      ReplaceWithConcat(s[1..], t, a, rep);
    } else {
      assert s + t == t;
    }
  }

  // ---------------------------------------------------------------------------
  // Digits and decimal numbers

  /** The digits of `s`, in order: JavaScript's `s.replace(/[^0-9]/g, '')`. */
  function Digits(s: string): (r: string)
    ensures |r| <= |s|
    ensures forall i :: 0 <= i < |r| ==> IsDigit(r[i])
    ensures (forall i :: 0 <= i < |s| ==> IsDigit(s[i])) ==> r == s
    ensures (forall i :: 0 <= i < |s| ==> !IsDigit(s[i])) ==> r == []
  {
    if s == [] then []
    else if IsDigit(s[0]) then [s[0]] + Digits(s[1..])
    else Digits(s[1..])
  }

  lemma {:induction false} DigitsConcat(a: string, b: string)
    ensures Digits(a + b) == Digits(a) + Digits(b)
  {
    if a == [] {
      assert a + b == b;
    } else {
      assert (a + b)[1..] == a[1..] + b;
      DigitsConcat(a[1..], b);
    }
  }

  /** `s.endsWith(t)` */
  predicate EndsWith(s: string, t: string) {
    |t| <= |s| && s[|s| - |t|..] == t
  }

  /** A text without any digit. */
  predicate NoDigits(s: string) {
    forall i :: 0 <= i < |s| ==> !IsDigit(s[i])
  }

  /** A line made of a caption and a value ends with the value. */
  lemma EndsWithValue(caption: string, value: string)
    ensures EndsWith(caption + value, value)
  {
    assert (caption + value)[|caption + value| - |value|..] == value;
  }

  /** `<caption><n><unit>`: the only digits are those of `n`. */
  lemma CountDigits(caption: string, n: nat, unit: string)
    requires NoDigits(caption) && NoDigits(unit)
    ensures Digits(caption + NatToDecimal(n) + unit) == NatToDecimal(n)
  {
    DigitsConcat(caption + NatToDecimal(n), unit);
    DigitsConcat(caption, NatToDecimal(n));
  }

  /** `<caption><before><sep><after><unit>`: the digits of both counts, in order. */
  lemma SpanDigits(caption: string, before: nat, sep: string, after: nat, unit: string)
    requires NoDigits(caption) && NoDigits(sep) && NoDigits(unit)
    ensures Digits(caption + NatToDecimal(before) + sep + NatToDecimal(after) + unit)
              == NatToDecimal(before) + NatToDecimal(after)
  {
    var b, a := NatToDecimal(before), NatToDecimal(after);
    var x := caption + b + sep;
    CountDigits(caption, before, sep);
    assert Digits(x) == b;
    DigitsConcat(x, a);
    assert Digits(x + a) == b + a;
    DigitsConcat(x + a, unit);
    assert Digits(unit) == [];
  }

  function DigitValue(c: char): nat
    requires IsDigit(c)
  {
    c as int - '0' as int
  }

  function DigitChar(d: nat): (c: char)
    requires d < 10
    ensures IsDigit(c) && DigitValue(c) == d
  {
    ('0' as int + d) as char
  }

  /** The value of a string of decimal digits, most significant first. */
  function DecimalValue(ds: string): nat
    requires forall i :: 0 <= i < |ds| ==> IsDigit(ds[i])
  {
    if ds == [] then 0
    else 10 * DecimalValue(ds[..|ds| - 1]) + DigitValue(ds[|ds| - 1])
  }

  /** The decimal rendering of `n` (what an f-string or a template literal prints). */
  function NatToDecimal(n: nat): (r: string)
    ensures |r| > 0
    ensures forall i :: 0 <= i < |r| ==> IsDigit(r[i])
    ensures |r| > 1 ==> r[0] != '0'
  {
    (if n < 10 then [] else NatToDecimal(n / 10)) + [DigitChar(n % 10)]
  }

  /** Reading back a rendered number gives the number. */
  lemma {:induction false} DecimalRoundTrip(n: nat)
    ensures DecimalValue(NatToDecimal(n)) == n
  {
    var r := NatToDecimal(n);
    assert r[..|r| - 1] == if n < 10 then [] else NatToDecimal(n / 10);
    if n >= 10 {
      DecimalRoundTrip(n / 10);
    }
  }

  // ---------------------------------------------------------------------------
  // Lines (Python's "\n".join and str.split("\n"))

  /** `"\n".join(lines)`. */
  function JoinLines(lines: seq<string>): string {
    if lines == [] then []
    else if |lines| == 1 then lines[0]
    else lines[0] + "\n" + JoinLines(lines[1..])
  }

  /** `s.split("\n")`: always at least one piece. */
  function SplitLines(s: string): (r: seq<string>)
    ensures |r| > 0
  {
    if s == [] then [[]]
    else if s[0] == '\n' then [[]] + SplitLines(s[1..])
    else var rest := SplitLines(s[1..]); [[s[0]] + rest[0]] + rest[1..]
  }

  predicate NoNewline(lines: seq<string>) {
    forall i :: 0 <= i < |lines| ==> '\n' !in lines[i]
  }

  lemma {:induction false} SplitSingle(a: string)
    requires '\n' !in a
    ensures SplitLines(a) == [a]
  {
    if a != [] {
      assert a[0] in a;
      SplitSingle(a[1..]);
      assert [a[0]] + a[1..] == a;
    }
  }

  lemma {:induction false} SplitFirstLine(a: string, rest: string)
    requires '\n' !in a
    ensures SplitLines(a + "\n" + rest) == [a] + SplitLines(rest)
  {
    if a == [] {
      assert a + "\n" + rest == "\n" + rest;
      assert ("\n" + rest)[1..] == rest;
    } else {
      assert a[0] in a;
      assert (a + "\n" + rest)[0] == a[0];
      assert (a + "\n" + rest)[1..] == a[1..] + "\n" + rest;
      SplitFirstLine(a[1..], rest);
      assert [a[0]] + a[1..] == a;
    }
  }

  /** Splitting undoes joining when no line holds a newline. */
  lemma {:induction false} SplitJoin(lines: seq<string>)
    requires |lines| > 0 && NoNewline(lines)
    ensures SplitLines(JoinLines(lines)) == lines
  {
    if |lines| == 1 {
      SplitSingle(lines[0]);
    } else {
      SplitFirstLine(lines[0], JoinLines(lines[1..]));
      SplitJoin(lines[1..]);
    }
  }

  lemma {:induction false} JoinAppend(a: seq<string>, b: seq<string>)
    requires |a| > 0 && |b| > 0
    ensures JoinLines(a + b) == JoinLines(a) + "\n" + JoinLines(b)
  {
    if |a| == 1 {
      assert (a + b)[1..] == b;
    } else {
      assert (a + b)[1..] == a[1..] + b;
      JoinAppend(a[1..], b);
    }
  }

  // ---------------------------------------------------------------------------
  // Truncation, trimming, lower-casing

  /** Python's `s[:n]`. */
  function Take(s: string, n: nat): (r: string)
    ensures |r| == if |s| <= n then |s| else n
    ensures r == s[..|r|]
    ensures |s| <= n ==> r == s
  {
    if |s| <= n then s else s[..n]
  }

  /** Number of leading characters that `trim` removes. */
  function LeadingSpace(s: string): (k: nat)
    ensures k <= |s|
    ensures forall i :: 0 <= i < k ==> IsJsSpace(s[i])
    ensures k < |s| ==> !IsJsSpace(s[k])
  {
    if s == [] || !IsJsSpace(s[0]) then 0 else 1 + LeadingSpace(s[1..])
  }

  /** Number of trailing characters that `trim` removes. */
  function TrailingSpace(s: string): (k: nat)
    ensures k <= |s|
    ensures forall i :: |s| - k <= i < |s| ==> IsJsSpace(s[i])
    ensures k < |s| ==> !IsJsSpace(s[|s| - 1 - k])
  {
    if s == [] || !IsJsSpace(s[|s| - 1]) then 0 else 1 + TrailingSpace(s[..|s| - 1])
  }

  /** JavaScript's `s.trim()`. */
  function Trim(s: string): string {
    var a := LeadingSpace(s);
    s[a..][..|s[a..]| - TrailingSpace(s[a..])]
  }

  /** A text with no white space at either end is its own trim. */
  lemma TrimUnpadded(s: string)
    requires |s| > 0 && !IsJsSpace(s[0]) && !IsJsSpace(s[|s| - 1])
    ensures Trim(s) == s
  {
    assert LeadingSpace(s) == 0;
    assert s[0..] == s;
    assert TrailingSpace(s) == 0;
  }

  /** A word found inside a slice is found in the whole text. */
  lemma ContainsInSlice(s: string, a: nat, b: nat, w: string)
    requires a <= b <= |s| && Contains(s[a..b], w)
    ensures Contains(s, w)
  {
    var t := s[a..b];
    var i: nat :| i <= |t| && OccursAt(t, w, i);
    SliceOfSlice(s, a, b, i, i + |w|);
    assert OccursAt(s, w, a + i);
  }

  /** An occurrence lying inside a slice is an occurrence in the slice. */
  lemma OccursInSlice(s: string, a: nat, b: nat, w: string, i: nat)
    requires a <= i && i + |w| <= b <= |s| && OccursAt(s, w, i)
    ensures Contains(s[a..b], w)
  {
    SliceOfSlice(s, a, b, i - a, i - a + |w|);
    assert OccursAt(s[a..b], w, i - a);
  }

  /** Dropping white space from both ends never hides a word that neither
      starts nor ends with white space. */
  lemma PaddingKeepsWords(s: string, a: nat, e: nat, w: string)
    requires a <= e <= |s|
    requires forall i :: 0 <= i < a ==> IsJsSpace(s[i])
    requires forall i :: e <= i < |s| ==> IsJsSpace(s[i])
    requires |w| > 0 && !IsJsSpace(w[0]) && !IsJsSpace(w[|w| - 1])
    ensures Contains(s[a..e], w) <==> Contains(s, w)
  {
    if Contains(s[a..e], w) {
      ContainsInSlice(s, a, e, w);
    }
    if Contains(s, w) {
      var i: nat :| i <= |s| && OccursAt(s, w, i);
      assert s[i] == s[i..i + |w|][0];
      assert a <= i;
      var last := i + |w| - 1;
      assert s[last] == s[i..i + |w|][|w| - 1];
      assert last < e;
      OccursInSlice(s, a, e, w, i);
    }
  }

  /** Where `trim` cuts: `Trim(s) == s[TrimStart(s)..TrimEnd(s)]`. */
  function TrimStart(s: string): nat {
    LeadingSpace(s)
  }

  function TrimEnd(s: string): (e: nat)
    ensures TrimStart(s) <= e <= |s|
  {
    LeadingSpace(s) + |s[LeadingSpace(s)..]| - TrailingSpace(s[LeadingSpace(s)..])
  }

  lemma TrimBounds(s: string)
    ensures Trim(s) == s[TrimStart(s)..TrimEnd(s)]
    ensures forall i :: 0 <= i < TrimStart(s) ==> IsJsSpace(s[i])
    ensures forall i :: TrimEnd(s) <= i < |s| ==> IsJsSpace(s[i])
  {
    var a := LeadingSpace(s);
    var u := s[a..];
    var e := a + |u| - TrailingSpace(u);
    assert TrimEnd(s) == e;
    assert u[..|u| - TrailingSpace(u)] == s[a..e];
    forall i | e <= i < |s| ensures IsJsSpace(s[i]) {
      assert s[i] == u[i - a];
    }
  }

  /** ASCII lower-casing of one character. */
  function LowerChar(c: char): char {
    if 'A' <= c <= 'Z' then (c as int + 32) as char else c
  }

  /** Lower-casing (`toLowerCase()`, `str.lower()`), ASCII letters only. */
  function Lower(s: string): (r: string)
    ensures |r| == |s|
    ensures forall i :: 0 <= i < |s| ==> r[i] == LowerChar(s[i])
  {
    if s == [] then [] else [LowerChar(s[0])] + Lower(s[1..])
  }

  /** Lower-casing twice is lower-casing once. */
  lemma LowerIdempotent(s: string)
    ensures Lower(Lower(s)) == Lower(s)
  {
    var l := Lower(s);
    forall i | 0 <= i < |s| ensures Lower(l)[i] == l[i] {
      assert l[i] == LowerChar(s[i]);
    }
  }

  /** A text without ASCII capitals is its own lower-case form. */
  lemma LowerUnchanged(s: string)
    requires forall i :: 0 <= i < |s| ==> !('A' <= s[i] <= 'Z')
    ensures Lower(s) == s
  {
  }

  lemma LowerSlice(s: string, a: nat, e: nat)
    requires a <= e <= |s|
    ensures Lower(s[a..e]) == Lower(s)[a..e]
  {
    var x, y := Lower(s[a..e]), Lower(s)[a..e];
    forall i | 0 <= i < e - a ensures x[i] == y[i] {
      assert x[i] == LowerChar(s[a..e][i]);
      assert s[a..e][i] == s[a + i];
    }
    assert |x| == |y|;
  }
}
