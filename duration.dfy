/** Remaining whole hours until a renewal date (`calculate_hours`, greathost.py).

    The timestamp text is first normalised by three rewrites (drop fractional
    seconds before a final `Z`, `/` to `-`, space form to `T` form with `Z`),
    then `Z` is read as `+00:00` and the text is handed to an ISO-8601 reader.
    That reader (`datetime.fromisoformat`) is a parameter of the model; it
    yields an instant in microseconds since the epoch and whether the text
    carried a UTC offset. Any failure gives 0. */
module Duration {
  import opened Optional
  import opened Text

  const MicrosPerHour: int := 3_600_000_000

  /** What the ISO-8601 reader yields for a text it accepts. */
  datatype Instant = Instant(micros: int, hasOffset: bool)

  /** The ISO-8601 reader: `None` for a text it rejects. */
  type IsoReader = string -> Option<Instant>

  // ---------------------------------------------------------------------------
  // `re.sub(r'\.\d+Z$', 'Z', s)`

  /** Length of the run of digits that ends `s`. */
  function TrailingDigits(s: string): (k: nat)
    ensures k <= |s|
    ensures forall i :: |s| - k <= i < |s| ==> IsDigit(s[i])
    ensures k < |s| ==> !IsDigit(s[|s| - 1 - k])
  {
    if s == [] || !IsDigit(s[|s| - 1]) then 0 else 1 + TrailingDigits(s[..|s| - 1])
  }

  /** Where `\.\d+` starts when it ends `body`, if it does. */
  function FractionStart(body: string): (r: Option<nat>)
    ensures r.Some? ==> r.value < |body| && body[r.value] == '.' && r.value + 1 < |body|
    ensures r.Some? ==> forall i :: r.value < i < |body| ==> IsDigit(body[i])
  {
    var k := TrailingDigits(body);
    if 0 < k < |body| && body[|body| - 1 - k] == '.' then Some(|body| - 1 - k) else None
  }

  /** The converse of `FractionStart`'s contract: whenever a `.` followed
      only by one or more digits ends `body`, that `.` is the one found. */
  lemma FractionStartComplete(body: string, j: nat)
    requires j + 1 < |body| && body[j] == '.'
    requires forall i :: j < i < |body| ==> IsDigit(body[i])
    ensures FractionStart(body) == Some(j)
  {
    assert !IsDigit(body[j]);
  }

  /** The regex substitution. `$` matches at the very end and also just
      before a final newline, so both `….5Z` and `….5Z\n` lose the fraction. */
  function StripFraction(s: string): (r: string)
    ensures !FractionBeforeZ(s) && !FractionBeforeZNewline(s) ==> r == s
    ensures FractionBeforeZ(s) ==> DropsFraction(s, r, 1)
    ensures !FractionBeforeZ(s) && FractionBeforeZNewline(s) ==> DropsFraction(s, r, 2)
  {
    if FractionBeforeZ(s) then CutDrops(s, 1); CutFraction(s, 1)
    else if FractionBeforeZNewline(s) then CutDrops(s, 2); CutFraction(s, 2)
    else s
  }

  /** `r` is `s` without a `.` and one or more digits standing right before
      its last `n` characters, which both keep. */
  predicate DropsFraction(s: string, r: string, n: nat) {
    && n <= |r| && |r| + 2 <= |s|
    && r[..|r| - n] == s[..|r| - n] && r[|r| - n..] == s[|s| - n..]
    && s[|r| - n] == '.' && AllDigits(s[|r| - n + 1..|s| - n])
  }

  lemma CutDrops(s: string, n: nat)
    requires n <= |s| && FractionStart(s[..|s| - n]).Some?
    ensures DropsFraction(s, CutFraction(s, n), n)
  {
    var body := s[..|s| - n];
    var f := FractionStart(body).value;
    var r := CutFraction(s, n);
    assert r[..f] == s[..f];
    assert r[f..] == s[|s| - n..];
    assert s[f + 1..|s| - n] == body[f + 1..];
  }

  /** `\.\d+Z` ends the text. */
  predicate FractionBeforeZ(s: string) {
    |s| >= 1 && s[|s| - 1] == 'Z' && FractionStart(s[..|s| - 1]).Some?
  }

  /** `\.\d+Z` is followed only by a final newline. */
  predicate FractionBeforeZNewline(s: string) {
    |s| >= 2 && s[|s| - 2] == 'Z' && s[|s| - 1] == '\n' && FractionStart(s[..|s| - 2]).Some?
  }

  /** `s` without the fraction that ends its first `|s| - n` characters. */
  function CutFraction(s: string, n: nat): string
    requires n <= |s| && FractionStart(s[..|s| - n]).Some?
  {
    s[..FractionStart(s[..|s| - n]).value] + s[|s| - n..]
  }

  /** `clean_date` after lines 39-41: fraction stripped, `/` made `-`, and a
      space-separated form without `T` rewritten to `T` form with `Z` added. */
  function CleanDate(s: string): (r: string)
    ensures '/' !in r
    // a text with a space and no `T` becomes the `T` form, ending in `Z`
    ensures var c := Dashed(StripFraction(s));
            'T' !in c && ' ' in c ==> |r| == |c| + 1 && ' ' !in r && 'T' in r && r[|c|] == 'Z'
    // each space becomes `T` and every other character is kept
    ensures var c := Dashed(StripFraction(s));
            'T' !in c && ' ' in c ==> r == ReplaceChar(c, ' ', 'T') + "Z"
    ensures var c := Dashed(StripFraction(s));
            'T' in c || ' ' !in c ==> r == c
  {
    var c := Dashed(StripFraction(s));
    if 'T' !in c && ' ' in c then
      var t := ReplaceChar(c, ' ', 'T');
      ReplaceCharAbsent(c, ' ', 'T', '/');
      var i :| 0 <= i < |c| && c[i] == ' ';
      ReplaceCharIndex(c, ' ', 'T', i);
      assert t[i] == (t + "Z")[i];
      t + "Z"
    else c
  }

  /** The text given to `fromisoformat`: every `Z` read as `+00:00`. */
  function IsoText(s: string): (r: string)
    ensures '/' !in r && 'Z' !in r
  {
    ReplaceWith(CleanDate(s), 'Z', "+00:00")
  }

  // ---------------------------------------------------------------------------
  // Hours

  /** `max(0, int(delta / 3600 s))`: truncation toward zero, then the clamp. */
  function WholeHours(delta: int): (h: nat)
    ensures delta <= 0 ==> h == 0
    ensures delta > 0 ==> h * MicrosPerHour <= delta < (h + 1) * MicrosPerHour
  {
    if delta <= 0 then 0 else delta / MicrosPerHour
  }

  /** `calculate_hours(raw)` at instant `now` (microseconds since the epoch). */
  function CalculateHours(raw: Option<string>, read: IsoReader, now: int): (h: nat)
    ensures raw == None || raw == Some("") ==> h == 0
    ensures raw.Some? && raw.value != "" && read(IsoText(raw.value)).None? ==> h == 0
    ensures raw.Some? && raw.value != "" && read(IsoText(raw.value)).Some? ==>
              var t := read(IsoText(raw.value)).value;
              && (!t.hasOffset ==> h == 0)
              && (t.hasOffset && t.micros <= now ==> h == 0)
              && (t.hasOffset && t.micros > now ==>
                    h * MicrosPerHour <= t.micros - now < (h + 1) * MicrosPerHour)
  {
    if raw.None? || raw.value == "" then 0
    else
      match read(IsoText(raw.value))
      case None => 0
      // a naive datetime cannot be subtracted from an aware one: TypeError, caught
      case Some(t) => if !t.hasOffset then 0 else WholeHours(t.micros - now)
  }

  // ---------------------------------------------------------------------------
  // Properties of the normalisation

  predicate AllDigits(d: string) {
    forall i :: 0 <= i < |d| ==> IsDigit(d[i])
  }

  lemma TrailingDigitsOfFraction(p: string, d: string)
    requires |d| > 0 && AllDigits(d)
    ensures TrailingDigits(p + "." + d) == |d|
  {
    var s := p + "." + d;
    assert s[|s| - 1 - |d|] == '.';
    assert forall i :: |s| - |d| <= i < |s| ==> s[i] == d[i - (|s| - |d|)];
  }

  /** `….<digits>Z` loses its fraction. */
  lemma StripDropsFraction(p: string, d: string)
    requires |d| > 0 && AllDigits(d)
    ensures StripFraction(p + "." + d + "Z") == p + "Z"
  {
    var s := p + "." + d + "Z";
    assert s[..|s| - 1] == p + "." + d;
    TrailingDigitsOfFraction(p, d);
    assert FractionStart(p + "." + d) == Some(|p|);
    assert s[..|p|] == p;
    assert s[|s| - 1..] == "Z";
  }

  /** Fractional seconds before a final `Z` do not change the normalised text,
      nor therefore the hour count: `…:SS.<digits>Z` reads as `…:SSZ`. */
  lemma FractionIgnored(p: string, d: string, read: IsoReader, now: int)
    requires |d| > 0 && AllDigits(d)
    requires FractionStart(p).None?
    ensures IsoText(p + "." + d + "Z") == IsoText(p + "Z")
    ensures CalculateHours(Some(p + "." + d + "Z"), read, now) == CalculateHours(Some(p + "Z"), read, now)
  {
    FractionIgnoredText(p, d);
  }

  lemma FractionIgnoredText(p: string, d: string)
    requires |d| > 0 && AllDigits(d)
    requires FractionStart(p).None?
    ensures IsoText(p + "." + d + "Z") == IsoText(p + "Z")
  {
    StripDropsFraction(p, d);
    KeptBeforeZ(p);
  }

  lemma KeptBeforeZ(p: string)
    requires FractionStart(p).None?
    ensures StripFraction(p + "Z") == p + "Z"
  {
    var s := p + "Z";
    assert s[..|s| - 1] == p;
    assert s[|s| - 1] == 'Z';
  }

  /** The seconds field of `…:SS` is not a fraction, so the lemma above applies
      to every `…:SS.<digits>Z` timestamp. */
  lemma SecondsAreNotAFraction(q: string, ss: string)
    requires |ss| > 0 && AllDigits(ss)
    ensures FractionStart(q + ":" + ss).None?
  {
    var s := q + ":" + ss;
    assert s[|s| - 1 - |ss|] == ':';
    assert forall i :: |s| - |ss| <= i < |s| ==> s[i] == ss[i - (|s| - |ss|)];
    assert TrailingDigits(s) == |ss|;
  }

  // ---------------------------------------------------------------------------
  // `/` and the space-separated form

  /** A text made only of characters the normalisation leaves alone. */
  predicate Plain(s: string) {
    ' ' !in s && 'T' !in s && 'Z' !in s && '/' !in s && '\n' !in s
  }

  lemma ReplaceAbsent(s: string, a: char, b: char)
    requires a !in s
    ensures ReplaceChar(s, a, b) == s
  {
  }

  lemma NoFractionWithoutDot(s: string)
    requires '.' !in s
    ensures FractionStart(s).None?
  {
  }

  function Dashed(s: string): string {
    ReplaceChar(s, '/', '-')
  }

  lemma {:induction false} TrailingDigitsDashed(x: string)
    ensures TrailingDigits(Dashed(x)) == TrailingDigits(x)
  {
    if x != [] {
      ReplaceCharPrefix(x, |x| - 1, '/', '-');
      ReplaceCharIndex(x, '/', '-', |x| - 1);
      TrailingDigitsDashed(x[..|x| - 1]);
    }
  }

  lemma FractionStartDashed(x: string)
    ensures FractionStart(Dashed(x)) == FractionStart(x)
  {
    TrailingDigitsDashed(x);
    var k := TrailingDigits(x);
    if 0 < k < |x| {
      ReplaceCharIndex(x, '/', '-', |x| - 1 - k);
    }
    SameFraction(x, Dashed(x));
  }

  /** Texts with the same run of final digits and the same character before
      it have the same fraction. */
  lemma SameFraction(x: string, y: string)
    requires |x| == |y| && TrailingDigits(x) == TrailingDigits(y)
    requires 0 < TrailingDigits(x) < |x| ==>
               (x[|x| - 1 - TrailingDigits(x)] == '.' <==> y[|x| - 1 - TrailingDigits(x)] == '.')
    ensures FractionStart(x) == FractionStart(y)
  {
  }

  lemma CutFractionDashed(s: string, n: nat)
    requires n <= |s| && FractionStart(s[..|s| - n]).Some?
    ensures FractionStart(Dashed(s)[..|s| - n]) == FractionStart(s[..|s| - n])
    ensures CutFraction(Dashed(s), n) == Dashed(CutFraction(s, n))
  {
    var m := |s| - n;
    ReplaceCharPrefix(s, m, '/', '-');
    FractionStartDashed(s[..m]);
    var f := FractionStart(s[..m]).value;
    ReplaceCharPrefix(s, f, '/', '-');
    ReplaceCharSuffix(s, m, '/', '-');
    ReplaceCharConcat(s[..f], s[m..], '/', '-');
    CutParts(Dashed(s), n, f);
    CutParts(s, n, f);
  }

  /** The cut as the text before the fraction and the last `n` characters. */
  lemma CutParts(s: string, n: nat, f: nat)
    requires n <= |s| && FractionStart(s[..|s| - n]) == Some(f)
    ensures CutFraction(s, n) == s[..f] + s[|s| - n..]
  {
  }

  /** The first rewrite's condition (a final `Z` after a fraction) ignores `/`. */
  lemma ZConditionDashed(s: string)
    ensures FractionBeforeZ(s) <==> FractionBeforeZ(Dashed(s))
  {
    if |s| >= 1 {
      var n := |s| - 1;
      ReplaceCharPrefix(s, n, '/', '-');
      FractionStartDashed(s[..n]);
      ReplaceCharIndex(s, '/', '-', n);
      SameLastZ(s, Dashed(s));
    }
  }

  /** The second rewrite's condition (a final `Z\n` after a fraction) ignores `/`. */
  lemma ZNewlineConditionDashed(s: string)
    ensures FractionBeforeZNewline(s) <==> FractionBeforeZNewline(Dashed(s))
  {
    if |s| >= 2 {
      var n := |s| - 2;
      ReplaceCharPrefix(s, n, '/', '-');
      FractionStartDashed(s[..n]);
      ReplaceCharIndex(s, '/', '-', n);
      ReplaceCharIndex(s, '/', '-', n + 1);
      SameLastZNewline(s, Dashed(s));
    }
  }

  /** Two texts of one length that agree on the fraction before their last
      character and on whether it is `Z` agree on the first condition. */
  lemma SameLastZ(s: string, r: string)
    requires |r| == |s| >= 1
    requires r[|s| - 1] == 'Z' <==> s[|s| - 1] == 'Z'
    requires FractionStart(r[..|s| - 1]) == FractionStart(s[..|s| - 1])
    ensures FractionBeforeZ(s) <==> FractionBeforeZ(r)
  {
  }

  /** The same for the last two characters and the second condition. */
  lemma SameLastZNewline(s: string, r: string)
    requires |r| == |s| >= 2
    requires r[|s| - 2] == 'Z' <==> s[|s| - 2] == 'Z'
    requires r[|s| - 1] == '\n' <==> s[|s| - 1] == '\n'
    requires FractionStart(r[..|s| - 2]) == FractionStart(s[..|s| - 2])
    ensures FractionBeforeZNewline(s) <==> FractionBeforeZNewline(r)
  {
  }

  /** Dropping the fraction and turning `/` into `-` can be done in either order. */
  lemma StripFractionDashed(s: string)
    ensures StripFraction(Dashed(s)) == Dashed(StripFraction(s))
  {
    ZConditionDashed(s);
    ZNewlineConditionDashed(s);
    if FractionBeforeZ(s) {
      StripDashedCut(s, 1);
    } else if FractionBeforeZNewline(s) {
      StripDashedCut(s, 2);
    }
  }

  lemma StripDashedCut(s: string, n: nat)
    requires n == 1 || n == 2
    requires n == 1 ==> FractionBeforeZ(s) && FractionBeforeZ(Dashed(s))
    requires n == 2 ==> !FractionBeforeZ(s) && !FractionBeforeZ(Dashed(s)) && FractionBeforeZNewline(s) && FractionBeforeZNewline(Dashed(s))
    ensures StripFraction(Dashed(s)) == Dashed(StripFraction(s))
  {
    CutFractionDashed(s, n);
    StripByCut(s, Dashed(s), n);
  }

  /** When `s` and `r` take the same branch of the substitution and their
      cuts correspond, so do their results. */
  lemma StripByCut(s: string, r: string, n: nat)
    requires n == 1 || n == 2
    requires n == 1 ==> FractionBeforeZ(s) && FractionBeforeZ(r)
    requires n == 2 ==> !FractionBeforeZ(s) && !FractionBeforeZ(r) && FractionBeforeZNewline(s) && FractionBeforeZNewline(r)
    requires CutFraction(r, n) == Dashed(CutFraction(s, n))
    ensures StripFraction(r) == Dashed(StripFraction(s))
  {
    assert StripFraction(r) == CutFraction(r, n);
    assert StripFraction(s) == CutFraction(s, n);
  }

  /** Every `/` of the text reads as `-`: writing `-` in the first place gives
      the same text to the ISO-8601 reader. */
  lemma SlashIsDash(s: string)
    ensures IsoText(s) == IsoText(Dashed(s))
  {
    StripFractionDashed(s);
    ReplaceCharIdempotent(StripFraction(s), '/', '-');
  }

  /** A text whose tail after the last separator holds no `Z` keeps its fraction. */
  lemma TailKept(d: string, sep: char, t: string)
    requires 'Z' !in t && sep != 'Z' && sep != '\n'
    ensures StripFraction(d + [sep] + t) == d + [sep] + t
  {
    var s := d + [sep] + t;
    assert |t| == 0 ==> s[|s| - 1] == sep;
    assert |t| >= 1 ==> s[|s| - 1] == t[|t| - 1];
    assert |t| == 1 ==> s[|s| - 2] == sep;
    assert |t| >= 2 ==> s[|s| - 2] == t[|t| - 2];
  }

  /** No fraction can end a text whose last `T` is followed by dot-free text. */
  lemma NoFractionAfterT(d: string, t: string)
    requires '.' !in t
    ensures FractionStart(d + "T" + t).None?
  {
    var x := d + "T" + t;
    var k := TrailingDigits(x);
    assert x[|d|] == 'T';
    assert !IsDigit(x[|d|]);
    assert k <= |t|;
    var j := |x| - 1 - k;
    assert j == |d| || x[j] == t[j - |d| - 1];
  }

  /** The space form becomes the `T` form with `Z` appended. */
  lemma SpaceFormCleaned(d: string, t: string)
    requires Plain(d) && Plain(t)
    ensures CleanDate(d + " " + t) == d + "T" + t + "Z"
  {
    var s := d + " " + t;
    TailKept(d, ' ', t);
    assert '/' !in s;
    ReplaceAbsent(s, '/', '-');
    var c := ReplaceChar(StripFraction(s), '/', '-');
    assert c == s;
    assert s[|d|] == ' ';
    assert 'T' !in s;
    ReplaceCharConcat(d + " ", t, ' ', 'T');
    ReplaceCharConcat(d, " ", ' ', 'T');
    ReplaceAbsent(d, ' ', 'T');
    ReplaceAbsent(t, ' ', 'T');
    assert ReplaceChar(" ", ' ', 'T') == "T";
    assert ReplaceChar(s, ' ', 'T') == d + "T" + t;
  }

  /** The `T` form with `Z` is already clean. */
  lemma TFormCleaned(d: string, t: string)
    requires Plain(d) && Plain(t) && '.' !in t
    ensures CleanDate(d + "T" + t + "Z") == d + "T" + t + "Z"
  {
    var u := d + "T" + t + "Z";
    assert u[..|u| - 1] == d + "T" + t;
    NoFractionAfterT(d, t);
    assert StripFraction(u) == u;
    ReplaceAbsent(u, '/', '-');
    assert u[|d|] == 'T';
  }

  /** A date and a time separated by a space read as the same date and time in
      `T` form with an explicit `Z`: the space form is taken as UTC. */
  lemma SpaceFormIsUtc(d: string, t: string)
    requires Plain(d) && Plain(t) && '.' !in t
    ensures IsoText(d + " " + t) == d + "T" + t + "+00:00"
    ensures IsoText(d + " " + t) == IsoText(d + "T" + t + "Z")
  {
    SpaceFormCleaned(d, t);
    TFormCleaned(d, t);
    ReplaceWithConcat(d + "T" + t, "Z", 'Z', "+00:00");
    assert 'Z' !in d + "T" + t;
    assert ReplaceWith("Z", 'Z', "+00:00") == "+00:00";
  }

  // ---------------------------------------------------------------------------
  // Properties of the hour count

  /** The count grows with the expiry: a later expiry never gives fewer hours. */
  lemma {:induction false} HoursMonotone(d1: int, d2: int)
    requires d1 <= d2
    ensures WholeHours(d1) <= WholeHours(d2)
  {
    if d1 > 0 {
      var h1, h2 := WholeHours(d1), WholeHours(d2);
      assert h1 * MicrosPerHour < (h2 + 1) * MicrosPerHour;
    }
  }
}
