/** The cooldown gate and the wait text reported while cooling down.

    greathost.py decides from the API flag `canRenew` and the renew button's
    visible text; the wait text is the capture of `Wait\s+([\d\w\s]+)`.
    greathost.js decides from the button's inner HTML alone; the wait text is
    the first run of digits (`/\d+/`). */
module Cooldown {
  import opened Optional
  import opened Text

  // ---------------------------------------------------------------------------
  // greathost.py

  /** `renewal_info.get('canRenew', True)`, as a truth value: `flag` is the
      truthiness of the field when present. */
  function CanRenew(flag: Option<bool>): bool {
    flag.GetOr(true)
  }

  /** `not can_renew or "Wait" in btn_text`. A missing `canRenew` field counts
      as renewable: then only the button decides, while an explicit refusal
      always means cooldown. */
  function PyInCooldown(flag: Option<bool>, buttonText: string): (b: bool)
    ensures flag == Some(false) ==> b
    ensures flag != Some(false) ==> (b <==> Contains(buttonText, "Wait"))
  {
    !CanRenew(flag) || Contains(buttonText, "Wait")
  }

  /** Python's `\s` on text: the characters `str.isspace` accepts. */
  predicate IsPySpace(c: char) {
    ('\t' <= c <= '\r') || ('\U{1C}' <= c <= '\U{1F}') || c == ' ' || c == '\U{85}' || c == '\U{A0}'
    || c == '\U{1680}' || ('\U{2000}' <= c <= '\U{200A}') || c == '\U{2028}' || c == '\U{2029}'
    || c == '\U{202F}' || c == '\U{205F}' || c == '\U{3000}'
  }

  /** Python's `\w`, ASCII part: letters, digits and `_`. */
  predicate IsWordChar(c: char) {
    ('a' <= c <= 'z') || ('A' <= c <= 'Z') || IsDigit(c) || c == '_'
  }

  /** The character class `[\d\w\s]`. */
  predicate InWaitClass(c: char) {
    IsWordChar(c) || IsPySpace(c)
  }

  /** Number of `\s` characters starting at `i`. */
  function SpaceRun(s: string, i: nat): (k: nat)
    requires i <= |s|
    ensures i + k <= |s|
    ensures forall j :: i <= j < i + k ==> IsPySpace(s[j])
    ensures i + k < |s| ==> !IsPySpace(s[i + k])
    decreases |s| - i
  {
    if i == |s| || !IsPySpace(s[i]) then 0 else 1 + SpaceRun(s, i + 1)
  }

  /** Number of `[\d\w\s]` characters starting at `i`. */
  function ClassRun(s: string, i: nat): (k: nat)
    requires i <= |s|
    ensures i + k <= |s|
    ensures forall j :: i <= j < i + k ==> InWaitClass(s[j])
    ensures i + k < |s| ==> !InWaitClass(s[i + k])
    decreases |s| - i
  {
    if i == |s| || !InWaitClass(s[i]) then 0 else 1 + ClassRun(s, i + 1)
  }

  /** Where the capture of `Wait\s+([\d\w\s]+)` starts when the pattern is tried
      at `i`, and how long it is. `\s+` first takes every white-space character;
      if no class character follows, it gives the last one back to the group. */
  function CaptureAt(s: string, i: nat): (r: Option<(nat, nat)>)
    requires i <= |s|
    ensures r.Some? ==> OccursAt(s, "Wait", i)
    ensures r.Some? ==> var (start, len) := r.value;
              && i + 4 < start && start + len <= |s| && len > 0
              && (forall j :: i + 4 <= j < start ==> IsPySpace(s[j]))
              && (forall j :: start <= j < start + len ==> InWaitClass(s[j]))
              && (start + len == |s| || !InWaitClass(s[start + len]))
    // `\s+` is greedy: the group starts after the whole white-space run, unless
    // it had to give back its last character to a one-character group
    ensures r.Some? ==> var (start, len) := r.value;
              !IsPySpace(s[start]) || len == 1
    ensures r.None? && OccursAt(s, "Wait", i) && i + 4 < |s| && IsPySpace(s[i + 4]) ==>
              i + 5 == |s| || !InWaitClass(s[i + 5])
  {
    if !OccursAt(s, "Wait", i) then None
    else
      var w := SpaceRun(s, i + 4);
      if w == 0 then None
      else
        var c := ClassRun(s, i + 4 + w);
        if c > 0 then Some((i + 4 + w, c))
        else if w >= 2 then Some((i + 4 + w - 1, 1))
        else None
  }

  /** `re.search`: the first position from `i` on where the pattern matches. */
  function SearchFrom(s: string, i: nat): (r: Option<nat>)
    requires i <= |s|
    ensures r.Some? ==> i <= r.value <= |s| && CaptureAt(s, r.value).Some?
    ensures r.Some? ==> forall j :: i <= j < r.value ==> CaptureAt(s, j).None?
    ensures r.None? ==> forall j :: i <= j <= |s| ==> CaptureAt(s, j).None?
    decreases |s| - i
  {
    if CaptureAt(s, i).Some? then Some(i)
    else if i == |s| then None
    else SearchFrom(s, i + 1)
  }

  /** `wait_time` in the cooldown branch (greathost.py:147-151). */
  function PyWaitText(buttonText: string): (r: string)
    ensures !Contains(buttonText, "Wait") ==> r == "冷却中"
    ensures Contains(buttonText, "Wait") && SearchFrom(buttonText, 0).None? ==> r == buttonText
    ensures Contains(buttonText, "Wait") && SearchFrom(buttonText, 0).Some? ==>
              Contains(buttonText, r) && |r| > 0 && forall j :: 0 <= j < |r| ==> InWaitClass(r[j])
    // the reported text is the group of the first match
    ensures Contains(buttonText, "Wait") && SearchFrom(buttonText, 0).Some? ==>
              r == GroupAt(buttonText, SearchFrom(buttonText, 0).value)
  {
    if !Contains(buttonText, "Wait") then "冷却中"
    else match SearchFrom(buttonText, 0)
      case None => buttonText
      case Some(i) => GroupAt(buttonText, i)
  }

  /** The captured group of the match at `i`: `s[start..start + len]`. */
  function GroupAt(s: string, i: nat): (r: string)
    requires i <= |s| && CaptureAt(s, i).Some?
    ensures |r| > 0 && Contains(s, r)
    ensures forall j :: 0 <= j < |r| ==> InWaitClass(r[j])
    ensures var (start, len) := CaptureAt(s, i).value; start + len <= |s| && r == s[start..start + len]
  {
    var (start, len) := CaptureAt(s, i).value;
    var r := s[start..start + len];
    ContainsAt(s, r, start);
    r
  }

  /** "Wait", any non-empty run of white space and a countdown made of class
      characters reports the countdown: `Wait 12h 15m` and `Wait\t\t12h 15m`
      both report `12h 15m`. */
  lemma WaitCapturesCountdown(gap: string, x: string)
    requires |gap| > 0 && forall j :: 0 <= j < |gap| ==> IsPySpace(gap[j])
    requires |x| > 0 && !IsPySpace(x[0])
    requires forall j :: 0 <= j < |x| ==> InWaitClass(x[j])
    ensures PyWaitText("Wait" + gap + x) == x
  {
    var s := "Wait" + gap + x;
    var g := 4 + |gap|;
    assert s[0..4] == "Wait";
    assert OccursAt(s, "Wait", 0);
    assert forall j :: 4 <= j < g ==> s[j] == gap[j - 4];
    assert forall j :: g <= j < |s| ==> s[j] == x[j - g];
    SpaceRunIs(s, 4, |gap|);
    assert ClassRun(s, g) == |x|;
    assert SearchFrom(s, 0) == Some(0);
    assert s[g..g + |x|] == x;
  }

  /** A white-space run that ends the text or a non-space is what `SpaceRun` measures. */
  lemma {:induction false} SpaceRunIs(s: string, i: nat, n: nat)
    requires i + n <= |s| && forall j :: i <= j < i + n ==> IsPySpace(s[j])
    requires i + n == |s| || !IsPySpace(s[i + n])
    ensures SpaceRun(s, i) == n
    decreases n
  {
    if n > 0 {
      SpaceRunIs(s, i + 1, n - 1);
    }
  }

  /** When no "Wait" in the text is followed by white space, the regex fails
      and the raw button text is reported verbatim. */
  lemma UnmatchedWaitKeepsText(b: string)
    requires Contains(b, "Wait")
    requires forall j: nat :: OccursAt(b, "Wait", j) ==> j + 4 == |b| || !IsPySpace(b[j + 4])
    ensures PyWaitText(b) == b
  {
  }

  // ---------------------------------------------------------------------------
  // greathost.js

  /** `btnContent.includes('Wait')`: the JavaScript variant reads no API flag,
      and decides as greathost.py does when `canRenew` is absent. */
  function JsInCooldown(buttonHtml: string): (b: bool)
    ensures b <==> PyInCooldown(None, buttonHtml)
  {
    Contains(buttonHtml, "Wait")
  }

  /** The first index at or after `i` holding a digit. */
  function FirstDigit(s: string, i: nat): (r: Option<nat>)
    requires i <= |s|
    ensures r.Some? ==> i <= r.value < |s| && IsDigit(s[r.value])
    ensures r.Some? ==> forall j :: i <= j < r.value ==> !IsDigit(s[j])
    ensures r.None? ==> forall j :: i <= j < |s| ==> !IsDigit(s[j])
    decreases |s| - i
  {
    if i == |s| then None
    else if IsDigit(s[i]) then Some(i)
    else FirstDigit(s, i + 1)
  }

  /** Number of digits starting at `i`. */
  function DigitRun(s: string, i: nat): (k: nat)
    requires i <= |s|
    ensures i + k <= |s|
    ensures forall j :: i <= j < i + k ==> IsDigit(s[j])
    ensures i + k < |s| ==> !IsDigit(s[i + k])
    decreases |s| - i
  {
    if i == |s| || !IsDigit(s[i]) then 0 else 1 + DigitRun(s, i + 1)
  }

  /** `r` is the first maximal run of digits of `html`, and it starts at `i`. */
  ghost predicate FirstRunAt(html: string, r: string, i: nat) {
    && i + |r| <= |html| && html[i..i + |r|] == r
    && (forall j :: 0 <= j < i ==> !IsDigit(html[j]))
    && (i + |r| == |html| || !IsDigit(html[i + |r|]))
  }

  /** `btnContent.match(/\d+/)?.[0] || "??"`: the first maximal run of digits. */
  function JsWaitTime(html: string): (r: string)
    ensures r == "??" <==> forall j :: 0 <= j < |html| ==> !IsDigit(html[j])
    ensures r != "??" ==> |r| > 0 && forall j :: 0 <= j < |r| ==> IsDigit(r[j])
    ensures r != "??" ==> exists i: nat :: FirstRunAt(html, r, i)
  {
    match FirstDigit(html, 0)
    case None => "??"
    case Some(i) =>
      var r := html[i..i + DigitRun(html, i)];
      assert r[0] == html[i];
      assert r != "??" by { assert IsDigit(r[0]); }
      assert FirstRunAt(html, r, i);
      r
  }

  /** The countdown the panel shows, `Wait <n> min`, reports `<n>`. */
  lemma JsWaitTimeOfCountdown(n: nat, unit: string)
    requires |unit| == 0 || !IsDigit(unit[0])
    ensures JsWaitTime("Wait " + NatToDecimal(n) + unit) == NatToDecimal(n)
  {
    var d := NatToDecimal(n);
    var s := "Wait " + d + unit;
    assert forall j :: 0 <= j < 5 ==> s[j] == "Wait "[j];
    assert forall j :: 5 <= j < 5 + |d| ==> s[j] == d[j - 5];
    assert FirstDigit(s, 0) == Some(5) by {
      assert IsDigit(s[5]);
    }
    assert DigitRun(s, 5) == |d| by {
      assert 5 + |d| < |s| ==> s[5 + |d|] == unit[0];
    }
    assert s[5..5 + |d|] == d;
  }

  lemma {:induction false} FirstDigitPrefix(s: string, t: string, i: nat)
    requires i <= |s| && FirstDigit(s, i).Some?
    ensures FirstDigit(s + t, i) == FirstDigit(s, i)
    decreases |s| - i
  {
    assert (s + t)[i] == s[i];
    if !IsDigit(s[i]) {
      FirstDigitPrefix(s, t, i + 1);
    }
  }

  lemma {:induction false} DigitRunPrefix(s: string, t: string, i: nat)
    requires i <= |s| && i + DigitRun(s, i) < |s|
    ensures DigitRun(s + t, i) == DigitRun(s, i)
    decreases |s| - i
  {
    assert (s + t)[i] == s[i];
    if IsDigit(s[i]) {
      DigitRunPrefix(s, t, i + 1);
    }
  }

  /** Digits anywhere in the button's markup before the countdown are the ones
      reported: the wait time is read from the HTML, not from the visible text. */
  lemma JsWaitTimeTakesEarlierDigits(markup: string, rest: string)
    requires exists j :: 0 <= j < |markup| && IsDigit(markup[j])
    requires !IsDigit(markup[|markup| - 1])
    ensures JsWaitTime(markup + rest) == JsWaitTime(markup)
  {
    var s := markup + rest;
    FirstDigitPrefix(markup, rest, 0);
    var i := FirstDigit(markup, 0).value;
    DigitRunPrefix(markup, rest, i);
    assert s[i..i + DigitRun(s, i)] == markup[i..i + DigitRun(markup, i)];
  }
}
