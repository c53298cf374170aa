/** The text-scraping helpers of greathost.js: whether the server looks
    offline, the hour count read from `#accumulated-time`, the server id taken
    from the page URL, and the start flag reported in the status lines. */
module Scrape {
  import opened Optional
  import opened Text

  // ---------------------------------------------------------------------------
  // Offline detection (greathost.js:53-57)

  /** `(textContent() or 'unknown').trim().toLowerCase()` */
  function StatusWords(statusText: Option<string>): string {
    Lower(Trim(statusText.GetOr("unknown")))
  }

  /** A start is attempted only when the status words contain one of these.
      An unreadable label reads "unknown", which never triggers a start. */
  function IsOffline(statusText: Option<string>): (b: bool)
    ensures statusText.None? ==> !b
  {
    var w := StatusWords(statusText);
    var b := Contains(w, "offline") || Contains(w, "stopped") || Contains(w, "离线");
    if statusText.None? then
      UnknownWords();
      UnknownHasNoMarker(w);
      b
    else b
  }

  /** The status words are a slice of the lower-cased text, with only white
      space outside the slice. */
  lemma StatusWordsSlice(s: string)
    ensures TrimStart(s) <= TrimEnd(s) <= |s|
    ensures StatusWords(Some(s)) == Lower(s)[TrimStart(s)..TrimEnd(s)]
    ensures forall i :: 0 <= i < TrimStart(s) ==> IsJsSpace(Lower(s)[i])
    ensures forall i :: TrimEnd(s) <= i < |s| ==> IsJsSpace(Lower(s)[i])
  {
    TrimBounds(s);
    var a, e := TrimStart(s), TrimEnd(s);
    LowerSlice(s, a, e);
    var l := Lower(s);
    forall i | 0 <= i < a ensures IsJsSpace(l[i]) {
      LowerKeepsSpace(s[i]);
    }
    forall i | e <= i < |s| ensures IsJsSpace(l[i]) {
      LowerKeepsSpace(s[i]);
    }
  }

  lemma LowerKeepsSpace(c: char)
    requires IsJsSpace(c)
    ensures LowerChar(c) == c
  {
  }

  /** Surrounding white space and ASCII case never change the decision. */
  lemma OfflineIgnoresPaddingAndCase(s: string)
    ensures IsOffline(Some(s)) <==>
              Contains(Lower(s), "offline") || Contains(Lower(s), "stopped") || Contains(Lower(s), "离线")
  {
    StatusWordsSlice(s);
    var l, a, e := Lower(s), TrimStart(s), TrimEnd(s);
    WordKept(l, a, e, "offline");
    WordKept(l, a, e, "stopped");
    WordKept(l, a, e, "离线");
  }

  lemma WordKept(l: string, a: nat, e: nat, w: string)
    requires a <= e <= |l|
    requires forall i :: 0 <= i < a ==> IsJsSpace(l[i])
    requires forall i :: e <= i < |l| ==> IsJsSpace(l[i])
    requires w in {"offline", "stopped", "离线"}
    ensures Contains(l[a..e], w) <==> Contains(l, w)
  {
    PaddingKeepsWords(l, a, e, w);
  }

  /** The placeholder `unknown` contains none of the three markers. */
  lemma UnknownHasNoMarker(w: string)
    requires w == "unknown"
    ensures !Contains(w, "offline") && !Contains(w, "stopped") && !Contains(w, "离线")
  {
    assert w == ['u', 'n', 'k', 'n', 'o', 'w', 'n'];
    NoMarker(w);
  }

  /** Seven characters that do not start with `o` and hold neither `s` nor
      `离` contain none of the three markers. */
  lemma NoMarker(w: string)
    requires |w| == 7 && w[0] != 'o' && 's' !in w && '离' !in w
    ensures !Contains(w, "offline") && !Contains(w, "stopped") && !Contains(w, "离线")
  {
    ContainsSameLength(w, "offline");
    MissingFirstChar(w, "stopped");
    MissingFirstChar(w, "离线");
  }

  /** The status words of an unreadable label. */
  lemma UnknownWords()
    ensures StatusWords(None) == "unknown"
  {
    TrimUnpadded("unknown");
    LowerUnchanged("unknown");
  }

  // ---------------------------------------------------------------------------
  // Hour parsing (greathost.js:123 and 172)

  /** `parseInt(text.replace(/[^0-9]/g, '')) || 0` */
  function ParseHours(text: string): (h: nat)
    ensures (forall i :: 0 <= i < |text| ==> !IsDigit(text[i])) ==> h == 0
  {
    var d := Digits(text);
    if d == [] then 0 else DecimalValue(d)
  }

  /** The hours the panel shows, `<n> hours`, read back as `n`; text around the
      number that holds no digit does not matter. */
  lemma ParseRenderedHours(before: string, n: nat, after: string)
    requires forall i :: 0 <= i < |before| ==> !IsDigit(before[i])
    requires forall i :: 0 <= i < |after| ==> !IsDigit(after[i])
    ensures ParseHours(before + NatToDecimal(n) + after) == n
  {
    var d := NatToDecimal(n);
    DigitsConcat(before + d, after);
    DigitsConcat(before, d);
    assert Digits(before + d + after) == d;
    DecimalRoundTrip(n);
  }

  /** Only the digits matter: digits scattered among other characters are read
      as one number, as the deletion of every non-digit makes them. */
  lemma ParseHoursReadsDigitsOnly(text: string)
    ensures ParseHours(text) == ParseHours(Digits(text))
  {
  }

  // ---------------------------------------------------------------------------
  // Server id (greathost.js:111)

  /** The index of the last `/`. */
  function LastSlash(s: string): (r: Option<nat>)
    ensures r.Some? ==> r.value < |s| && s[r.value] == '/'
    ensures r.Some? ==> forall j :: r.value < j < |s| ==> s[j] != '/'
    ensures r.None? ==> '/' !in s
  {
    if s == [] then None
    else if s[|s| - 1] == '/' then Some(|s| - 1)
    else LastSlash(s[..|s| - 1])
  }

  /** `url.split('/').pop()`: what follows the last `/`, or all of it when there is none. */
  function LastSegment(url: string): (seg: string)
    ensures '/' !in seg
    ensures |seg| <= |url| && url[|url| - |seg|..] == seg
    ensures |seg| < |url| ==> url[|url| - |seg| - 1] == '/'
  {
    match LastSlash(url)
    case None => url
    case Some(i) => url[i + 1..]
  }

  /** `url.split('/').pop() || 'unknown'` */
  function ServerId(url: string): (id: string)
    ensures id != "" && '/' !in id
    ensures LastSegment(url) != "" ==> id == LastSegment(url)
    ensures LastSegment(url) == "" ==> id == "unknown"
  {
    var seg := LastSegment(url);
    if seg == "" then "unknown" else seg
  }

  /** The id of a details page is its last path segment. */
  lemma ServerIdOfDetailsPage(base: string, id: string)
    requires id != "" && '/' !in id
    ensures ServerId(base + "/" + id) == id
  {
    var u := base + "/" + id;
    assert u[|base|] == '/';
    assert forall j :: |base| < j < |u| ==> u[j] == id[j - |base| - 1];
    assert LastSlash(u) == Some(|base|);
    assert u[|base| + 1..] == id;
  }

  /** A URL that ends with `/` gives the id "unknown". */
  lemma TrailingSlashIsUnknown(url: string)
    requires |url| > 0 && url[|url| - 1] == '/'
    ensures ServerId(url) == "unknown"
  {
  }

  // ---------------------------------------------------------------------------
  // Status value in the notices (greathost.js:141, 180, 188, 198)

  const StartedMark: string := "已触发启动"

  /** `serverStarted ? '✅ 已触发启动' : idle` */
  function StartedText(started: bool, idle: string): (t: string)
    ensures started ==> Contains(t, StartedMark)
    ensures !started ==> t == idle
  {
    if started then
      var t := "✅ " + StartedMark;
      assert t[2..2 + |StartedMark|] == StartedMark;
      assert OccursAt(t, StartedMark, 2);
      t
    else idle
  }
}
