# GreatHost free-server renewal: a Dafny model

The repository renews a free game server on the GreatHost panel with two
independent scripts. `greathost.py` logs in through a browser, then reads the
panel's JSON API. It locks onto one server, reads its status and contract, and
checks for a cooldown. It then posts the free renewal and sends one Telegram
notice. `greathost.js` does the same job through the web pages alone. It first
starts the server when the page shows it offline. It then reads the hour
counter, clicks the renew button and compares the counter before and after.

This project models the decisions both scripts take and the texts they send:

- **`Duration`** (`duration.dfy`): the hours left until a renewal date
  (`calculate_hours`). This covers the three rewrites of the timestamp text,
  `Z` read as `+00:00`, the hour count truncated and clamped at 0, and every
  failure mapped to 0. The ISO-8601 reader is a parameter.
- **`Selection`** (`selection.dfy`): which server is locked, and the text of
  the exception when none is.
- **`Cooldown`** (`cooldown.dfy`): the cooldown gate of both scripts and the
  wait text they report. Python uses the capture of `Wait\s+([\d\w\s]+)`,
  greedy with backtracking. JavaScript uses the first run of digits, or `??`.
- **`Outcome`** (`outcome.dfy`): the three-way verdict after a renewal.
  - Python: success flag and hour increase, then "5 d" in the message or at
    least 108 h, otherwise failure.
  - JavaScript: hour increase, then "5 días" in the error toast or at least
    120 h, otherwise failure.
- **`Notice`** (`notice.dfy`): the `send_notice` text (title, field lines, time
  line), the `STATUS_MAP` display and the fields of the error notice, with
  the fault truncated to 100 characters.
- **`Scrape`** (`scrape.dfy`): the page helpers of `greathost.js`. These are
  the offline test on the trimmed, lower-cased status label, the hour counter
  read by deleting every non-digit, the server id taken from the URL, and the
  started/idle status text.
- **`ApiRun`** (`api_run.dfy`): `run_task` as a method. It takes the answers
  of the panel and returns the run's effects: the renewal POST and the notice,
  with its early returns.
- **`PageRun`** (`page_run.dfy`): the main routine of `greathost.js` as a
  method. It keeps the mutable `serverStarted` flag and returns the run's
  effects: the start click, the renew click and the message.
- **`Text`** (`text.dfy`) and **`Optional`** (`option.dfy`): the string
  operations both scripts rely on (substring search, `replace`, `split`,
  `join`, `trim`, ASCII lower-casing, `str(int)`, slicing) and `Option`.

Three points of the code are easy to misread:

- A message such as "limit reached" is not a limit marker. Only "5 d"
  (Python) or "5 días" (JavaScript) in the message, or the hour threshold,
  make a run maxed out. See `Outcome.LimitReachedTextIsNotAMarker`.
- Neither script checks the login identity before renewing. The IP address
  is only probed and shown in the notice.
- Not every timestamp without an offset is read as UTC. Only the
  space-separated form gets a `Z`. A `T` form without an offset reads as a
  naive datetime, so the subtraction fails and the count is 0.

## Model

| member | source | states |
|---|---|---|
| Duration.CalculateHours | greathost.py:34-48 | 0 for a missing or empty date, for a text the ISO reader rejects, for a naive datetime and for an expiry not after now; otherwise the whole hours h with h·3600 s ≤ expiry − now < (h+1)·3600 s |
| Duration.WholeHours | greathost.py:45-46 | truncation toward zero then `max(0, …)`: 0 for a non-positive span, else the largest h with h hours not exceeding the span |
| Duration.IsoText | greathost.py:39-43 | the text given to `fromisoformat` never holds `/` (made `-`) nor `Z` (made `+00:00`) |
| Duration.FractionStart | greathost.py:39 | where `\.\d+` begins when it ends the text: a dot followed only by at least one digit; whenever such a dot exists, it is the one found |
| Duration.FractionStartComplete | greathost.py:39 | a dot followed only by one or more digits that ends the text is always the dot `FractionStart` finds |
| Duration.StripFraction | greathost.py:39 | `re.sub(r'\.\d+Z$', 'Z', …)`: with a fraction before a final `Z` (or `Z` and a final newline) the result is the text without a dot and one or more digits right before that ending; otherwise the text is unchanged |
| Duration.CleanDate | greathost.py:39-41 | the result never holds `/`; a text with a space and no `T` has each space made `T`, every other character kept and `Z` appended; any other text is only stripped and dashed |
| Duration.TrailingDigits | greathost.py:39 | the length of the maximal run of digits ending the text |
| Duration.StripDropsFraction | greathost.py:39 | `re.sub(r'\.\d+Z$', 'Z', …)` removes a dot-and-digits fraction right before the final `Z` |
| Duration.FractionIgnored | greathost.py:39-46 | `…SS.<digits>Z` gives the same ISO text and the same hour count as `…SSZ` |
| Duration.SecondsAreNotAFraction | greathost.py:39 | the `:SS` seconds field is never taken for a fraction |
| Duration.TrailingDigitsOfFraction | greathost.py:39 | the digits after the dot are exactly the trailing digit run |
| Duration.NoFractionWithoutDot | greathost.py:39 | a text without `.` is left alone by the fraction rewrite |
| Duration.SlashIsDash | greathost.py:39 | writing `/` or `-` as the date separator yields the same ISO text |
| Duration.StripFractionDashed | greathost.py:39 | the fraction rewrite commutes with replacing `/` by `-` |
| Duration.SpaceFormCleaned | greathost.py:40-41 | `<date> <time>` without `T` is rewritten to `<date>T<time>Z` |
| Duration.TFormCleaned | greathost.py:39-41 | `<date>T<time>Z` without a fraction is left unchanged |
| Duration.SpaceFormIsUtc | greathost.py:39-43 | the space form reads as `<date>T<time>+00:00`, the same text as the explicit `…Z` form |
| Duration.TailKept | greathost.py:39 | a text whose last part has no `Z` keeps its fraction |
| Duration.NoFractionAfterT | greathost.py:39 | no fraction can end a `T` form whose time part has no dot |
| Duration.HoursMonotone | greathost.py:45-46 | a later expiry never gives fewer hours |
| Selection.FindByName | greathost.py:108 | the index of the first server carrying the name, or none when no server does |
| Selection.SelectServer | greathost.py:104-114 | empty list gives no servers; with a target, the first server with that name or name-not-found; without one, the only server or the ambiguity with the count |
| Selection.FaultText | greathost.py:105-114 | the exception text names the missing target or the number of servers |
| Selection.PickIgnoresLaterServers | greathost.py:108 | servers listed after the picked one never change the pick |
| Selection.FindPrefix | greathost.py:108 | a name found in a prefix is found at the same index in the whole list |
| Cooldown.PyInCooldown | greathost.py:139-146 | an explicit `canRenew` false always means cooldown; otherwise (absent or true) cooldown exactly when the button text contains "Wait" |
| Cooldown.SpaceRun | greathost.py:150 | the maximal run of `\s` characters from a position |
| Cooldown.ClassRun | greathost.py:150 | the maximal run of `[\d\w\s]` characters from a position |
| Cooldown.CaptureAt | greathost.py:150 | an attempt of `Wait\s+([\d\w\s]+)` at one position: on success, "Wait", then spaces, then a non-empty maximal class run as the group; failure only when no space follows, or one space and then no class character |
| Cooldown.SearchFrom | greathost.py:150 | `re.search`: the first position where the pattern matches, none only when it matches nowhere |
| Cooldown.PyWaitText | greathost.py:147-151 | "冷却中" without "Wait"; the raw button text when the regex fails; otherwise the group of the first match, a non-empty class-only piece of the button text |
| Cooldown.GroupAt | greathost.py:150-151 | `wait_match.group(1)`: the non-empty, class-only slice of the text that the match at a position captures |
| Cooldown.WaitCapturesCountdown | greathost.py:150-151 | "Wait", any non-empty run of white space, then a countdown of class characters not starting with white space reports exactly that countdown (`Wait 12h 15m` gives `12h 15m`) |
| Cooldown.UnmatchedWaitKeepsText | greathost.py:151 | when no "Wait" is followed by white space, the whole button text is reported |
| Cooldown.FirstDigit | greathost.js:134 | the first digit position, none when the text has no digit |
| Cooldown.DigitRun | greathost.js:134 | the maximal run of digits from a position |
| Cooldown.JsInCooldown | greathost.js:132 | cooldown exactly when the button HTML contains "Wait", as greathost.py decides when `canRenew` is absent |
| Cooldown.JsWaitTime | greathost.js:134 | "??" exactly when the button HTML has no digit; otherwise the first maximal run of digits |
| Cooldown.JsWaitTimeOfCountdown | greathost.js:133-134 | `Wait <n> min` reports `<n>` |
| Cooldown.JsWaitTimeTakesEarlierDigits | greathost.js:127-134 | digits anywhere in the markup before the countdown are reported instead of it, because the HTML is searched and not the visible text |
| Cooldown.FirstDigitPrefix | greathost.js:134 | text appended after a digit does not move the first digit |
| Cooldown.DigitRunPrefix | greathost.js:134 | text appended after a closed digit run does not lengthen it |
| Outcome.AfterOrBefore | greathost.py:164 | `calculate_hours(...) or before_h`: the after-count when non-zero, else the before-count |
| Outcome.PyVerdict | greathost.py:167-188 | success exactly when the flag is set and the hours grew; maxed exactly when not a success and the message has "5 d" or before ≥ 108; failure otherwise |
| Outcome.JsVerdict | greathost.js:159-203 | success exactly when the hours grew; maxed exactly when they did not and the toast has "5 días" or before ≥ 120; failure otherwise |
| Outcome.UnreadableAfterIsNeverSuccess | greathost.py:164-167 | an unreadable after-date never yields a success notice |
| Outcome.IsMaxedOut | greathost.js:159 | at or above 120 h always maxed; below 120 h maxed exactly when a readable toast contains "5 días"; with an unreadable toast, maxed exactly at or above 120 h |
| Outcome.JsMarkerIsMaxed | greathost.js:159 | without an hour increase, a toast containing "5 días" gives the maxed-out verdict at any hours |
| Outcome.JsNoMarkerFails | greathost.js:159 | below 120 h, without an increase and without the marker, the verdict is a failure |
| Outcome.JsEmptyErrorBox | greathost.js:158-159 | an unreadable toast leaves only the 120 h threshold |
| Outcome.JsMaxedImpliesPyMaxed | greathost.py:175 | what JavaScript calls maxed out (greathost.js line 159), Python calls maxed out on the same message and counts |
| Outcome.VariantsDisagreeBetweenThresholds | greathost.py:175 | against the 120 h threshold of greathost.js line 159: between 108 h and 120 h with no marker and no increase, Python reports maxed out and JavaScript a failure |
| Outcome.SuccessNeedsFlagOnlyInPython | greathost.py:167 | an increase without the success flag is a success for JavaScript only (greathost.js line 175 tests the hours alone) |
| Outcome.LimitReachedTextIsNotAMarker | greathost.py:175 | the message "limit reached" at 60 h is a failure, not maxed out |
| Notice.Title | greathost.py:56-63 | each of the five known kinds gets a title other than the default, every other kind the default title; no title spans lines |
| Notice.FieldLines | greathost.py:65 | one `"{e} {l}: {v}"` line per field, in order |
| Notice.RenderLines | greathost.py:65-66 | the notice splits back into the title, an empty line, the field lines in order and the time line |
| Notice.RenderIsJoin | greathost.py:65-66 | the notice is the newline join of those lines |
| Notice.FieldLinesOneLine | greathost.py:65 | fields without newlines give lines without newlines |
| Notice.StatusDisplay | greathost.py:122-124 | with the table of greathost.py lines 22-28, each of the five known statuses shows its icon and name; any other shows "❓" and the lower-cased status |
| Notice.StatusIgnoresCase | greathost.py:122 | the status is looked up without regard to ASCII case |
| Notice.MissingStatusIsUnknown | greathost.py:122-123 | a missing status shows as "❓ unknown" |
| Notice.FaultFields | greathost.py:190-194 | the error notice names the server and shows exactly the first min(100, length) characters of the fault in `<code>` |
| Notice.Render | greathost.py:65-66 | the notice starts with its title and an empty line and ends with the time line |
| Scrape.StatusWordsSlice | greathost.js:53-54 | the status words are the lower-cased label without its surrounding white space |
| Scrape.OfflineIgnoresPaddingAndCase | greathost.js:54-57 | the server counts as offline exactly when the lower-cased label contains "offline", "stopped" or "离线", whatever white space surrounds it |
| Scrape.IsOffline | greathost.js:53-57 | an unreadable label reads "unknown", which never triggers a start |
| Scrape.StartedText | greathost.js:141 | the status text contains "已触发启动" when this run started the server, and is the idle text otherwise |
| Scrape.ParseHours | greathost.js:123 | a counter without digits reads 0 (the same parse reads the after-count on line 172) |
| Scrape.ParseRenderedHours | greathost.js:123 | `<n> hours` (digit-free text around the number) reads back as n |
| Scrape.ParseHoursReadsDigitsOnly | greathost.js:123 | only the digits of the counter matter |
| Scrape.LastSlash | greathost.js:111 | the position of the last `/`, none when there is none |
| Scrape.LastSegment | greathost.js:111 | `split('/').pop()`: the slash-free suffix after the last `/`, or the whole text |
| Scrape.ServerId | greathost.js:111 | a non-empty id without `/`: the last segment, or "unknown" when it is empty |
| Scrape.ServerIdOfDetailsPage | greathost.js:111 | `<base>/<id>` gives the id |
| Scrape.TrailingSlashIsUnknown | greathost.js:111 | a URL ending with `/` gives "unknown" |
| ApiRun.VerdictKind | greathost.py:167-188 | each verdict is sent under one of the three verdict kinds, none of which falls back to the default title |
| ApiRun.CooldownFields | greathost.py:155-159 | the cooldown notice names the server, shows the wait text in `<code>` and the current hours as its only digits |
| ApiRun.VerdictFields | greathost.py:167-188 | every final notice names the server first; success and maxed show the id, the status and the login IP last; success shows the before and after counts, in that order, as the only digits of its hours field; maxed shows the after count as the only digits of its hours field and the 120 h hint; failure shows only the reason, "未知错误" when the answer has no message |
| ApiRun.ErrorNotice | greathost.py:190-194 | a fault is sent as an "error" notice |
| ApiRun.RunTask | greathost.py:75-194 | exactly one notice, always last; the renewal is posted exactly when login, selection and lookups succeeded and no cooldown applies; faults before the lock name "未知", later ones the server, and a fault of the POST itself sends an error notice after it; the last notice is an error exactly when the lock failed or the POST failed; the cooldown notice shows the countdown and the before count, the verdict notice follows the verdict on the before and after counts |
| PageRun.ErrorLines | greathost.js:204-206 | the error message shows the whole fault text in `<code>` |
| PageRun.ReportLines | greathost.js:137-200 | every report shows the id in `<code>`, the status text on its status line, and the hour counts as the only digits of the hours line |
| PageRun.CooldownLines | greathost.js:137-142 | seven lines: the id in `<code>` on line 3, the wait text followed by " 分钟" ending line 4, the current hours as the only digits of line 5, the status ending line 6 |
| PageRun.SuccessLines | greathost.js:177-181 | six lines: the id, then the before and after counts, in that order, as the only digits of the hours line, then the status |
| PageRun.MaxedLines | greathost.js:185-190 | seven lines: the id, the current hours as the only digits of the hours line, the status |
| PageRun.FailedLines | greathost.js:195-200 | seven lines: the id, the current hours as the only digits of the hours line, the status |
| PageRun.RunPage | greathost.js:24-209 | the start button is clicked exactly when login succeeded, the server looked offline and the button was usable; the renew button is clicked exactly when the details page was reached, the button does not say "Wait" and the click does not throw; a fault at login, navigation, the click or the reload sends the error message with its text; otherwise the report for the cooldown or the verdict shows the id, the before and after counts and a status that says started exactly when this run clicked start |
| PageRun.IdleText | greathost.js:141-198 | the idle status text ("运行正常" or "运行中") never contains "已触发启动", so a status names a start only when this run clicked start |
| PageRun.MessageLines | greathost.js:137-206 | an error message contains its fault text; a report has an empty second line, the id in `<code>` on its third and the status at the end of its status line |
| Text.Digits | greathost.js:123 | `replace(/[^0-9]/g, '')`: only digits, all of them for an all-digit text, none for a digit-free one |
| Text.DigitsConcat | greathost.js:123 | the digits of a concatenation are the concatenated digits |
| Text.NatToDecimal | greathost.py:158 | `str(n)`: a non-empty run of digits without leading zero |
| Text.DecimalRoundTrip | greathost.js:123 | reading the decimal text of n gives n back |
| Text.Take | greathost.py:193 | `s[:100]`: the prefix of exactly min(100, length) characters, the whole text when shorter |
| Text.TrimBounds | greathost.js:54 | `trim()` removes exactly the white space at both ends |
| Text.Lower | greathost.js:54 | `toLowerCase()`, ASCII letters mapped, every other character kept |
| Text.ReplaceChar | greathost.py:39-41 | `replace(a, b)` on single characters keeps the length and leaves no `a` |
| Text.ReplaceCharAt | greathost.py:39-41 | position by position, an `a` becomes `b` and every other character is kept |
| Text.ReplaceWith | greathost.py:43 | `replace('Z', '+00:00')`: a text without the character is unchanged |
| Text.SplitJoin | greathost.py:65-66 | joining newline-free lines with `\n` and splitting gives the lines back |

## Left out

- Browser automation, waits, reloads and navigation are left out. The model
  sees only what the pages and the API answered.
- Network calls (`fetch_api`, the address probe, Telegram delivery) are left
  out. The answers are inputs. A failed Telegram send is ignored by both
  scripts, so it is not modelled.
- Configuration from the environment is left out. `TARGET_NAME` is a
  parameter.
- The clock is a parameter: `now` in microseconds, and the notice time text.
- `Duration.CalculateHours`: `datetime.fromisoformat` is a parameter. The
  model does not parse ISO-8601 itself. The division by 3600 is done on
  integer microseconds rather than on a float, so float rounding near a whole
  hour is not modelled.
- Python's `\w` and `\d` are modelled on ASCII only. Python's `\s` uses the
  full `str.isspace` set. So a non-ASCII letter in a countdown ends the
  capture in the model but not in Python.
- `Text.Lower`: `str.lower` and `toLowerCase` are modelled on ASCII letters
  only.
- `Scrape.ParseHours`: `parseInt` on more than 15 digits loses precision in
  JavaScript. The model reads the exact value.
- Server entries are taken to have a string `name` and `id`. Missing or
  non-string values (`None` in Python) are not modelled.
- `renew_res.get('success')` is taken as a truth value. `message` is taken as
  a string when present, so `str()` on other JSON values is not modelled.
- `PageRun.RunPage`: a start click that throws after the button was found
  usable counts as no start (`Broken`). The model does not record that the
  click was attempted.
- `PageRun.RunPage`: an error thrown by the initial wait for the counter is
  caught and ignored by the script; the model reads the counter text as
  given. Closing the browser twice on the cooldown path is not modelled.
- The `print` and `console.log` progress output is not modelled.
