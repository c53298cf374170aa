/** The main routine of greathost.js as one step-by-step method: log in, start
    the server when it looks offline, walk to the details page, stop with a
    cooldown message when the renew button says `Wait`, otherwise click it and
    report the verdict on the hour counter read before and after. The page is
    replaced by what it showed (a `PageView`); what the run does to the outside
    world is returned as its outputs: the two clicks and the message. */
module PageRun {
  import opened Optional
  import opened Text
  import opened Cooldown
  import opened Outcome
  import opened Scrape

  /** What the start button offered when the server looked offline. */
  datatype StartButton =
    | Usable   // visible and without a `disabled` attribute
    | Unusable // hidden or disabled
    | Broken   // looking it up or clicking it threw; the run goes on

  /** What the page showed during one run. A fault is the `message` of an
      exception that ends the run at that stage. */
  datatype PageView = PageView(
    loginFault: Option<string>, // the login page or the dashboard navigation fails
    statusText: Option<string>, // the status label; `None` when reading it threw
    startButton: StartButton,
    navFault: Option<string>,   // billing, details page, counter or button lookup fails
    url: string,                // the details page address
    beforeText: string,         // `#accumulated-time` before the renewal
    buttonHtml: string,         // inner HTML of the renew button
    clickFault: Option<string>, // the renew click itself throws; the click counts as not made
    errorText: Option<string>,  // the error toast after the click; `None` when reading it threw
    afterFault: Option<string>, // the reload or the wait for the counter fails
    afterText: string)          // `#accumulated-time` after the reload

  /** The message sent from the `catch` branch (greathost.js:206). */
  function ErrorLines(fault: string): (lines: seq<string>)
    ensures |lines| == 2 && lines[1] == "<code>" + fault + "</code>"
    ensures Contains(JoinLines(lines), fault)
  {
    var lines := ["🚨 <b>GreatHost 脚本报错</b>", "<code>" + fault + "</code>"];
    var text := lines[0] + "\n" + "<code>";
    assert JoinLines(lines) == text + fault + "</code>";
    assert fault[0..|fault|] == fault;
    assert OccursAt(fault, fault, 0);
    ContainsRight(text, fault, fault);
    ContainsLeft(text + fault, "</code>", fault);
    lines
  }

  /** Which of the four reports closes a run that got past the navigation. */
  datatype Report = CooldownReport(wait: string) | VerdictReport(verdict: Verdict)

  /** A message, before it is rendered to text. */
  datatype Message =
    | ErrorMessage(fault: string)
    | ReportMessage(report: Report, id: string, before: nat, after: nat, status: string, stamp: string)

  /** The status a report shows while the server was not started by this run. */
  function IdleText(r: Report): (t: string)
    ensures !Contains(t, StartedMark)
  {
    var t := if r.VerdictReport? && r.verdict != RenewFailed then "运行正常" else "运行中";
    MissingFirstChar(t, StartedMark);
    t
  }

  /** Where the status line sits in each report. */
  function StatusIndex(r: Report): nat {
    if r.CooldownReport? then 5 else 4
  }

  /** The messages of greathost.js:137-142, 177-181, 185-190 and 195-200. */
  function ReportLines(r: Report, id: string, before: nat, after: nat, status: string, stamp: string)
    : (lines: seq<string>)
    ensures |lines| in {6, 7} && lines[1] == ""
    ensures EndsWith(lines[2], "<code>" + id + "</code>")
    ensures StatusIndex(r) < |lines| && EndsWith(lines[StatusIndex(r)], status)
    ensures r.CooldownReport? ==> Digits(lines[4]) == NatToDecimal(before)
    ensures r == VerdictReport(RenewSuccess) ==>
              Digits(lines[3]) == NatToDecimal(before) + NatToDecimal(after)
    ensures r.VerdictReport? && r.verdict != RenewSuccess ==> Digits(lines[3]) == NatToDecimal(before)
  {
    var code := "<code>" + id + "</code>";
    match r
    case CooldownReport(wait) => CooldownLines(code, wait, before, status, stamp)
    case VerdictReport(RenewSuccess) => SuccessLines(code, before, after, status, stamp)
    case VerdictReport(MaxedOut) => MaxedLines(code, before, status, stamp)
    case VerdictReport(RenewFailed) => FailedLines(code, before, status, stamp)
  }

  /** greathost.js:137-142 */
  function CooldownLines(code: string, wait: string, before: nat, status: string, stamp: string)
    : (lines: seq<string>)
    ensures |lines| == 7 && lines[1] == "" && EndsWith(lines[2], code) && EndsWith(lines[5], status)
    ensures EndsWith(lines[3], wait + " 分钟")
    ensures Digits(lines[4]) == NatToDecimal(before)
  {
    EndsWithValue("⏰ <b>剩余时间:</b> ", wait + " 分钟");
    assert "⏰ <b>剩余时间:</b> " + wait + " 分钟" == "⏰ <b>剩余时间:</b> " + (wait + " 分钟");
    EndsWithValue("🆔 <b>服务器ID:</b> ", code);
    EndsWithValue("🚀 <b>服务器状态:</b> ", status);
    assert NoDigits("📊 <b>当前累计:</b> ") && NoDigits("h");
    CountDigits("📊 <b>当前累计:</b> ", before, "h");
    ["⏳ <b>GreatHost 还在冷却中</b>",
     "",
     "🆔 <b>服务器ID:</b> " + code,
     "⏰ <b>剩余时间:</b> " + wait + " 分钟",
     "📊 <b>当前累计:</b> " + NatToDecimal(before) + "h",
     "🚀 <b>服务器状态:</b> " + status,
     "📅 <b>检查时间:</b> " + stamp]
  }

  /** greathost.js:177-181 */
  function SuccessLines(code: string, before: nat, after: nat, status: string, stamp: string)
    : (lines: seq<string>)
    ensures |lines| == 6 && lines[1] == "" && EndsWith(lines[2], code) && EndsWith(lines[4], status)
    ensures Digits(lines[3]) == NatToDecimal(before) + NatToDecimal(after)
  {
    EndsWithValue("🆔 <b>ID:</b> ", code);
    EndsWithValue("🚀 <b>状态:</b> ", status);
    assert NoDigits("⏰ <b>时间:</b> ") && NoDigits(" ➔ ") && NoDigits("h");
    SpanDigits("⏰ <b>时间:</b> ", before, " ➔ ", after, "h");
    ["🎉 <b>GreatHost 续期成功</b>",
     "",
     "🆔 <b>ID:</b> " + code,
     "⏰ <b>时间:</b> " + NatToDecimal(before) + " ➔ " + NatToDecimal(after) + "h",
     "🚀 <b>状态:</b> " + status,
     "📅 <b>执行时间:</b> " + stamp]
  }

  /** greathost.js:185-190 */
  function MaxedLines(code: string, before: nat, status: string, stamp: string): (lines: seq<string>)
    ensures |lines| == 7 && lines[1] == "" && EndsWith(lines[2], code) && EndsWith(lines[4], status)
    ensures Digits(lines[3]) == NatToDecimal(before)
  {
    EndsWithValue("🆔 <b>ID:</b> ", code);
    EndsWithValue("🚀 <b>状态:</b> ", status);
    assert NoDigits("⏰ <b>当前:</b> ") && NoDigits("h (已满额)");
    CountDigits("⏰ <b>当前:</b> ", before, "h (已满额)");
    ["✅ <b>GreatHost 已达上限</b>",
     "",
     "🆔 <b>ID:</b> " + code,
     "⏰ <b>当前:</b> " + NatToDecimal(before) + "h (已满额)",
     "🚀 <b>状态:</b> " + status,
     "📅 <b>检查时间:</b> " + stamp,
     "💡 <b>提示:</b> 累计不能超过 5 天，无需续期。"]
  }

  /** greathost.js:195-200 */
  function FailedLines(code: string, before: nat, status: string, stamp: string): (lines: seq<string>)
    ensures |lines| == 7 && lines[1] == "" && EndsWith(lines[2], code) && EndsWith(lines[4], status)
    ensures Digits(lines[3]) == NatToDecimal(before)
  {
    EndsWithValue("🆔 <b>ID:</b> ", code);
    EndsWithValue("🚀 <b>服务器状态:</b> ", status);
    assert NoDigits("⏰ <b>当前:</b> ") && NoDigits("h");
    CountDigits("⏰ <b>当前:</b> ", before, "h");
    ["\U{26A0}\U{FE0F} <b>GreatHost 续期未生效</b>",
     "",
     "🆔 <b>ID:</b> " + code,
     "⏰ <b>当前:</b> " + NatToDecimal(before) + "h",
     "🚀 <b>服务器状态:</b> " + status,
     "📅 <b>检查时间:</b> " + stamp,
     "💡 <b>提示:</b> 时间未增加，请手动检查确认。"]
  }

  /** The lines of a message. */
  function MessageLines(m: Message): (lines: seq<string>)
    ensures m.ErrorMessage? ==> Contains(JoinLines(lines), m.fault)
    ensures m.ReportMessage? ==> |lines| >= 6 && lines[1] == "" && EndsWith(lines[2], "<code>" + m.id + "</code>")
    ensures m.ReportMessage? ==> EndsWith(lines[StatusIndex(m.report)], m.status)
  {
    match m
    case ErrorMessage(fault) => ErrorLines(fault)
    case ReportMessage(r, id, before, after, status, stamp) => ReportLines(r, id, before, after, status, stamp)
  }

  /** Whether the run gets as far as reading the renew button. */
  predicate Reached(p: PageView) {
    p.loginFault.None? && p.navFault.None?
  }

  /** The report that closes a run which got past the navigation. */
  function ClosingReport(p: PageView): Report {
    if JsInCooldown(p.buttonHtml) then CooldownReport(JsWaitTime(p.buttonHtml))
    else VerdictReport(JsVerdict(p.errorText, ParseHours(p.beforeText), ParseHours(p.afterText)))
  }

  /** greathost.js:24-209. The run's effects on the outside world are its
      outputs: whether it clicked the start button, whether it clicked the
      renew button, and the one message it sent (in that order, when they
      happen). `stamp` is the Shanghai wall-clock text of the message. */
  method RunPage(p: PageView, stamp: string) returns (startClicked: bool, renewClicked: bool, sent: Message)
    // the start click happens exactly when the server looked offline and the button was usable
    ensures startClicked <==> p.loginFault.None? && IsOffline(p.statusText) && p.startButton == Usable
    // the renew click happens exactly when the page was reached, the button does not say Wait
    // and the click did not throw
    ensures renewClicked <==> Reached(p) && !JsInCooldown(p.buttonHtml) && p.clickFault.None?
    // faults end the run with the error message
    ensures p.loginFault.Some? ==> sent == ErrorMessage(p.loginFault.value)
    ensures p.loginFault.None? && p.navFault.Some? ==> sent == ErrorMessage(p.navFault.value)
    ensures Reached(p) && !JsInCooldown(p.buttonHtml) && p.clickFault.Some? ==> sent == ErrorMessage(p.clickFault.value)
    ensures renewClicked && p.afterFault.Some? ==> sent == ErrorMessage(p.afterFault.value)
    // otherwise the report shows the id, the hours and whether this run started the server
    ensures Reached(p) && (JsInCooldown(p.buttonHtml) || (p.clickFault.None? && p.afterFault.None?)) ==>
              var r := ClosingReport(p);
              sent == ReportMessage(r, ServerId(p.url), ParseHours(p.beforeText), ParseHours(p.afterText),
                                    StartedText(startClicked, IdleText(r)), stamp)
  {
    startClicked, renewClicked := false, false;
    if p.loginFault.Some? {
      sent := ErrorMessage(p.loginFault.value);
      return;
    }
    var serverStarted := false;
    if IsOffline(p.statusText) {
      if p.startButton == Usable {
        startClicked := true;
        serverStarted := true;
      }
    }
    if p.navFault.Some? {
      sent := ErrorMessage(p.navFault.value);
      return;
    }
    var id := ServerId(p.url);
    var before := ParseHours(p.beforeText);
    if JsInCooldown(p.buttonHtml) {
      var r := CooldownReport(JsWaitTime(p.buttonHtml));
      sent := ReportMessage(r, id, before, ParseHours(p.afterText), StartedText(serverStarted, IdleText(r)), stamp);
      return;
    }
    if p.clickFault.Some? {
      sent := ErrorMessage(p.clickFault.value);
      return;
    }
    renewClicked := true;
    if p.afterFault.Some? {
      sent := ErrorMessage(p.afterFault.value);
      return;
    }
    var after := ParseHours(p.afterText);
    var r := VerdictReport(JsVerdict(p.errorText, before, after));
    sent := ReportMessage(r, id, before, after, StartedText(serverStarted, IdleText(r)), stamp);
  }
}
