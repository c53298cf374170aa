/** `run_task` of greathost.py as one step-by-step method: log in, lock onto a
    server, read its status and contract, stop with a cooldown notice when the
    renewal is not yet allowed, otherwise post the renewal and report the
    verdict. The browser and the panel are replaced by the answers they gave
    (an `Observation`); what the run does to the outside world is returned as
    the list of its actions, the renewal POST and the notices. */
module ApiRun {
  import opened Optional
  import opened Text
  import opened Duration
  import opened Selection
  import opened Cooldown
  import opened Outcome
  import opened Notice

  /** An effect of the run on the outside world. */
  datatype Action =
    | RenewPost                          // POST /api/renewal/contracts/<id>/renew-free
    | Notify(kind: string, text: string) // one `send_notice`

  /** What the panel and the page answered during one run. A fault is the text
      of an exception raised at that stage. */
  datatype Observation = Observation(
    loginFault: Option<string>,   // login, dashboard or the server listing fails
    servers: seq<Server>,         // `res.get('servers', [])`
    lockedFault: Option<string>,  // status, contract or renew-button lookup fails
    status: Option<string>,       // `info.get('status')`
    renewalDate: Option<string>,  // `renewalInfo.get('nextRenewalDate')`
    canRenew: Option<bool>,       // `renewalInfo.get('canRenew')`
    buttonText: string,           // the text of `#renew-free-server-btn`
    loginIp: Option<string>,      // the address probe, when it answered
    postFault: Option<string>,    // the renewal POST or reading its answer fails
    renewSuccess: bool,           // truth of `renew_res.get('success')`
    renewMessage: Option<string>, // `renew_res.get('message')`
    renewDate: Option<string>)    // `renew_res['details'].get('nextRenewalDate')`

  const ServerEmoji: string := "🖥\U{FE0F}"
  const UnknownName: string := "未知"

  /** The notice kind `send_notice` is called with for each verdict. */
  function VerdictKind(v: Verdict): (kind: string)
    ensures kind in {"renew_success", "maxed_out", "renew_failed"}
    ensures Title(kind) != DefaultTitle
  {
    match v
    case RenewSuccess => "renew_success"
    case MaxedOut => "maxed_out"
    case RenewFailed => "renew_failed"
  }

  /** The fields of the cooldown notice (greathost.py:155-159). */
  function CooldownFields(name: string, wait: string, before: nat): (fs: seq<Field>)
    ensures |fs| == 3 && fs[0].value == name
    ensures fs[1].value == "<code>" + wait + "</code>"
    ensures Digits(fs[2].value) == NatToDecimal(before)
  {
    var shown := NatToDecimal(before);
    DigitsConcat(shown, "h");
    assert Digits("h") == [];
    [Field(ServerEmoji, "服务器名称", name),
     Field("⏳", "剩余冷却", "<code>" + wait + "</code>"),
     Field("📊", "当前累计", shown + "h")]
  }

  /** `f"{before_h} ➔ {after_h}h"`: both counts, in order, are its only digits. */
  function GainField(before: nat, after: nat): (f: Field)
    ensures Digits(f.value) == NatToDecimal(before) + NatToDecimal(after)
  {
    assert NoDigits("") && NoDigits(" ➔ ") && NoDigits("h");
    SpanDigits("", before, " ➔ ", after, "h");
    assert "" + NatToDecimal(before) == NatToDecimal(before);
    Field("⏰", "增加时间", NatToDecimal(before) + " ➔ " + NatToDecimal(after) + "h")
  }

  /** `f"{after_h}h"`: the count is its only digits. */
  function LeftField(after: nat): (f: Field)
    ensures Digits(f.value) == NatToDecimal(after)
  {
    assert NoDigits("") && NoDigits("h");
    CountDigits("", after, "h");
    assert "" + NatToDecimal(after) == NatToDecimal(after);
    Field("⏰", "剩余时间", NatToDecimal(after) + "h")
  }

  const MaxedHint: Field := Field("💡", "提示", "已近120h上限，暂无需续期。")

  /** The fields of the final notice for each verdict (greathost.py:167-188).
      `message` is the `message` entry of the renewal answer, if any. */
  function VerdictFields(v: Verdict, server: Server, before: nat, after: nat, status: string,
                         ip: string, message: Option<string>): (fs: seq<Field>)
    ensures |fs| >= 2 && fs[0] == Field(ServerEmoji, "服务器名称", server.name)
    ensures v == RenewFailed <==> |fs| == 2
    ensures v == RenewFailed ==> fs[1].value == "<code>" + message.GetOr("未知错误") + "</code>"
    ensures v != RenewFailed ==> fs[1].value == "<code>" + server.id + "</code>"
    ensures v != RenewFailed ==> fs[|fs| - 1] == Field("🌐", "登入 IP", "<code>" + ip + "</code>")
    ensures v != RenewFailed ==> exists i :: 0 <= i < |fs| && fs[i].value == status
    // the hours field: before and after on a success, the after count when maxed out
    ensures v == RenewSuccess ==> Digits(fs[2].value) == NatToDecimal(before) + NatToDecimal(after)
    ensures v == MaxedOut ==> Digits(fs[2].value) == NatToDecimal(after)
    ensures v == MaxedOut ==> |fs| == 6 && fs[4] == MaxedHint
  {
    var nameField := Field(ServerEmoji, "服务器名称", server.name);
    var idField := Field("🆔", "ID", "<code>" + server.id + "</code>");
    var statusField := Field("🚀", "运行状态", status);
    var ipField := Field("🌐", "登入 IP", "<code>" + ip + "</code>");
    match v
    case RenewSuccess =>
      var fs := [nameField, idField,
                 GainField(before, after),
                 statusField, ipField];
      assert fs[3].value == status;
      fs
    case MaxedOut =>
      var fs := [nameField, idField, LeftField(after), statusField, MaxedHint, ipField];
      assert fs[3].value == status;
      fs
    case RenewFailed =>
      [nameField, Field("💡", "原因", "<code>" + message.GetOr("未知错误") + "</code>")]
  }

  /** The error notice sent from the `except` branch, naming the server known
      at the time of the fault. */
  function ErrorNotice(name: string, fault: string, stamp: string): (a: Action)
    ensures a.Notify? && a.kind == "error"
  {
    Notify("error", Render("error", FaultFields(name, fault), stamp))
  }

  /** Whether the run gets as far as the cooldown decision. */
  predicate Locked(target: string, obs: Observation) {
    obs.loginFault.None? && SelectServer(obs.servers, target).Picked? && obs.lockedFault.None?
  }

  /** greathost.py:75-194. `target` is `TARGET_NAME`; `now` and `nowAfter`
      are the clock, in microseconds, when the contract and the renewal answer
      are read; `stamp` is the time text of the notice. */
  method RunTask(target: string, obs: Observation, read: IsoReader, now: int, nowAfter: int, stamp: string)
    returns (actions: seq<Action>)
    // one notice, always the last action, and at most one renewal before it
    ensures |actions| in {1, 2} && actions[|actions| - 1].Notify?
    ensures |actions| == 2 ==> actions[0] == RenewPost
    // the renewal is posted exactly when nothing failed and no cooldown applies
    ensures RenewPost in actions <==> Locked(target, obs) && !PyInCooldown(obs.canRenew, obs.buttonText)
    // a fault before the lock is reported under the placeholder name
    ensures obs.loginFault.Some? ==> actions == [ErrorNotice(UnknownName, obs.loginFault.value, stamp)]
    ensures obs.loginFault.None? && !SelectServer(obs.servers, target).Picked? ==>
              actions == [ErrorNotice(UnknownName, FaultText(SelectServer(obs.servers, target)), stamp)]
    // a later fault names the locked server
    ensures obs.loginFault.None? && SelectServer(obs.servers, target).Picked? && obs.lockedFault.Some? ==>
              actions == [ErrorNotice(SelectServer(obs.servers, target).server.name, obs.lockedFault.value, stamp)]
    // a fault once the renewal is posted is reported after it, naming the server
    ensures Locked(target, obs) && !PyInCooldown(obs.canRenew, obs.buttonText) && obs.postFault.Some? ==>
              actions == [RenewPost, ErrorNotice(SelectServer(obs.servers, target).server.name, obs.postFault.value, stamp)]
    ensures actions[|actions| - 1].kind == "error" <==>
              !Locked(target, obs) || (!PyInCooldown(obs.canRenew, obs.buttonText) && obs.postFault.Some?)
    // the cooldown notice carries the countdown and the current hours
    ensures Locked(target, obs) && PyInCooldown(obs.canRenew, obs.buttonText) ==>
              var before := CalculateHours(obs.renewalDate, read, now);
              actions == [Notify("cooldown", Render("cooldown",
                CooldownFields(SelectServer(obs.servers, target).server.name, PyWaitText(obs.buttonText), before),
                stamp))]
    // after the renewal the notice follows the verdict on the before and after counts
    ensures Locked(target, obs) && !PyInCooldown(obs.canRenew, obs.buttonText) && obs.postFault.None? ==>
              var server := SelectServer(obs.servers, target).server;
              var before := CalculateHours(obs.renewalDate, read, now);
              var after := AfterOrBefore(CalculateHours(obs.renewDate, read, nowAfter), before);
              var v := PyVerdict(obs.renewSuccess, obs.renewMessage.GetOr(""), before, after);
              actions[1] == Notify(VerdictKind(v), Render(VerdictKind(v),
                VerdictFields(v, server, before, after, StatusDisplay(obs.status), obs.loginIp.GetOr("Unknown"),
                              obs.renewMessage), stamp))
  {
    var name := UnknownName;
    if obs.loginFault.Some? {
      return [ErrorNotice(name, obs.loginFault.value, stamp)];
    }
    var pick := SelectServer(obs.servers, target);
    if !pick.Picked? {
      return [ErrorNotice(name, FaultText(pick), stamp)];
    }
    var server := pick.server;
    name := server.name;
    if obs.lockedFault.Some? {
      return [ErrorNotice(name, obs.lockedFault.value, stamp)];
    }
    var status := StatusDisplay(obs.status);
    var before := CalculateHours(obs.renewalDate, read, now);
    if PyInCooldown(obs.canRenew, obs.buttonText) {
      var wait := PyWaitText(obs.buttonText);
      return [Notify("cooldown", Render("cooldown", CooldownFields(name, wait, before), stamp))];
    }
    if obs.postFault.Some? {
      return [RenewPost, ErrorNotice(name, obs.postFault.value, stamp)];
    }
    var after := AfterOrBefore(CalculateHours(obs.renewDate, read, nowAfter), before);
    var verdict := PyVerdict(obs.renewSuccess, obs.renewMessage.GetOr(""), before, after);
    var kind := VerdictKind(verdict);
    var fields := VerdictFields(verdict, server, before, after, status, obs.loginIp.GetOr("Unknown"),
                                obs.renewMessage);
    actions := [RenewPost, Notify(kind, Render(kind, fields, stamp))];
  }
}
