/** The notification text of greathost.py (`send_notice`) and the status
    display built from `STATUS_MAP`. Delivery to Telegram is not modelled. */
module Notice {
  import opened Optional
  import opened Text

  /** One `(emoji, caption, value)` triple of a notice. */
  datatype Field = Field(emoji: string, caption: string, value: string)

  const DefaultTitle: string := "\U{203C}\U{FE0F} <b>GreatHost 通知</b>"

  /** `titles.get(kind, default)` */
  function Title(kind: string): (t: string)
    ensures kind !in {"renew_success", "maxed_out", "cooldown", "renew_failed", "error"} ==> t == DefaultTitle
    ensures kind in {"renew_success", "maxed_out", "cooldown", "renew_failed", "error"} ==> t != DefaultTitle
    ensures '\n' !in t
  {
    match kind
    case "renew_success" => "🎉 <b>GreatHost 续期成功</b>"
    case "maxed_out" => "🈵 <b>GreatHost 已达上限</b>"
    case "cooldown" => "⏳ <b>GreatHost 还在冷却中</b>"
    case "renew_failed" => "\U{26A0}\U{FE0F} <b>GreatHost 续期未生效</b>"
    case "error" => "🚨 <b>GreatHost 脚本报错</b>"
    case _ => DefaultTitle
  }

  /** `f"{e} {l}: {v}"` */
  function FieldLine(f: Field): string {
    f.emoji + " " + f.caption + ": " + f.value
  }

  function FieldLines(fields: seq<Field>): (lines: seq<string>)
    ensures |lines| == |fields|
    ensures forall i :: 0 <= i < |fields| ==> lines[i] == FieldLine(fields[i])
  {
    if fields == [] then [] else [FieldLine(fields[0])] + FieldLines(fields[1..])
  }

  function TimeLine(stamp: string): string {
    "📅 时间: " + stamp
  }

  /** `f"{title}\n\n{body}\n📅 时间: {stamp}"` with `body = "\n".join(lines)`;
      `stamp` is the Shanghai wall-clock text, supplied by the caller. */
  function Render(kind: string, fields: seq<Field>, stamp: string): (r: string)
    ensures |r| > |Title(kind)| + 2 && r[..|Title(kind)| + 2] == Title(kind) + "\n\n"
    ensures |r| > |TimeLine(stamp)| && r[|r| - |TimeLine(stamp)| - 1..] == "\n" + TimeLine(stamp)
  {
    var head, tail := Title(kind) + "\n\n", "\n" + TimeLine(stamp);
    Framed(head, JoinLines(FieldLines(fields)), tail);
    head + JoinLines(FieldLines(fields)) + tail
  }

  lemma Framed(head: string, body: string, tail: string)
    ensures var r := head + body + tail; r[..|head|] == head && r[|r| - |tail|..] == tail
  {
    var r := head + body + tail;
    assert r == head + (body + tail);
  }

  predicate OneLine(f: Field) {
    '\n' !in f.emoji && '\n' !in f.caption && '\n' !in f.value
  }

  lemma FieldLineOneLine(f: Field)
    requires OneLine(f)
    ensures '\n' !in FieldLine(f)
  {
    var a := f.emoji + " ";
    assert '\n' !in a;
    var b := a + f.caption;
    assert '\n' !in b;
    var c := b + ": ";
    assert '\n' !in c;
    assert FieldLine(f) == c + f.value;
  }

  lemma FieldLinesOneLine(fields: seq<Field>)
    requires forall i :: 0 <= i < |fields| ==> OneLine(fields[i])
    ensures NoNewline(FieldLines(fields))
  {
    var lines := FieldLines(fields);
    forall i | 0 <= i < |lines| ensures '\n' !in lines[i] {
      FieldLineOneLine(fields[i]);
    }
  }

  /** Joining a title, a blank line, some lines and a last line. */
  lemma JoinFramed(t: string, lines: seq<string>, last: string)
    requires |lines| > 0
    ensures JoinLines([t, ""] + lines + [last]) == t + "\n\n" + JoinLines(lines) + "\n" + last
  {
    var head: seq<string> := [t, ""];
    var j := JoinLines(lines);
    assert JoinLines(head) == t + "\n" by {
      assert head[1..] == [""];
      assert JoinLines(head) == t + "\n" + JoinLines([""]);
    }
    JoinAppend(head, lines);
    var a := JoinLines(head + lines);
    assert a == (t + "\n") + "\n" + j;
    JoinAppend(head + lines, [last]);
    assert JoinLines(head + lines + [last]) == a + "\n" + last;
    assert (t + "\n") + "\n" == t + "\n\n";
  }

  /** A notice is the join of its title, a blank line, the field lines and the time line. */
  lemma RenderIsJoin(kind: string, fields: seq<Field>, stamp: string)
    requires |fields| > 0
    ensures Render(kind, fields, stamp) == JoinLines([Title(kind), ""] + FieldLines(fields) + [TimeLine(stamp)])
  {
    JoinFramed(Title(kind), FieldLines(fields), TimeLine(stamp));
  }

  lemma NoNewlineFramed(t: string, lines: seq<string>, last: string)
    requires '\n' !in t && '\n' !in last && NoNewline(lines)
    ensures NoNewline([t, ""] + lines + [last])
  {
    var all := [t, ""] + lines + [last];
    forall i | 0 <= i < |all| ensures '\n' !in all[i] {
      if i == 0 {
        assert all[i] == t;
      } else if i == 1 {
        assert all[i] == "";
      } else if i < 2 + |lines| {
        assert all[i] == lines[i - 2];
      } else {
        assert all[i] == last;
      }
    }
  }

  lemma TimeLineOneLine(stamp: string)
    requires '\n' !in stamp
    ensures '\n' !in TimeLine(stamp)
  {
    var prefix := "📅 时间: ";
    assert '\n' !in prefix;
  }

  /** Read line by line, a notice is its title, a blank line, one line per
      field in the given order, and the time line. */
  lemma RenderLines(kind: string, fields: seq<Field>, stamp: string)
    requires |fields| > 0 && forall i :: 0 <= i < |fields| ==> OneLine(fields[i])
    requires '\n' !in stamp
    ensures SplitLines(Render(kind, fields, stamp)) == [Title(kind), ""] + FieldLines(fields) + [TimeLine(stamp)]
  {
    RenderIsJoin(kind, fields, stamp);
    FieldLinesOneLine(fields);
    TimeLineOneLine(stamp);
    NoNewlineFramed(Title(kind), FieldLines(fields), TimeLine(stamp));
    SplitJoin([Title(kind), ""] + FieldLines(fields) + [TimeLine(stamp)]);
  }

  // ---------------------------------------------------------------------------
  // Status display (STATUS_MAP, greathost.py:22-28 and 122-124)

  /** The lower-cased status reported by the panel: `info.get('status', 'unknown').lower()`. */
  function StatusKey(status: Option<string>): string {
    Lower(status.GetOr("unknown"))
  }

  predicate KnownStatus(key: string) {
    key in {"running", "starting", "stopped", "offline", "suspended"}
  }

  /** `f"{icon} {status_name}"` from `STATUS_MAP.get(key, ["❓", key])`. */
  function StatusDisplay(status: Option<string>): (d: string)
    ensures !KnownStatus(StatusKey(status)) ==> d == "❓ " + StatusKey(status)
    ensures StatusKey(status) == "running" ==> d == "🟢 Running"
    ensures StatusKey(status) == "starting" ==> d == "🟡 Starting"
    ensures StatusKey(status) == "stopped" ==> d == "🔴 Stopped"
    ensures StatusKey(status) == "offline" ==> d == "⚪ Offline"
    ensures StatusKey(status) == "suspended" ==> d == "🚫 Suspended"
  {
    match StatusKey(status)
    case "running" => "🟢 Running"
    case "starting" => "🟡 Starting"
    case "stopped" => "🔴 Stopped"
    case "offline" => "⚪ Offline"
    case "suspended" => "🚫 Suspended"
    case key => "❓ " + key
  }

  /** Status words are looked up without regard to ASCII case. */
  lemma StatusIgnoresCase(s: string)
    ensures StatusDisplay(Some(s)) == StatusDisplay(Some(Lower(s)))
  {
    LowerIdempotent(s);
    assert StatusKey(Some(Lower(s))) == StatusKey(Some(s));
  }

  /** A missing status shows as unknown. */
  lemma MissingStatusIsUnknown(status: Option<string>)
    requires status.None?
    ensures StatusDisplay(status) == "❓ unknown"
  {
    UnknownIsLower(status.GetOr("unknown"));
    UnknownIsUnlisted(StatusKey(status));
  }

  lemma UnknownIsLower(k: string)
    requires k == "unknown"
    ensures Lower(k) == k
  {
    LowerUnchanged(k);
  }

  /** `unknown` is not one of the five listed states. */
  lemma UnknownIsUnlisted(key: string)
    requires key == "unknown"
    ensures !KnownStatus(key)
    ensures "❓ " + key == "❓ unknown"
  {
    assert key[0] == 'u';
  }

  // ---------------------------------------------------------------------------
  // The fault notice (greathost.py:190-194)

  const FaultLimit: nat := 100

  /** The fields of the error notice: the server name and at most the first
      100 characters of the fault text, wrapped in `<code>`. */
  function FaultFields(serverName: string, fault: string): (fs: seq<Field>)
    ensures |fs| == 2 && fs[0].value == serverName
    ensures exists shown :: fs[1].value == "<code>" + shown + "</code>"
              && |shown| == (if |fault| <= FaultLimit then |fault| else FaultLimit) && shown == fault[..|shown|]
  {
    var shown := Take(fault, FaultLimit);
    [Field("🖥\U{FE0F}", "服务器", serverName), Field("❌", "故障", "<code>" + shown + "</code>")]
  }
}
