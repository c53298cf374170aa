/** Locking onto the target server (`run_task`, greathost.py): pick the first
    server with the configured name, or the only server when no name is
    configured; anything else is an error whose text becomes the fault notice. */
module Selection {
  import opened Optional
  import opened Text

  /** One entry of the `/api/servers` listing. */
  datatype Server = Server(name: string, id: string)

  /** The outcome of the pick: a server, or the exception `run_task` raises. */
  datatype Pick =
    | Picked(server: Server)
    | NoServers                 // the listing is empty
    | NameNotFound(name: string) // no server carries the configured name
    | Ambiguous(count: nat)      // no name configured and several servers

  /** `next((s for s in servers if s.get('name') == target), None)`, as an index. */
  function FindByName(servers: seq<Server>, target: string): (r: Option<nat>)
    ensures r.Some? ==> r.value < |servers| && servers[r.value].name == target
    ensures r.Some? ==> forall j :: 0 <= j < r.value ==> servers[j].name != target
    ensures r.None? ==> forall j :: 0 <= j < |servers| ==> servers[j].name != target
  {
    if servers == [] then None
    else if servers[0].name == target then Some(0)
    else match FindByName(servers[1..], target)
      case None => None
      case Some(i) => Some(i + 1)
  }

  /** The server pick of greathost.py:105-114. */
  function SelectServer(servers: seq<Server>, target: string): (r: Pick)
    ensures servers == [] <==> r == NoServers
    ensures servers != [] && target != "" ==>
              (r.Picked? <==> exists j :: 0 <= j < |servers| && servers[j].name == target)
    ensures servers != [] && target != "" && r.Picked? ==>
              exists j :: 0 <= j < |servers| && servers[j] == r.server && servers[j].name == target
                && forall k :: 0 <= k < j ==> servers[k].name != target
    ensures servers != [] && target != "" && !r.Picked? ==> r == NameNotFound(target)
    ensures servers != [] && target == "" ==> (r.Picked? <==> |servers| == 1)
    ensures servers != [] && target == "" && r.Picked? ==> r.server == servers[0]
    ensures servers != [] && target == "" && !r.Picked? ==> r == Ambiguous(|servers|)
  {
    if servers == [] then NoServers
    else if target != "" then
      match FindByName(servers, target)
      case Some(i) => Picked(servers[i])
      case None => NameNotFound(target)
    else if |servers| == 1 then Picked(servers[0])
    else Ambiguous(|servers|)
  }

  /** The text of the exception raised when no server is picked. */
  function FaultText(p: Pick): (t: string)
    requires !p.Picked?
    ensures p.NameNotFound? ==> Contains(t, p.name)
    ensures p.Ambiguous? ==> Contains(t, NatToDecimal(p.count))
  {
    match p
    case NoServers => "账号下没有找到任何服务器"
    case NameNotFound(name) =>
      var pre := "未找到名称为 '";
      assert name[0..|name|] == name;
      assert OccursAt(name, name, 0);
      ContainsRight(pre, name, name);
      ContainsLeft(pre + name, "' 的服务器", name);
      pre + name + "' 的服务器"
    case Ambiguous(count) =>
      var pre := "账号下存在 ";
      var n := NatToDecimal(count);
      assert n[0..|n|] == n;
      assert OccursAt(n, n, 0);
      ContainsRight(pre, n, n);
      ContainsLeft(pre + n, " 个服务器，必须指定 TARGET_NAME", n);
      pre + n + " 个服务器，必须指定 TARGET_NAME"
  }

  /** Adding servers after the named one never changes the pick. */
  lemma {:induction false} PickIgnoresLaterServers(servers: seq<Server>, more: seq<Server>, target: string)
    requires target != "" && FindByName(servers, target).Some?
    ensures SelectServer(servers + more, target) == SelectServer(servers, target)
  {
    FindPrefix(servers, more, target);
  }

  lemma {:induction false} FindPrefix(servers: seq<Server>, more: seq<Server>, target: string)
    requires FindByName(servers, target).Some?
    ensures FindByName(servers + more, target) == FindByName(servers, target)
  {
    if servers[0].name != target {
      assert (servers + more)[1..] == servers[1..] + more;
      FindPrefix(servers[1..], more, target);
    }
  }
}
