/** A group's membership: names, tokens, join requests and remote agents.

    `alnum` stands for `char::is_alphanumeric`. Generated ids and tokens are
    arguments. An agent or remote agent is represented by the fields that the
    membership rules look at. */
module Group {
  import opened Text

  const MAX_AGENTS := 20
  const MIN_AGENTS := 2

  datatype JoinRequest = JoinRequest(id: string, name: string, github: Option<string>, preAuth: Option<string>)

  datatype Remote = Remote(name: string, token: string, url: Option<string>, lastHeartbeat: Option<int>)

  /** The value of a group. `index` is derived from `tokens` and never saved. */
  datatype Members = Members(
    invite: string,
    members: seq<string>,
    tokens: map<string, string>,
    index: map<string, string>,
    pending: seq<JoinRequest>,
    agents: seq<string>,
    remotes: seq<Remote>,
    approved: map<string, string>)

  datatype Error =
    | InvalidName | AgentConflict | RemoteConflict | AlreadyMember | AlreadyPending
    | RequestNotFound | PreAuthMismatch | InvalidToken | ApproverMismatch
    | TooManyAgents | NameInUse | RemoteNotFound | InvalidAgentToken | NotApproved

  /** A change of the group may be under way when an error is found; the
      caller decides whether to keep it. */
  datatype Outcome<T> = Outcome(group: Members, result: Result<T, Error>)

  // ---------------------------------------------------------------- names

  /** Some name equals `n` up to ASCII case. */
  predicate Taken(names: seq<string>, n: string) {
    exists i :: 0 <= i < |names| && Fold(names[i]) == Fold(n)
  }

  predicate FoldDistinct(names: seq<string>) {
    forall i, j :: 0 <= i < j < |names| ==> Fold(names[i]) != Fold(names[j])
  }

  predicate NoneShared(a: seq<string>, b: seq<string>) {
    forall i, j :: 0 <= i < |a| && 0 <= j < |b| ==> Fold(a[i]) != Fold(b[j])
  }

  function RemoteNames(rs: seq<Remote>): (r: seq<string>)
    ensures |r| == |rs| && forall i :: 0 <= i < |rs| ==> r[i] == rs[i].name
  {
    seq(|rs|, i requires 0 <= i < |rs| => rs[i].name)
  }

  function PendingNames(rs: seq<JoinRequest>): (r: seq<string>)
    ensures |r| == |rs| && forall i :: 0 <= i < |rs| ==> r[i] == rs[i].name
  {
    seq(|rs|, i requires 0 <= i < |rs| => rs[i].name)
  }

  predicate WordLike(alnum: char -> bool, n: string) {
    forall i :: 0 <= i < |n| ==> alnum(n[i]) || n[i] == '-' || n[i] == '_'
  }

  predicate ValidHuman(alnum: char -> bool, name: string) {
    var n := Trim(name);
    n != "" && Fold(n) != "all" && Utf8Len(n) <= 32 && WordLike(alnum, n)
  }

  function MemberNameError(alnum: char -> bool, g: Members, name: string): Option<Error> {
    if !ValidHuman(alnum, name) then Some(InvalidName)
    else if Taken(g.agents, Trim(name)) then Some(AgentConflict)
    else if Taken(RemoteNames(g.remotes), Trim(name)) then Some(RemoteConflict)
    else None
  }

  function FindName(names: seq<string>, n: string): (r: Option<string>)
    ensures r.Some? <==> Taken(names, n)
    ensures r.Some? ==> r.value in names && Fold(r.value) == Fold(n)
  {
    if names == [] then None
    else if Fold(names[0]) == Fold(n) then Some(names[0])
    else
      assert names == [names[0]] + names[1..];
      var r := FindName(names[1..], n);
      TakenTail(names, n);
      r
  }

  lemma TakenTail(names: seq<string>, n: string)
    requires names != [] && Fold(names[0]) != Fold(n)
    ensures Taken(names, n) <==> Taken(names[1..], n)
  {
  }

  // ---------------------------------------------------------------- the token index

  /** `index` sends every token to some member who has it, and nothing else. */
  ghost predicate IsIndex(tokens: map<string, string>, index: map<string, string>) {
    && (forall n :: n in tokens ==> tokens[n] in index)
    && (forall t :: t in index ==> index[t] in tokens && tokens[index[t]] == t)
  }

  ghost predicate Injective(tokens: map<string, string>) {
    forall m, n :: m in tokens && n in tokens && tokens[m] == tokens[n] ==> m == n
  }

  ghost function NameOf(tokens: map<string, string>, t: string): (n: string)
    requires t in tokens.Values
    ensures n in tokens && tokens[n] == t
  {
    var n :| n in tokens && tokens[n] == t;
    n
  }

  /** The recomputed index. */
  ghost function Inverse(tokens: map<string, string>): (r: map<string, string>)
    ensures IsIndex(tokens, r)
  {
    map t | t in tokens.Values :: NameOf(tokens, t)
  }

  /** With distinct tokens the index does not depend on the iteration order. */
  lemma IndexUnique(tokens: map<string, string>, index: map<string, string>)
    requires Injective(tokens) && IsIndex(tokens, index)
    ensures index == Inverse(tokens)
  {
  }

  // ---------------------------------------------------------------- operations on values

  function Token(g: Members, token: string): Option<string> {
    if token in g.index then Some(g.index[token]) else None
  }

  function IssueToken(alnum: char -> bool, g: Members, name: string, generated: string): Outcome<string> {
    var n := Trim(name);
    match MemberNameError(alnum, g, n)
    case Some(e) => Outcome(g, Err(e))
    case None =>
      var canonical := match FindName(g.members, n) case Some(m) => m case None => n;
      var token := if canonical in g.tokens then g.tokens[canonical] else generated;
      Outcome(g.(members := if Taken(g.members, canonical) then g.members else g.members + [canonical],
                 tokens := g.tokens[canonical := token],
                 index := g.index[token := canonical]),
              Ok(token))
  }

  function NonEmpty(s: Option<string>): Option<string> {
    if s.Some? && Trim(s.value) != "" then Some(Trim(s.value)) else None
  }

  function AddJoin(alnum: char -> bool, g: Members, name: string, github: Option<string>, id: string, generated: string)
    : Outcome<string>
  {
    var n := Trim(name);
    match MemberNameError(alnum, g, name)
    case Some(e) => Outcome(g, Err(e))
    case None =>
      if Taken(g.members, n) then Outcome(g, Err(AlreadyMember))
      else if Taken(PendingNames(g.pending), n) then Outcome(g, Err(AlreadyPending))
      else
        Outcome(g.(pending := g.pending + [JoinRequest(id, n, NonEmpty(github), Some(generated))]), Ok(id))
  }

  function FindRequest(rs: seq<JoinRequest>, id: string): (r: Option<nat>)
    ensures r.Some? ==> r.value < |rs| && rs[r.value].id == id
    ensures r.None? ==> forall i :: 0 <= i < |rs| ==> rs[i].id != id
  {
    if rs == [] then None
    else if rs[0].id == id then Some(0)
    else match FindRequest(rs[1..], id) case None => None case Some(i) => Some(i + 1)
  }

  function Remove<T>(s: seq<T>, i: nat): seq<T>
    requires i < |s|
  {
    s[..i] + s[i + 1..]
  }

  function Approve(alnum: char -> bool, g: Members, id: string, preAuth: string, generated: string)
    : Outcome<(string, string)>
  {
    match FindRequest(g.pending, id)
    case None => Outcome(g, Err(RequestNotFound))
    case Some(pos) =>
      var req := g.pending[pos];
      var g1 := g.(pending := Remove(g.pending, pos));
      if req.preAuth.Some? && preAuth != "" && preAuth != req.preAuth.value then Outcome(g1, Err(PreAuthMismatch))
      else
        var issued := IssueToken(alnum, g1, req.name, generated);
        match issued.result
        case Err(e) => Outcome(issued.group, Err(e))
        case Ok(token) =>
          Outcome(if preAuth == "" then issued.group
                  else issued.group.(approved := issued.group.approved[preAuth := token]),
                  Ok((req.name, token)))
  }

  /** `all_agent_names`: agents, then the remote agents not named like one before. */
  function AllAgentNames(names: seq<string>, remotes: seq<string>): seq<string>
    decreases |remotes|
  {
    if remotes == [] then names
    else AllAgentNames(if Taken(names, remotes[0]) then names else names + [remotes[0]], remotes[1..])
  }

  function AddRemoteAgent(g: Members, name: string, agentToken: string, url: string): Outcome<string> {
    if |AllAgentNames(g.agents, RemoteNames(g.remotes))| >= MAX_AGENTS then Outcome(g, Err(TooManyAgents))
    else if Taken(g.agents, name) || Taken(RemoteNames(g.remotes), name) || Taken(g.members, name) then
      Outcome(g, Err(NameInUse))
    else Outcome(g.(remotes := g.remotes + [Remote(name, agentToken, Some(url), None)]), Ok(name))
  }

  function FindRemote(rs: seq<Remote>, name: string): (r: Option<nat>)
    ensures r.Some? ==> r.value < |rs| && Fold(rs[r.value].name) == Fold(name)
    ensures r.None? ==> forall i :: 0 <= i < |rs| ==> Fold(rs[i].name) != Fold(name)
  {
    if rs == [] then None
    else if Fold(rs[0].name) == Fold(name) then Some(0)
    else match FindRemote(rs[1..], name) case None => None case Some(i) => Some(i + 1)
  }

  function RemoveRemoteAgent(g: Members, name: string): Outcome<string> {
    match FindRemote(g.remotes, name)
    case None => Outcome(g, Err(RemoteNotFound))
    case Some(i) => Outcome(g.(remotes := Remove(g.remotes, i)), Ok(name))
  }

  function Beat(g: Members, name: string, agentToken: string, now: int): Outcome<string> {
    match FindRemote(g.remotes, name)
    case None => Outcome(g, Err(RemoteNotFound))
    case Some(i) =>
      if agentToken != g.remotes[i].token then Outcome(g, Err(InvalidAgentToken))
      else Outcome(g.(remotes := g.remotes[i := g.remotes[i].(lastHeartbeat := Some(now))]), Ok(g.remotes[i].name))
  }

  function ConsumeApproval(g: Members, preAuth: string): Outcome<string> {
    if preAuth in g.approved then Outcome(g.(approved := g.approved - {preAuth}), Ok(preAuth))
    else Outcome(g, Err(NotApproved))
  }

  // ---------------------------------------------------------------- locked modifications

  /** The closures that handlers and commands pass to `modify_group`. */
  datatype Change =
    | RequestJoin(name: string, github: Option<string>)
    | JoinLocal(name: string, github: Option<string>)
    | EnsureMember(name: string)
    | ApproveByToken(token: string, requestId: string)
    | ApproveByName(approver: string, token: string, requestId: string)
    | AddRemote(name: string, agentToken: string, url: string)
    | RemoveRemote(name: string)
    | Heartbeat(name: string, agentToken: string, now: int)
    | Consume(preAuth: string)

  datatype Reply = Pending(id: string, preAuth: Option<string>) | Approved(name: string, token: string) | Done(name: string)

  function Replied<T>(o: Outcome<T>, f: T -> Reply): Outcome<Reply> {
    match o.result
    case Ok(v) => Outcome(o.group, Ok(f(v)))
    case Err(e) => Outcome(o.group, Err(e))
  }

  /** The pre-auth token of the pending request `id`. */
  function PreAuthOf(g: Members, id: string): Option<string> {
    match FindRequest(g.pending, id)
    case None => None
    case Some(i) => g.pending[i].preAuth
  }

  function ApproveReply(): ((string, string)) -> Reply {
    (p: (string, string)) => Approved(p.0, p.1)
  }

  function DoneReply(): string -> Reply {
    (n: string) => Done(n)
  }

  function TokenReply(name: string): string -> Reply {
    (t: string) => Approved(name, t)
  }

  function PendingReply(preAuth: Option<string>): string -> Reply {
    (id: string) => Pending(id, preAuth)
  }

  function Apply(alnum: char -> bool, c: Change, g: Members, id: string, generated: string): Outcome<Reply> {
    match c
    case RequestJoin(name, github) =>
      var o := AddJoin(alnum, g, name, github, id, generated);
      Replied(o, PendingReply(PreAuthOf(o.group, id)))
    case JoinLocal(name, github) =>
      if g.members == [] then Replied(IssueToken(alnum, g, name, generated), TokenReply(name))
      else if Taken(g.members, name) then Replied(IssueToken(alnum, g, name, generated), TokenReply(name))
      else Replied(AddJoin(alnum, g, name, github, id, generated), PendingReply(None))
    case EnsureMember(name) =>
      Replied(IssueToken(alnum, g, name, generated), TokenReply(name))
    case ApproveByToken(token, requestId) =>
      if Token(g, token).None? then Outcome(g, Err(InvalidToken))
      else
        var preAuth := PreAuthOf(g, requestId);
        Replied(Approve(alnum, g, requestId, if preAuth.Some? then preAuth.value else "", generated), ApproveReply())
    case ApproveByName(approver, token, requestId) =>
      if Token(g, token).None? then Outcome(g, Err(InvalidToken))
      else if Fold(Trim(approver)) != Fold(Trim(Token(g, token).value)) then Outcome(g, Err(ApproverMismatch))
      else Replied(Approve(alnum, g, requestId, "", generated), ApproveReply())
    case AddRemote(name, agentToken, url) => Replied(AddRemoteAgent(g, name, agentToken, url), DoneReply())
    case RemoveRemote(name) => Replied(RemoveRemoteAgent(g, name), DoneReply())
    case Heartbeat(name, agentToken, now) => Replied(Beat(g, name, agentToken, now), DoneReply())
    case Consume(preAuth) => Replied(ConsumeApproval(g, preAuth), DoneReply())
  }

  /** What a file holds of a group, and what loading makes of it. */
  function Saved(g: Members): Members {
    g.(index := map[])
  }

  ghost function Loaded(stored: Members): Members {
    stored.(index := Inverse(stored.tokens))
  }

  /** The file after one locked modification: unchanged if the closure fails. */
  ghost function Modified(alnum: char -> bool, c: Change, stored: Members, id: string, generated: string): Members {
    var o := Apply(alnum, c, Loaded(stored), id, generated);
    if o.result.Ok? then Saved(o.group) else stored
  }

  // ---------------------------------------------------------------- creation

  predicate CreateOk(alnum: char -> bool, lower: string -> string, names: seq<string>, host: string) {
    && MIN_AGENTS <= |names| <= MAX_AGENTS
    && (forall i :: 0 <= i < |names| ==> Utf8Len(names[i]) <= 32 && WordLike(alnum, names[i]) && Fold(names[i]) != "all")
    && (forall i, j :: 0 <= i < j < |names| ==> lower(names[i]) != lower(names[j]))
    && ValidHuman(alnum, host) && Trimmed(host)
    && !Taken(names, host)
  }

  function Built(names: seq<string>, host: string, hostToken: string, invite: string): Members {
    Members(invite, [host], map[host := hostToken], map[hostToken := host], [], names, [], map[])
  }
}
