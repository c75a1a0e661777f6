/** When each locked modification of a consistent group succeeds, and what it leaves behind,
    said by members, tokens, requests and agents alone. */
module GroupOutcomes {
  import opened Text
  import opened Group
  import opened GroupInvariants
  import opened GroupProtocol

  // ---------------------------------------------------------------- tokens and names

  predicate Owns(g: Members, n: string, token: string) {
    n in g.tokens && g.tokens[n] == token
  }

  lemma OwnerExactly(g: Members, used: set<string>, token: string)
    requires Inv(g, used)
    ensures Token(g, token).None? <==> forall n :: !Owns(g, n, token)
    ensures forall n :: Owns(g, n, token) <==> Token(g, token) == Some(n)
  {
    forall n ensures Owns(g, n, token) <==> Token(g, token) == Some(n) {
    }
    if Token(g, token).Some? {
      assert Owns(g, Token(g, token).value, token);
    }
  }

  /** A name for a person: not empty, at most 32 bytes, not "all", and without odd characters. */
  predicate Proper(alnum: char -> bool, name: string) {
    && 1 <= Utf8Len(name) <= 32 && Fold(name) != "all"
    && forall c :: c in name ==> alnum(c) || c == '-' || c == '_'
  }

  lemma ProperExactly(alnum: char -> bool, name: string)
    ensures ValidHuman(alnum, name) <==> Proper(alnum, Trim(name))
  {
  }

  /** A proper name that no agent has, ignoring ASCII case. */
  predicate Open(alnum: char -> bool, g: Members, name: string) {
    && Proper(alnum, name)
    && (forall a :: a in g.agents ==> Fold(a) != Fold(name))
    && (forall r :: r in g.remotes ==> Fold(r.name) != Fold(name))
  }

  lemma TakenMeans(names: seq<string>, n: string)
    ensures Taken(names, n) <==> exists m :: m in names && Fold(m) == Fold(n)
  {
    if m :| m in names && Fold(m) == Fold(n) {
      var i :| 0 <= i < |names| && names[i] == m;
    }
  }

  lemma RemoteTaken(rs: seq<Remote>, n: string)
    ensures Taken(RemoteNames(rs), n) <==> exists r :: r in rs && Fold(r.name) == Fold(n)
  {
    if r :| r in rs && Fold(r.name) == Fold(n) {
      var i :| 0 <= i < |rs| && rs[i] == r;
      assert RemoteNames(rs)[i] == r.name;
    }
  }

  lemma PendingTaken(rs: seq<JoinRequest>, n: string)
    ensures Taken(PendingNames(rs), n) <==> exists r :: r in rs && Fold(r.name) == Fold(n)
  {
    if r :| r in rs && Fold(r.name) == Fold(n) {
      var i :| 0 <= i < |rs| && rs[i] == r;
      assert PendingNames(rs)[i] == r.name;
    }
  }

  lemma OpenExactly(alnum: char -> bool, g: Members, name: string)
    ensures MemberNameError(alnum, g, name).None? <==> Open(alnum, g, Trim(name))
  {
    ProperExactly(alnum, name);
    TakenMeans(g.agents, Trim(name));
    RemoteTaken(g.remotes, Trim(name));
  }

  /** A new group: its agents, its host as the only member, and the invitation. */
  lemma BuiltExactly(names: seq<string>, host: string, hostToken: string, invite: string, token: string)
    ensures var g := Built(names, host, hostToken, invite);
            && g.agents == names && g.members == [host] && g.invite == invite
            && g.pending == [] && g.remotes == [] && g.approved == map[]
            && (forall n :: Owns(g, n, token) <==> n == host && token == hostToken)
            && (Token(g, token) == if token == hostToken then Some(host) else None)
  {
  }

  // ---------------------------------------------------------------- approvals

  predicate Asked(g: Members, i: nat, requestId: string) {
    i < |g.pending| && g.pending[i].id == requestId
  }

  lemma AskedOnce(g: Members, used: set<string>, requestId: string)
    requires Inv(g, used)
    ensures forall i: nat :: Asked(g, i, requestId) <==> FindRequest(g.pending, requestId) == Some(i)
  {
  }

  /** The request at `i` has become a member with this token. */
  predicate Admitted(g: Members, h: Members, i: nat, token: string) {
    && i < |g.pending|
    && h == g.(pending := g.pending[..i] + g.pending[i + 1..],
               members := g.members + [g.pending[i].name],
               tokens := g.tokens[g.pending[i].name := token],
               index := g.index[token := g.pending[i].name],
               approved := h.approved)
  }

  /** An approval of the request at `i`. */
  lemma ApproveAsked(alnum: char -> bool, g: Members, used: set<string>, i: nat, requestId: string, preAuth: string, generated: string)
    requires Inv(g, used) && generated !in used && Asked(g, i, requestId)
    requires preAuth == "" || g.pending[i].preAuth == Some(preAuth)
    ensures var o := Approve(alnum, g, requestId, preAuth, generated);
            && (o.result.Ok? <==> Open(alnum, g, g.pending[i].name))
            && (o.result.Err? ==> o.result.error in {InvalidName, AgentConflict, RemoteConflict})
            && (o.result.Ok? ==>
                && o.result == Ok((g.pending[i].name, generated))
                && Admitted(g, o.group, i, generated)
                && o.group.approved == if preAuth == "" then g.approved else g.approved[preAuth := generated])
  {
    AskedOnce(g, used, requestId);
    var g1 := g.(pending := Remove(g.pending, i));
    assert Trimmed(g.pending[i].name);
    OpenExactly(alnum, g, g.pending[i].name);
    assert MemberNameError(alnum, g1, g.pending[i].name) == MemberNameError(alnum, g, g.pending[i].name);
    if Approve(alnum, g, requestId, preAuth, generated).result.Ok? {
      ApproveGrants(alnum, g, used, requestId, preAuth, generated);
    }
  }

  lemma ApproveUnknown(alnum: char -> bool, g: Members, used: set<string>, requestId: string, preAuth: string, generated: string)
    requires Inv(g, used) && forall i: nat :: !Asked(g, i, requestId)
    ensures Approve(alnum, g, requestId, preAuth, generated) == Outcome(g, Err(RequestNotFound))
  {
    var found := FindRequest(g.pending, requestId);
    if found.Some? {
      assert Asked(g, found.value, requestId);
    }
  }

  /** What an approval that passed its token checks answers. */
  ghost predicate Answers(alnum: char -> bool, g: Members, requestId: string, generated: string, o: Outcome<Reply>) {
    && (o.result.Ok? <==> exists i: nat :: Asked(g, i, requestId) && Open(alnum, g, g.pending[i].name))
    && (o.result == Err(RequestNotFound) <==> forall i: nat :: !Asked(g, i, requestId))
    && (o.result.Err? ==> o.result.error in {RequestNotFound, InvalidName, AgentConflict, RemoteConflict})
    && forall i: nat :: Asked(g, i, requestId) && o.result.Ok? ==>
         o.result == Ok(Approved(g.pending[i].name, generated)) && Admitted(g, o.group, i, generated)
  }

  lemma ApproveAnswers(alnum: char -> bool, g: Members, used: set<string>, requestId: string, preAuth: string, generated: string)
    requires Inv(g, used) && generated !in used
    requires preAuth == "" || PreAuthOf(g, requestId) == Some(preAuth)
    ensures var o := Replied(Approve(alnum, g, requestId, preAuth, generated), ApproveReply());
            && Answers(alnum, g, requestId, generated, o)
            && (o.result.Ok? ==> o.group.approved == if preAuth == "" then g.approved else g.approved[preAuth := generated])
  {
    AskedOnce(g, used, requestId);
    if i: nat :| Asked(g, i, requestId) {
      ApproveAsked(alnum, g, used, i, requestId, preAuth, generated);
    } else {
      ApproveUnknown(alnum, g, used, requestId, preAuth, generated);
    }
  }

  lemma ByNameChecks(alnum: char -> bool, g: Members, used: set<string>, approver: string, token: string, requestId: string,
                     id: string, generated: string)
    requires Inv(g, used)
    ensures var o := Apply(alnum, ApproveByName(approver, token, requestId), g, id, generated);
            && ((forall n :: !Owns(g, n, token)) ==> o == Outcome(g, Err(InvalidToken)))
            && forall n :: Owns(g, n, token) ==>
                 o == if Fold(Trim(n)) != Fold(Trim(approver)) then Outcome(g, Err(ApproverMismatch))
                      else Replied(Approve(alnum, g, requestId, "", generated), ApproveReply())
  {
    OwnerExactly(g, used, token);
  }

  /** An approval from the command line: the token must be a member's, and that member must be
      the named approver. */
  lemma ApproveByNameExactly(alnum: char -> bool, g: Members, used: set<string>, approver: string, token: string, requestId: string,
                             id: string, generated: string)
    requires Inv(g, used) && Unused(used, id, generated)
    ensures var o := Apply(alnum, ApproveByName(approver, token, requestId), g, id, generated);
            && (o.result == Err(InvalidToken) <==> forall n :: !Owns(g, n, token))
            && (o.result == Err(ApproverMismatch) <==>
                exists n :: Owns(g, n, token) && Fold(Trim(n)) != Fold(Trim(approver)))
            && (o.result in {Err(InvalidToken), Err(ApproverMismatch)} ==> o.group == g)
            && (o.result.Ok? <==>
                && (exists n :: Owns(g, n, token) && Fold(Trim(n)) == Fold(Trim(approver)))
                && (exists i: nat :: Asked(g, i, requestId) && Open(alnum, g, g.pending[i].name)))
            && ((exists n :: Owns(g, n, token) && Fold(Trim(n)) == Fold(Trim(approver))) ==>
                Answers(alnum, g, requestId, generated, o) && (o.result.Ok? ==> o.group.approved == g.approved))
  {
    OwnerExactly(g, used, token);
    ByNameChecks(alnum, g, used, approver, token, requestId, id, generated);
    ApproveAnswers(alnum, g, used, requestId, "", generated);
  }

  /** An approval on the server: any member's token will do, and the new token is kept for the
      one who holds the request's pre-auth token. */
  lemma ApproveByTokenExactly(alnum: char -> bool, g: Members, used: set<string>, token: string, requestId: string,
                              id: string, generated: string)
    requires Inv(g, used) && Unused(used, id, generated)
    ensures var o := Apply(alnum, ApproveByToken(token, requestId), g, id, generated);
            && (o.result == Err(InvalidToken) <==> forall n :: !Owns(g, n, token))
            && (o.result == Err(InvalidToken) ==> o.group == g)
            && (o.result.Ok? <==>
                && (exists n :: Owns(g, n, token))
                && (exists i: nat :: Asked(g, i, requestId) && Open(alnum, g, g.pending[i].name)))
            && ((exists n :: Owns(g, n, token)) ==> Answers(alnum, g, requestId, generated, o))
            && forall i: nat :: Asked(g, i, requestId) && o.result.Ok? ==>
                 && g.pending[i].preAuth.Some?
                 && o.group.approved == g.approved[g.pending[i].preAuth.value := generated]
  {
    OwnerExactly(g, used, token);
    var preAuth := PreAuthKnown(g, used, requestId);
    ApproveAnswers(alnum, g, used, requestId, preAuth, generated);
  }

  lemma PreAuthKnown(g: Members, used: set<string>, requestId: string) returns (preAuth: string)
    requires Inv(g, used)
    ensures preAuth == if PreAuthOf(g, requestId).Some? then PreAuthOf(g, requestId).value else ""
    ensures forall i: nat :: Asked(g, i, requestId) ==> g.pending[i].preAuth == Some(preAuth) && preAuth != ""
  {
    AskedOnce(g, used, requestId);
    preAuth := if PreAuthOf(g, requestId).Some? then PreAuthOf(g, requestId).value else "";
    forall i: nat | Asked(g, i, requestId) ensures RequestOk(g, used, g.pending[i]) {
    }
  }

  // ---------------------------------------------------------------- joining

  predicate HasMember(g: Members, name: string) {
    exists m :: m in g.members && Fold(m) == Fold(name)
  }

  predicate HasRequest(g: Members, name: string) {
    exists r :: r in g.pending && Fold(r.name) == Fold(name)
  }

  /** `h` is `g` with one more request, by `name`. */
  predicate Queued(g: Members, h: Members, name: string, github: Option<string>, id: string, preAuth: string) {
    && h == g.(pending := h.pending)
    && |h.pending| == |g.pending| + 1 && h.pending[..|g.pending|] == g.pending
    && var r := h.pending[|g.pending|];
       && r.id == id && r.name == Trim(name) && r.preAuth == Some(preAuth)
       && r.github == if github.Some? && Trim(github.value) != "" then Some(Trim(github.value)) else None
  }

  lemma AddJoinOutcome(alnum: char -> bool, g: Members, name: string, github: Option<string>, id: string, preAuth: string)
    ensures var o := AddJoin(alnum, g, name, github, id, preAuth);
            && (o.result.Ok? <==> Open(alnum, g, Trim(name)) && !HasMember(g, Trim(name)) && !HasRequest(g, Trim(name)))
            && (o.result == Err(AlreadyMember) <==> Open(alnum, g, Trim(name)) && HasMember(g, Trim(name)))
            && (o.result == Err(AlreadyPending) <==>
                Open(alnum, g, Trim(name)) && !HasMember(g, Trim(name)) && HasRequest(g, Trim(name)))
            && (if o.result.Ok? then o.result == Ok(id) && Queued(g, o.group, name, github, id, preAuth) else o.group == g)
  {
    OpenExactly(alnum, g, name);
    TakenMeans(g.members, Trim(name));
    PendingTaken(g.pending, Trim(name));
  }

  /** A request to join, with the reply that tells the pre-auth token. */
  lemma RequestExactly(alnum: char -> bool, g: Members, used: set<string>, name: string, github: Option<string>,
                       id: string, generated: string)
    requires Inv(g, used) && Unused(used, id, generated)
    ensures var o := Apply(alnum, RequestJoin(name, github), g, id, generated);
            && (o.result.Ok? <==> Open(alnum, g, Trim(name)) && !HasMember(g, Trim(name)) && !HasRequest(g, Trim(name)))
            && (if o.result.Ok?
                then o.result == Ok(Pending(id, Some(generated))) && Queued(g, o.group, name, github, id, generated)
                else o.group == g)
  {
    AddJoinOutcome(alnum, g, name, github, id, generated);
    if AddJoin(alnum, g, name, github, id, generated).result.Ok? {
      OpenExactly(alnum, g, name);
      TakenMeans(g.members, Trim(name));
      PendingTaken(g.pending, Trim(name));
      JoinReply(alnum, g, used, name, github, id, generated);
    }
  }

  /** `h` is `g` with one more member. */
  predicate Joined(g: Members, h: Members, name: string, token: string) {
    h == g.(members := g.members + [name], tokens := g.tokens[name := token], index := g.index[token := name])
  }

  /** Issuing a token: a member gets back its own, anybody else becomes a member. */
  lemma IssueExactly(alnum: char -> bool, g: Members, name: string, id: string, generated: string)
    requires TokensOk(g) && FoldDistinct(g.members)
    ensures var o := Apply(alnum, EnsureMember(name), g, id, generated);
            && (o.result.Ok? <==> Open(alnum, g, Trim(name)))
            && (o.result.Err? ==> o.group == g)
            && (o.result.Ok? && !HasMember(g, Trim(name)) ==>
                o.result == Ok(Approved(name, generated)) && Joined(g, o.group, Trim(name), generated))
            && forall m :: o.result.Ok? && m in g.members && Fold(m) == Fold(Trim(name)) ==>
                 m in g.tokens && o == Outcome(g, Ok(Approved(name, g.tokens[m])))
  {
    OpenExactly(alnum, g, Trim(name));
    TakenMeans(g.members, Trim(name));
    if Open(alnum, g, Trim(name)) {
      if Taken(g.members, Trim(name)) {
        IssueExisting(alnum, g, name, generated);
        var found := FindName(g.members, Trim(name)).value;
        forall m | m in g.members && Fold(m) == Fold(Trim(name)) ensures m == found {
          var i :| 0 <= i < |g.members| && g.members[i] == m;
          var j :| 0 <= j < |g.members| && g.members[j] == found;
        }
      } else {
        IssueNew(alnum, g, name, generated);
      }
    }
  }

  /** Joining from the command line: the first one becomes a member, a member gets its token
      back, and anybody else leaves a request, whose pre-auth token is not told. */
  lemma JoinLocalExactly(alnum: char -> bool, g: Members, name: string, github: Option<string>, id: string, generated: string)
    requires TokensOk(g) && FoldDistinct(g.members)
    ensures var o := Apply(alnum, JoinLocal(name, github), g, id, generated);
            if g.members == [] || HasMember(g, name) then o == Apply(alnum, EnsureMember(name), g, id, generated)
            else
              && (o.result.Ok? <==> Open(alnum, g, Trim(name)) && !HasMember(g, Trim(name)) && !HasRequest(g, Trim(name)))
              && (if o.result.Ok? then o.result == Ok(Pending(id, None)) && Queued(g, o.group, name, github, id, generated)
                  else o.group == g)
  {
    TakenMeans(g.members, name);
    AddJoinOutcome(alnum, g, name, github, id, generated);
  }

  /** What the server does with a request to join, by the snapshot it read. */
  lemma JoinCallExactly(alnum: char -> bool, g: Members, used: set<string>, token: string, name: string, github: Option<string>)
    requires Inv(g, used)
    ensures var b := BeginJoin(alnum, g, token, name, github);
            && (b == Responds(Refused) <==>
                (token != g.invite && forall n :: !Owns(g, n, token)) || !Proper(alnum, Trim(name)))
            && (b == Responds(AlreadyIn) <==>
                (token == g.invite || exists n :: Owns(g, n, token)) && Proper(alnum, Trim(name)) && HasMember(g, Trim(name)))
            && (b.Wants? <==>
                (token == g.invite || exists n :: Owns(g, n, token)) && Proper(alnum, Trim(name)) && !HasMember(g, Trim(name)))
            && (b.Wants? ==>
                var handle := if github.Some? && Trim(github.value) != "" then Some(Trim(github.value)) else None;
                b.task == Task(RequestJoin(Trim(name), handle), None))
  {
    OwnerExactly(g, used, token);
    ProperExactly(alnum, name);
    TakenMeans(g.members, Trim(name));
  }

  /** What a poll with a pre-auth token answers: an approval is on its way to being handed out,
      a request that carries the token is still pending, and nothing else is known. */
  lemma StatusExactly(g: Members, used: set<string>, requestId: string, preAuth: string)
    requires Inv(g, used)
    ensures var b := BeginStatus(g, requestId, preAuth);
            && (b == Responds(Refused) <==> preAuth == "")
            && (b == Responds(StillPending) <==>
                exists r :: r in g.pending && r.id == requestId && r.preAuth == Some(preAuth))
            && (b == Responds(NotFound) <==>
                && preAuth != "" && preAuth !in g.approved
                && forall r :: r in g.pending ==> r.id != requestId || r.preAuth != Some(preAuth))
            && (b.Wants? <==> preAuth in g.approved)
            && (b.Wants? ==>
                exists n :: Owns(g, n, g.approved[preAuth])
                            && b == Wants(Task(Consume(preAuth), Some(HandOut(preAuth, g.approved[preAuth], n)))))
  {
    if r :| r in g.pending && r.id == requestId && r.preAuth == Some(preAuth) {
      var i :| 0 <= i < |g.pending| && g.pending[i] == r;
      assert RequestOk(g, used, g.pending[i]) && AwaitsApproval(g.pending[i], requestId, preAuth);
    }
    if preAuth in g.approved {
      assert g.approved[preAuth] in g.index;
      var n := g.index[g.approved[preAuth]];
      assert Owns(g, n, g.approved[preAuth]) && n in g.members;
    }
  }

  // ---------------------------------------------------------------- remote agents

  lemma AddRemoteExactly(alnum: char -> bool, g: Members, used: set<string>, name: string, agentToken: string, url: string,
                         id: string, generated: string)
    requires Inv(g, used)
    ensures var o := Apply(alnum, AddRemote(name, agentToken, url), g, id, generated);
            && (o.result == Err(TooManyAgents) <==> |g.agents| + |g.remotes| >= MAX_AGENTS)
            && (o.result.Ok? <==>
                && |g.agents| + |g.remotes| < MAX_AGENTS && !HasMember(g, name)
                && (forall a :: a in g.agents ==> Fold(a) != Fold(name))
                && (forall r :: r in g.remotes ==> Fold(r.name) != Fold(name)))
            && (if o.result.Ok?
                then o == Outcome(g.(remotes := g.remotes + [Remote(name, agentToken, Some(url), None)]), Ok(Done(name)))
                else o.group == g)
  {
    AllAgentsCounted(g.agents, RemoteNames(g.remotes));
    TakenMeans(g.agents, name);
    TakenMeans(g.members, name);
    RemoteTaken(g.remotes, name);
  }

  lemma RemoteOnce(g: Members, used: set<string>, name: string)
    requires Inv(g, used)
    ensures forall i: nat :: i < |g.remotes| && Fold(g.remotes[i].name) == Fold(name) <==> FindRemote(g.remotes, name) == Some(i)
  {
    forall i: nat, j: nat | i < j < |g.remotes| ensures Fold(g.remotes[i].name) != Fold(g.remotes[j].name) {
      assert RemoteNames(g.remotes)[i] == g.remotes[i].name && RemoteNames(g.remotes)[j] == g.remotes[j].name;
    }
  }

  lemma RemoveRemoteExactly(alnum: char -> bool, g: Members, used: set<string>, name: string, id: string, generated: string)
    requires Inv(g, used)
    ensures var o := Apply(alnum, RemoveRemote(name), g, id, generated);
            && (o.result.Ok? <==> exists r :: r in g.remotes && Fold(r.name) == Fold(name))
            && (o.result.Err? ==> o.group == g)
            && forall i: nat :: i < |g.remotes| && Fold(g.remotes[i].name) == Fold(name) ==>
                 o == Outcome(g.(remotes := g.remotes[..i] + g.remotes[i + 1..]), Ok(Done(name)))
  {
    RemoteOnce(g, used, name);
    RemoteTaken(g.remotes, name);
  }

  /** A heartbeat needs the token of the agent it is for, and touches that agent's time alone. */
  lemma HeartbeatExactly(alnum: char -> bool, g: Members, used: set<string>, name: string, agentToken: string, now: int,
                         id: string, generated: string)
    requires Inv(g, used)
    ensures var o := Apply(alnum, Heartbeat(name, agentToken, now), g, id, generated);
            && (o.result.Ok? <==> exists r :: r in g.remotes && Fold(r.name) == Fold(name) && r.token == agentToken)
            && (o.result == Err(RemoteNotFound) <==> forall r :: r in g.remotes ==> Fold(r.name) != Fold(name))
            && (o.result.Err? ==> o.group == g)
            && forall i: nat :: i < |g.remotes| && Fold(g.remotes[i].name) == Fold(name) && g.remotes[i].token == agentToken ==>
                 o == Outcome(g.(remotes := g.remotes[i := g.remotes[i].(lastHeartbeat := Some(now))]), Ok(Done(g.remotes[i].name)))
  {
    RemoteOnce(g, used, name);
    RemoteTaken(g.remotes, name);
    if r :| r in g.remotes && Fold(r.name) == Fold(name) && r.token == agentToken {
      var i: nat :| i < |g.remotes| && g.remotes[i] == r;
    }
  }

  lemma ConsumeExactly(alnum: char -> bool, g: Members, preAuth: string, id: string, generated: string)
    ensures var o := Apply(alnum, Consume(preAuth), g, id, generated);
            && (o.result.Ok? <==> preAuth in g.approved)
            && o.group.approved.Keys == g.approved.Keys - {preAuth}
            && (forall p :: p in o.group.approved ==> o.group.approved[p] == g.approved[p])
            && o.group == g.(approved := o.group.approved)
  {
  }

  // ---------------------------------------------------------------- handlers

  /** Which commands get as far as the lock: no new agent without a proper name and an address, and
      nobody joins without a name. */
  lemma DirectExactly(alnum: char -> bool, g: Members, c: Change)
    requires !c.RequestJoin? && !c.EnsureMember? && !c.Consume?
    ensures Begin(alnum, g, Direct(c))
            == if match c
                  case JoinLocal(name, _) => Trimmed(name) && name != ""
                  case AddRemote(name, _, url) => Trimmed(name) && Proper(alnum, name) && url != ""
                  case _ => true
               then Wants(Task(c, None)) else Responds(Refused)
  {
    if c.AddRemote? {
      ProperExactly(alnum, c.name);
    }
  }

  /** Whoever ends or dies holds no lock and is gone. */
  lemma LockDropped(alnum: char -> bool, s: System, step: Step)
    requires Enabled(s, step) && (step.Release? || step.Die?)
    ensures var n := Next(alnum, s, step);
            && n.holder != Some(step.tid) && step.tid !in n.threads
            && (s.holder != Some(step.tid) ==> n.holder == s.holder)
            && n.stored == s.stored && n.history == s.history
  {
  }

  ghost predicate Goes(alnum: char -> bool, s: System, step: Step, n: System) {
    Enabled(s, step) && n == Next(alnum, s, step)
  }

  lemma TakesLock(alnum: char -> bool, s: System, t: Tid, call: Call, task: Task) returns (a: System, b: System, c: System)
    requires s.holder == None && t !in s.threads && Begin(alnum, Loaded(s.stored), call) == Wants(task)
    ensures Goes(alnum, s, Enter(t, call), a) && Goes(alnum, a, Acquire(t), b) && Goes(alnum, b, Load(t), c)
    ensures c == s.(holder := Some(t), threads := s.threads[t := Working(task, Loaded(s.stored))])
  {
    a := s.(threads := s.threads[t := Waiting(task)]);
    b := s.(holder := Some(t), threads := s.threads[t := Holding(task)]);
    c := s.(holder := Some(t), threads := s.threads[t := Working(task, Loaded(s.stored))]);
    assert a.threads[t := Holding(task)] == b.threads && b.threads[t := Working(task, Loaded(s.stored))] == c.threads;
  }

  lemma DropsLock(alnum: char -> bool, s: System, t: Tid, task: Task, id: string, generated: string) returns (d: System, e: System)
    requires s.holder == Some(t) && t in s.threads && s.threads[t] == Working(task, Loaded(s.stored))
    requires Unused(s.used, id, generated)
    ensures Goes(alnum, s, Work(t, id, generated), d) && Goes(alnum, d, Release(t), e)
    ensures e.stored == Modified(alnum, task.change, s.stored, id, generated)
    ensures e.holder == None && e.threads == s.threads - {t}
  {
    d := Next(alnum, s, Work(t, id, generated));
    e := Next(alnum, d, Release(t));
    assert (s.threads[t := Finishing]) - {t} == s.threads - {t};
  }

  /** With the lock free, a handler that wants a change gets it done in five steps of its own, and
      leaves the file as the closure makes it and the lock free. */
  lemma HandlerGetsThrough(alnum: char -> bool, s: System, t: Tid, call: Call, task: Task, id: string, generated: string)
    returns (a: System, b: System, c: System, d: System, e: System)
    requires s.holder == None && t !in s.threads && Unused(s.used, id, generated)
    requires Begin(alnum, Loaded(s.stored), call) == Wants(task)
    ensures Goes(alnum, s, Enter(t, call), a) && Goes(alnum, a, Acquire(t), b) && Goes(alnum, b, Load(t), c)
    ensures Goes(alnum, c, Work(t, id, generated), d) && Goes(alnum, d, Release(t), e)
    ensures e.stored == Modified(alnum, task.change, s.stored, id, generated)
    ensures e.holder == None && e.threads == s.threads
  {
    a, b, c := TakesLock(alnum, s, t, call, task);
    d, e := DropsLock(alnum, c, t, task, id, generated);
    assert c.threads - {t} == s.threads;
  }
}
