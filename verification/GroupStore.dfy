/** The mutable group and the file it is kept in. */
module GroupStore {
  import opened Text
  import opened Group

  class GroupRecord {
    var inviteToken: string
    var members: seq<string>
    var memberTokens: map<string, string>
    var memberTokenIndex: map<string, string>
    var pendingJoins: seq<JoinRequest>
    var agents: seq<string>
    var remoteAgents: seq<Remote>
    var approvedMemberTokens: map<string, string>

    function Value(): Members
      reads this
    {
      Members(inviteToken, members, memberTokens, memberTokenIndex, pendingJoins, agents, remoteAgents, approvedMemberTokens)
    }

    /** Reads a saved group; the index comes later. */
    constructor (g: Members)
      ensures Value() == Saved(g)
    {
      inviteToken, members, memberTokens, memberTokenIndex := g.invite, g.members, g.tokens, map[];
      pendingJoins, agents, remoteAgents, approvedMemberTokens := g.pending, g.agents, g.remotes, g.approved;
    }

    /** Rebuilds the index, whatever order the map is walked in. */
    method RecomputeMemberTokenIndex()
      modifies this`memberTokenIndex
      ensures IsIndex(memberTokens, memberTokenIndex)
      ensures Injective(memberTokens) ==> memberTokenIndex == Inverse(memberTokens)
    {
      memberTokenIndex := map[];
      var todo := memberTokens.Keys;
      while todo != {}
        invariant todo <= memberTokens.Keys
        invariant forall n :: n in memberTokens && n !in todo ==> memberTokens[n] in memberTokenIndex
        invariant forall t :: t in memberTokenIndex ==>
                    memberTokenIndex[t] in memberTokens && memberTokens[memberTokenIndex[t]] == t
      {
        var name :| name in todo;
        memberTokenIndex := memberTokenIndex[memberTokens[name] := name];
        todo := todo - {name};
      }
      if Injective(memberTokens) {
        IndexUnique(memberTokens, memberTokenIndex);
      }
    }

    /** Compares with every entry and still finds the one that matches. */
    method ValidateMemberToken(token: string) returns (matched: Option<string>)
      ensures matched == Token(Value(), token)
    {
      matched := None;
      var todo := memberTokenIndex.Keys;
      while todo != {}
        invariant todo <= memberTokenIndex.Keys
        invariant matched == if token in memberTokenIndex && token !in todo then Some(memberTokenIndex[token]) else None
      {
        var stored :| stored in todo;
        if stored == token {
          matched := Some(memberTokenIndex[stored]);
        }
        todo := todo - {stored};
      }
    }

    method IssueMemberToken(alnum: char -> bool, name: string, generated: string) returns (r: Result<string, Error>)
      modifies this
      ensures Outcome(Value(), r) == IssueToken(alnum, old(Value()), name, generated)
    {
      var n := Trim(name);
      var e := MemberNameError(alnum, Value(), n);
      if e.Some? {
        return Err(e.value);
      }
      var found := FindName(members, n);
      var canonical := if found.Some? then found.value else n;
      if !Taken(members, canonical) {
        members := members + [canonical];
      }
      if canonical !in memberTokens {
        memberTokens := memberTokens[canonical := generated];
      }
      var token := memberTokens[canonical];
      assert memberTokens == old(memberTokens)[canonical := token];
      memberTokenIndex := memberTokenIndex[token := canonical];
      return Ok(token);
    }

    method AddJoinRequest(alnum: char -> bool, name: string, github: Option<string>, id: string, generated: string)
      returns (r: Result<string, Error>)
      modifies this
      ensures Outcome(Value(), r) == AddJoin(alnum, old(Value()), name, github, id, generated)
    {
      var e := MemberNameError(alnum, Value(), name);
      if e.Some? {
        return Err(e.value);
      }
      var n := Trim(name);
      if Taken(members, n) {
        return Err(AlreadyMember);
      }
      if Taken(PendingNames(pendingJoins), n) {
        return Err(AlreadyPending);
      }
      pendingJoins := pendingJoins + [JoinRequest(id, n, NonEmpty(github), Some(generated))];
      return Ok(id);
    }

    method ApproveJoinRequest(alnum: char -> bool, requestId: string, preAuth: string, generated: string)
      returns (r: Result<(string, string), Error>)
      modifies this
      ensures Outcome(Value(), r) == Approve(alnum, old(Value()), requestId, preAuth, generated)
    {
      var pos := FindRequest(pendingJoins, requestId);
      if pos.None? {
        return Err(RequestNotFound);
      }
      var req := pendingJoins[pos.value];
      pendingJoins := Remove(pendingJoins, pos.value);
      if req.preAuth.Some? && preAuth != "" && preAuth != req.preAuth.value {
        return Err(PreAuthMismatch);
      }
      var token := IssueMemberToken(alnum, req.name, generated);
      if token.Err? {
        return Err(token.error);
      }
      if preAuth != "" {
        approvedMemberTokens := approvedMemberTokens[preAuth := token.value];
      }
      return Ok((req.name, token.value));
    }

    method CollectAgentNames() returns (names: seq<string>)
      ensures names == AllAgentNames(agents, RemoteNames(remoteAgents))
    {
      names := agents;
      var rest := RemoteNames(remoteAgents);
      while rest != []
        invariant AllAgentNames(names, rest) == AllAgentNames(agents, RemoteNames(remoteAgents))
        decreases |rest|
      {
        if !Taken(names, rest[0]) {
          names := names + [rest[0]];
        }
        rest := rest[1..];
      }
    }

    method AddRemoteAgentLocked(name: string, agentToken: string, url: string) returns (r: Result<string, Error>)
      modifies this
      ensures Outcome(Value(), r) == AddRemoteAgent(old(Value()), name, agentToken, url)
    {
      var names := CollectAgentNames();
      if |names| >= MAX_AGENTS {
        return Err(TooManyAgents);
      }
      if Taken(agents, name) || Taken(RemoteNames(remoteAgents), name) || Taken(members, name) {
        return Err(NameInUse);
      }
      remoteAgents := remoteAgents + [Remote(name, agentToken, Some(url), None)];
      return Ok(name);
    }

    method RemoveRemoteAgentLocked(name: string) returns (r: Result<string, Error>)
      modifies this
      ensures Outcome(Value(), r) == RemoveRemoteAgent(old(Value()), name)
    {
      var pos := FindRemote(remoteAgents, name);
      if pos.None? {
        return Err(RemoteNotFound);
      }
      remoteAgents := Remove(remoteAgents, pos.value);
      return Ok(name);
    }

    method HeartbeatLocked(name: string, agentToken: string, now: int) returns (r: Result<string, Error>)
      modifies this
      ensures Outcome(Value(), r) == Beat(old(Value()), name, agentToken, now)
    {
      var pos := FindRemote(remoteAgents, name);
      if pos.None? {
        return Err(RemoteNotFound);
      }
      var i := pos.value;
      if agentToken != remoteAgents[i].token {
        return Err(InvalidAgentToken);
      }
      remoteAgents := remoteAgents[i := remoteAgents[i].(lastHeartbeat := Some(now))];
      return Ok(remoteAgents[i].name);
    }

    method ConsumeLocked(preAuth: string) returns (r: Result<string, Error>)
      modifies this
      ensures Outcome(Value(), r) == ConsumeApproval(old(Value()), preAuth)
    {
      if preAuth !in approvedMemberTokens {
        return Err(NotApproved);
      }
      approvedMemberTokens := approvedMemberTokens - {preAuth};
      return Ok(preAuth);
    }

    method ApproveChecked(alnum: char -> bool, c: Change, generated: string) returns (r: Result<(string, string), Error>)
      requires c.ApproveByToken? || c.ApproveByName?
      modifies this
      ensures Replied(Outcome(Value(), r), ApproveReply()) == Apply(alnum, c, old(Value()), "", generated)
    {
      var approver := ValidateMemberToken(c.token);
      if approver.None? {
        return Err(InvalidToken);
      }
      var preAuth := "";
      if c.ApproveByToken? {
        var p := PreAuthOf(Value(), c.requestId);
        preAuth := if p.Some? then p.value else "";
      } else if Fold(Trim(c.approver)) != Fold(Trim(approver.value)) {
        return Err(ApproverMismatch);
      }
      r := ApproveJoinRequest(alnum, c.requestId, preAuth, generated);
    }

    method JoinOrRequest(alnum: char -> bool, name: string, github: Option<string>, id: string, generated: string)
      returns (r: Result<Reply, Error>)
      modifies this
      ensures Outcome(Value(), r) == Apply(alnum, JoinLocal(name, github), old(Value()), id, generated)
    {
      if members == [] || Taken(members, name) {
        var token := IssueMemberToken(alnum, name, generated);
        return if token.Ok? then Ok(Approved(name, token.value)) else Err(token.error);
      }
      var request := AddJoinRequest(alnum, name, github, id, generated);
      return if request.Ok? then Ok(Pending(request.value, None)) else Err(request.error);
    }

    /** Runs one closure on the loaded group. */
    method Run(alnum: char -> bool, c: Change, id: string, generated: string) returns (r: Result<Reply, Error>)
      modifies this
      ensures Outcome(Value(), r) == Apply(alnum, c, old(Value()), id, generated)
    {
      match c
      case RequestJoin(name, github) =>
        var o := AddJoinRequest(alnum, name, github, id, generated);
        r := if o.Ok? then Ok(Pending(o.value, PreAuthOf(Value(), id))) else Err(o.error);
      case JoinLocal(name, github) =>
        r := JoinOrRequest(alnum, name, github, id, generated);
      case EnsureMember(name) =>
        var o := IssueMemberToken(alnum, name, generated);
        r := if o.Ok? then Ok(Approved(name, o.value)) else Err(o.error);
      case ApproveByToken(_, _) =>
        var o := ApproveChecked(alnum, c, generated);
        r := if o.Ok? then Ok(Approved(o.value.0, o.value.1)) else Err(o.error);
      case ApproveByName(_, _, _) =>
        var o := ApproveChecked(alnum, c, generated);
        r := if o.Ok? then Ok(Approved(o.value.0, o.value.1)) else Err(o.error);
      case AddRemote(name, agentToken, url) =>
        var o := AddRemoteAgentLocked(name, agentToken, url);
        r := if o.Ok? then Ok(Done(o.value)) else Err(o.error);
      case RemoveRemote(name) =>
        var o := RemoveRemoteAgentLocked(name);
        r := if o.Ok? then Ok(Done(o.value)) else Err(o.error);
      case Heartbeat(name, agentToken, now) =>
        var o := HeartbeatLocked(name, agentToken, now);
        r := if o.Ok? then Ok(Done(o.value)) else Err(o.error);
      case Consume(preAuth) =>
        var o := ConsumeLocked(preAuth);
        r := if o.Ok? then Ok(Done(o.value)) else Err(o.error);
    }
  }

  class GroupFile {
    var stored: Members

    /** `modify_group` between taking and dropping the lock: a failing closure
        leaves the file as it was, even if it had begun to change its copy. */
    method ModifyGroup(alnum: char -> bool, c: Change, id: string, generated: string) returns (r: Result<Reply, Error>)
      modifies this
      ensures r.Err? ==> stored == old(stored)
      ensures Injective(old(stored).tokens) ==>
                && stored == Modified(alnum, c, old(stored), id, generated)
                && r == Apply(alnum, c, Loaded(old(stored)), id, generated).result
    {
      var group := new GroupRecord(stored);
      group.RecomputeMemberTokenIndex();
      assert Injective(stored.tokens) ==> group.Value() == Loaded(stored);
      r := group.Run(alnum, c, id, generated);
      if r.Ok? {
        var g := group.Value();
        group.RecomputeMemberTokenIndex();
        assert Saved(group.Value()) == Saved(g);
        stored := Saved(group.Value());
      }
    }
  }
}
