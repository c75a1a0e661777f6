/** What every locked modification of a group keeps. */
module GroupInvariants {
  import opened Text
  import opened Group

  /** Members differ ignoring ASCII case and are named like no agent; so do
      remote agents; there are at most `MAX_AGENTS` agents in all. */
  predicate NamesOk(g: Members) {
    && g.members != [] && "" !in g.members && AllTrimmed(g.members)
    && FoldDistinct(g.members)
    && NoneShared(g.members, g.agents)
    && NoneShared(g.members, RemoteNames(g.remotes))
    && RemotesOk(g)
  }

  predicate AllTrimmed(names: seq<string>) {
    forall i :: 0 <= i < |names| ==> Trimmed(names[i])
  }

  predicate RemotesOk(g: Members) {
    && FoldDistinct(RemoteNames(g.remotes))
    && NoneShared(g.agents, RemoteNames(g.remotes))
    && |g.agents| + |g.remotes| <= MAX_AGENTS
  }

  /** Pending names differ ignoring ASCII case and none is a member. */
  predicate PendingOk(g: Members) {
    && FoldDistinct(PendingNames(g.pending))
    && NoneShared(PendingNames(g.pending), g.members)
    && forall i :: 0 <= i < |g.pending| ==> Trimmed(g.pending[i].name)
  }

  /** Exactly the members have tokens, and the index is the exact inverse. */
  ghost predicate TokensOk(g: Members) {
    && (forall n :: n in g.tokens <==> n in g.members)
    && (forall n :: n in g.tokens ==> g.tokens[n] in g.index && g.index[g.tokens[n]] == n)
    && IsIndex(g.tokens, g.index)
  }

  /** Every approved token is a current member's. */
  predicate ApprovedOk(g: Members) {
    forall p :: p in g.approved ==> g.approved[p] in g.index
  }

  /** Requests carry different ids and different non-empty pre-auth tokens, none
      of them approved yet; everything generated so far is in `used`. */
  ghost predicate GeneratedOk(g: Members, used: set<string>) {
    && (forall n :: n in g.tokens ==> g.tokens[n] in used)
    && (forall p :: p in g.approved ==> p in used && p != "")
    && (forall i :: 0 <= i < |g.pending| ==> RequestOk(g, used, g.pending[i]))
    && (forall i, j :: 0 <= i < j < |g.pending| ==>
          g.pending[i].id != g.pending[j].id && g.pending[i].preAuth != g.pending[j].preAuth)
  }

  predicate RequestOk(g: Members, used: set<string>, r: JoinRequest) {
    r.id in used && r.preAuth.Some? && r.preAuth.value in used && r.preAuth.value != "" && r.preAuth.value !in g.approved
  }

  ghost predicate Inv(g: Members, used: set<string>) {
    NamesOk(g) && PendingOk(g) && TokensOk(g) && ApprovedOk(g) && GeneratedOk(g, used)
  }

  predicate Unused(used: set<string>, id: string, generated: string) {
    id !in used && generated !in used && id != generated && generated != ""
  }

  lemma BuiltInv(alnum: char -> bool, lower: string -> string, names: seq<string>, host: string, hostToken: string, invite: string)
    requires CreateOk(alnum, lower, names, host)
    ensures Inv(Built(names, host, hostToken, invite), {hostToken})
  {
  }

  // ---------------------------------------------------------------- names

  lemma TakenLast(names: seq<string>, n: string)
    requires FoldDistinct(names) && !Taken(names, n)
    ensures FoldDistinct(names + [n])
  {
  }

  lemma NoneSharedLast(a: seq<string>, n: string, b: seq<string>)
    requires NoneShared(a, b) && !Taken(b, n)
    ensures NoneShared(a + [n], b)
  {
  }

  lemma DistinctRemove(names: seq<string>, i: nat)
    requires FoldDistinct(names) && i < |names|
    ensures FoldDistinct(Remove(names, i)) && !Taken(Remove(names, i), names[i])
  {
  }

  lemma NoneSharedRemove(a: seq<string>, i: nat, b: seq<string>)
    requires NoneShared(a, b) && i < |a|
    ensures NoneShared(Remove(a, i), b) && !Taken(b, a[i])
  {
  }

  lemma NoneSharedSwap(a: seq<string>, b: seq<string>)
    requires NoneShared(a, b)
    ensures NoneShared(b, a)
  {
  }

  lemma RemoteNamesLast(rs: seq<Remote>, r: Remote)
    ensures RemoteNames(rs + [r]) == RemoteNames(rs) + [r.name]
  {
  }

  lemma PendingNamesLast(rs: seq<JoinRequest>, r: JoinRequest)
    ensures PendingNames(rs + [r]) == PendingNames(rs) + [r.name]
  {
  }

  lemma {:induction false} AllAgentsCounted(names: seq<string>, remotes: seq<string>)
    requires FoldDistinct(remotes) && NoneShared(names, remotes)
    ensures |AllAgentNames(names, remotes)| == |names| + |remotes|
    decreases |remotes|
  {
    if remotes != [] {
      assert !Taken(names, remotes[0]);
      var rest := remotes[1..];
      forall j | 0 <= j < |rest| ensures Fold(remotes[0]) != Fold(rest[j]) {
        assert rest[j] == remotes[j + 1];
      }
      AllAgentsCounted(names + [remotes[0]], rest);
    }
  }

  // ---------------------------------------------------------------- tokens

  /** The group with one more member. */
  function WithMember(g: Members, n: string, token: string): Members {
    g.(members := g.members + [n], tokens := g.tokens[n := token], index := g.index[token := n])
  }

  /** Issuing a token to a member gives back the one there is and changes nothing. */
  lemma IssueExisting(alnum: char -> bool, g: Members, name: string, generated: string)
    requires TokensOk(g) && Taken(g.members, Trim(name)) && MemberNameError(alnum, g, Trim(name)).None?
    ensures var m := FindName(g.members, Trim(name)).value;
            m in g.tokens && IssueToken(alnum, g, name, generated) == Outcome(g, Ok(g.tokens[m]))
  {
    var m := FindName(g.members, Trim(name)).value;
    assert m in g.members && m in g.tokens;
    MemberTaken(g.members, m);
    assert g.tokens[m := g.tokens[m]] == g.tokens;
    assert g.index[g.tokens[m] := m] == g.index;
  }

  lemma MemberTaken(names: seq<string>, n: string)
    requires n in names
    ensures Taken(names, n)
  {
  }

  lemma IssueNew(alnum: char -> bool, g: Members, name: string, generated: string)
    requires TokensOk(g) && !Taken(g.members, Trim(name)) && MemberNameError(alnum, g, Trim(name)).None?
    ensures IssueToken(alnum, g, name, generated) == Outcome(WithMember(g, Trim(name), generated), Ok(generated))
  {
  }

  lemma WithMemberTokens(g: Members, n: string, token: string)
    requires TokensOk(g) && n !in g.members && token !in g.tokens.Values
    ensures TokensOk(WithMember(g, n, token))
  {
  }

  lemma WithMemberNames(g: Members, n: string, token: string)
    requires NamesOk(g) && n != "" && Trimmed(n) && !Taken(g.members, n) && !Taken(g.agents, n) && !Taken(RemoteNames(g.remotes), n)
    ensures NamesOk(WithMember(g, n, token))
  {
  }

  /** Saving forgets the index and loading recovers it. */
  lemma LoadSaved(g: Members)
    requires TokensOk(g)
    ensures Loaded(Saved(g)) == g
  {
  }

  // ---------------------------------------------------------------- requests

  lemma AddJoinInv(alnum: char -> bool, g: Members, used: set<string>, name: string, github: Option<string>, id: string, generated: string)
    requires Inv(g, used) && Unused(used, id, generated)
    requires AddJoin(alnum, g, name, github, id, generated).result.Ok?
    ensures Inv(AddJoin(alnum, g, name, github, id, generated).group, used + {id, generated})
  {
    var n := Trim(name);
    var r := JoinRequest(id, n, NonEmpty(github), Some(generated));
    PendingNamesLast(g.pending, r);
    TakenLast(PendingNames(g.pending), n);
    NoneSharedLast(PendingNames(g.pending), n, g.members);
  }

  lemma RemoveRequestGenerated(g: Members, used: set<string>, pos: nat)
    requires GeneratedOk(g, used) && pos < |g.pending|
    ensures var h := g.(pending := Remove(g.pending, pos));
            && GeneratedOk(h, used)
            && forall i :: 0 <= i < |h.pending| ==> h.pending[i].preAuth != g.pending[pos].preAuth
  {
  }

  lemma RemoveRequestPending(g: Members, pos: nat)
    requires PendingOk(g) && pos < |g.pending|
    ensures var h := g.(pending := Remove(g.pending, pos));
            && PendingOk(h)
            && !Taken(PendingNames(h.pending), g.pending[pos].name)
            && !Taken(g.members, g.pending[pos].name)
  {
  }

  lemma RemoveRequestInv(g: Members, used: set<string>, pos: nat)
    requires Inv(g, used) && pos < |g.pending|
    ensures Inv(g.(pending := Remove(g.pending, pos)), used)
  {
    RemoveRequestGenerated(g, used, pos);
    RemoveRequestPending(g, pos);
  }

  lemma WithMemberInv(g: Members, used: set<string>, n: string, token: string)
    requires Inv(g, used) && token !in used && n != "" && Trimmed(n)
    requires !Taken(g.members, n) && !Taken(g.agents, n) && !Taken(RemoteNames(g.remotes), n)
    requires !Taken(PendingNames(g.pending), n)
    ensures Inv(WithMember(g, n, token), used + {token})
  {
    var h := WithMember(g, n, token);
    if n in g.members {
      MemberTaken(g.members, n);
    }
    WithMemberTokens(g, n, token);
    WithMemberNames(g, n, token);
    NoneSharedSwap(PendingNames(g.pending), g.members);
    NoneSharedLast(g.members, n, PendingNames(g.pending));
    NoneSharedSwap(h.members, PendingNames(h.pending));
    assert GeneratedOk(h, used + {token});
  }

  /** The pending request that an approval grants becomes a new member whose
      token is the generated one. */
  lemma ApproveGrants(alnum: char -> bool, g: Members, used: set<string>, id: string, preAuth: string, generated: string)
    requires Inv(g, used) && generated !in used
    requires Approve(alnum, g, id, preAuth, generated).result.Ok?
    ensures FindRequest(g.pending, id).Some?
    ensures var pos := FindRequest(g.pending, id).value;
            var req := g.pending[pos];
            var h := WithMember(g.(pending := Remove(g.pending, pos)), req.name, generated);
            && Approve(alnum, g, id, preAuth, generated)
               == Outcome(if preAuth == "" then h else h.(approved := h.approved[preAuth := generated]),
                          Ok((req.name, generated)))
            && (preAuth != "" ==> req.preAuth == Some(preAuth))
            && Inv(h, used + {generated})
            && RequestOk(g, used, req)
            && forall i :: 0 <= i < |h.pending| ==> h.pending[i].preAuth != req.preAuth
  {
    var pos := FindRequest(g.pending, id).value;
    var req := g.pending[pos];
    var g1 := g.(pending := Remove(g.pending, pos));
    RemoveRequestInv(g, used, pos);
    RemoveRequestGenerated(g, used, pos);
    RemoveRequestPending(g, pos);
    IssueNew(alnum, g1, req.name, generated);
    WithMemberInv(g1, used, req.name, generated);
  }

  lemma ApprovedInsert(h: Members, used: set<string>, preAuth: string, token: string)
    requires Inv(h, used) && preAuth in used && preAuth != "" && token in h.index
    requires forall i :: 0 <= i < |h.pending| ==> h.pending[i].preAuth != Some(preAuth)
    ensures Inv(h.(approved := h.approved[preAuth := token]), used)
  {
  }

  lemma ApproveInv(alnum: char -> bool, g: Members, used: set<string>, id: string, preAuth: string, generated: string)
    requires Inv(g, used) && generated !in used
    requires Approve(alnum, g, id, preAuth, generated).result.Ok?
    ensures Inv(Approve(alnum, g, id, preAuth, generated).group, used + {generated})
  {
    ApproveGrants(alnum, g, used, id, preAuth, generated);
    var pos := FindRequest(g.pending, id).value;
    var h := WithMember(g.(pending := Remove(g.pending, pos)), g.pending[pos].name, generated);
    if preAuth != "" {
      ApprovedInsert(h, used + {generated}, preAuth, generated);
    }
  }

  // ---------------------------------------------------------------- agents and approvals

  lemma AddRemoteInv(g: Members, used: set<string>, name: string, agentToken: string, url: string)
    requires Inv(g, used) && AddRemoteAgent(g, name, agentToken, url).result.Ok?
    ensures Inv(AddRemoteAgent(g, name, agentToken, url).group, used)
  {
    var r := Remote(name, agentToken, Some(url), None);
    var names := RemoteNames(g.remotes);
    AllAgentsCounted(g.agents, names);
    RemoteNamesLast(g.remotes, r);
    TakenLast(names, name);
    NoneSharedSwap(g.members, names);
    NoneSharedLast(names, name, g.members);
    NoneSharedSwap(names + [name], g.members);
    NoneSharedSwap(g.agents, names);
    NoneSharedLast(names, name, g.agents);
    NoneSharedSwap(names + [name], g.agents);
    assert NamesOk(g.(remotes := g.remotes + [r]));
  }

  lemma RemoveRemoteInv(g: Members, used: set<string>, name: string)
    requires Inv(g, used) && RemoveRemoteAgent(g, name).result.Ok?
    ensures Inv(RemoveRemoteAgent(g, name).group, used)
  {
    var i := FindRemote(g.remotes, name).value;
    var h := g.(remotes := Remove(g.remotes, i));
    var names := RemoteNames(g.remotes);
    assert RemoteNames(h.remotes) == Remove(names, i);
    DistinctRemove(names, i);
    NoneSharedSwap(g.members, names);
    NoneSharedRemove(names, i, g.members);
    NoneSharedSwap(Remove(names, i), g.members);
    NoneSharedSwap(g.agents, names);
    NoneSharedRemove(names, i, g.agents);
    NoneSharedSwap(Remove(names, i), g.agents);
    assert NamesOk(h);
  }

  lemma BeatInv(g: Members, used: set<string>, name: string, agentToken: string, now: int)
    requires Inv(g, used) && Beat(g, name, agentToken, now).result.Ok?
    ensures Inv(Beat(g, name, agentToken, now).group, used)
  {
    var h := Beat(g, name, agentToken, now).group;
    assert RemoteNames(h.remotes) == RemoteNames(g.remotes);
  }

  lemma ConsumeInv(g: Members, used: set<string>, preAuth: string)
    requires Inv(g, used)
    ensures Inv(g.(approved := g.approved - {preAuth}), used)
  {
  }

  lemma MoreUsed(g: Members, used: set<string>, more: set<string>)
    requires Inv(g, used)
    ensures Inv(g, used + more)
  {
  }

  lemma FoldTrimmed(a: string, b: string)
    requires Fold(a) == Fold(b) && Trimmed(a)
    ensures Trimmed(b)
  {
    if b != "" {
      assert AsciiLower(a[0]) == Fold(a)[0] == AsciiLower(b[0]);
      assert AsciiLower(a[|a| - 1]) == Fold(a)[|a| - 1] == AsciiLower(b[|b| - 1]);
    }
  }

  /** Whatever equals a member's name has no white space around it either. */
  lemma TakenTrimmed(names: seq<string>, name: string)
    requires AllTrimmed(names) && Taken(names, name)
    ensures Trim(name) == name
  {
    var i :| 0 <= i < |names| && Fold(names[i]) == Fold(name);
    FoldTrimmed(names[i], name);
  }

  lemma IssueInv(alnum: char -> bool, g: Members, used: set<string>, name: string, generated: string)
    requires Inv(g, used) && (Taken(g.members, name) || Taken(g.members, Trim(name)))
    requires IssueToken(alnum, g, name, generated).result.Ok?
    ensures IssueToken(alnum, g, name, generated).group == g
  {
    if Taken(g.members, name) {
      TakenTrimmed(g.members, name);
    }
    IssueExisting(alnum, g, name, generated);
  }

  // ---------------------------------------------------------------- every modification

  /** The closure for a group without members makes a member of somebody whose request is
      pending. */
  predicate OutOfTurn(g: Members, c: Change) {
    c.EnsureMember? && !Taken(g.members, Trim(c.name)) && Taken(PendingNames(g.pending), Trim(c.name))
  }

  lemma EnsureInv(alnum: char -> bool, g: Members, used: set<string>, name: string, id: string, generated: string)
    requires Inv(g, used) && Unused(used, id, generated)
    requires IssueToken(alnum, g, name, generated).result.Ok?
    ensures Inv(IssueToken(alnum, g, name, generated).group, used + {id, generated})
            <==> !OutOfTurn(g, EnsureMember(name))
  {
    var n := Trim(name);
    if Taken(g.members, n) {
      IssueInv(alnum, g, used, name, generated);
      MoreUsed(g, used, {id, generated});
    } else {
      IssueNew(alnum, g, name, generated);
      var h := WithMember(g, n, generated);
      if Taken(PendingNames(g.pending), n) {
        var i :| 0 <= i < |g.pending| && Fold(PendingNames(g.pending)[i]) == Fold(n);
        assert h.members[|g.members|] == n;
        assert !NoneShared(PendingNames(h.pending), h.members);
      } else {
        WithMemberInv(g, used, n, generated);
        MoreUsed(h, used + {generated}, {id});
        assert used + {generated} + {id} == used + {id, generated};
      }
    }
  }

  /** A successful closure keeps the group consistent, whatever it is asked to do, unless it
      is the closure for a group without members and comes out of turn. */
  lemma ApplyInv(alnum: char -> bool, c: Change, g: Members, used: set<string>, id: string, generated: string)
    requires Inv(g, used) && Unused(used, id, generated)
    requires Apply(alnum, c, g, id, generated).result.Ok?
    ensures Inv(Apply(alnum, c, g, id, generated).group, used + {id, generated}) <==> !OutOfTurn(g, c)
  {
    if c.EnsureMember? {
      EnsureInv(alnum, g, used, c.name, id, generated);
    } else {
      RegularInv(alnum, c, g, used, id, generated);
    }
  }

  lemma RegularInv(alnum: char -> bool, c: Change, g: Members, used: set<string>, id: string, generated: string)
    requires Inv(g, used) && Unused(used, id, generated) && !c.EnsureMember?
    requires Apply(alnum, c, g, id, generated).result.Ok?
    ensures Inv(Apply(alnum, c, g, id, generated).group, used + {id, generated})
  {
    var more := {id, generated};
    match c
    case RequestJoin(name, github) => AddJoinInv(alnum, g, used, name, github, id, generated);
    case JoinLocal(name, github) =>
      if Taken(g.members, name) {
        IssueInv(alnum, g, used, name, generated);
        MoreUsed(g, used, more);
      } else {
        AddJoinInv(alnum, g, used, name, github, id, generated);
      }
    case ApproveByToken(token, requestId) =>
      var preAuth := PreAuthOf(g, requestId);
      ApproveLocked(alnum, g, used, requestId, if preAuth.Some? then preAuth.value else "", id, generated);
    case ApproveByName(approver, token, requestId) => ApproveLocked(alnum, g, used, requestId, "", id, generated);
    case AddRemote(name, agentToken, url) =>
      AddRemoteInv(g, used, name, agentToken, url);
      MoreUsed(AddRemoteAgent(g, name, agentToken, url).group, used, more);
    case RemoveRemote(name) =>
      RemoveRemoteInv(g, used, name);
      MoreUsed(RemoveRemoteAgent(g, name).group, used, more);
    case Heartbeat(name, agentToken, now) =>
      BeatInv(g, used, name, agentToken, now);
      MoreUsed(Beat(g, name, agentToken, now).group, used, more);
    case Consume(preAuth) =>
      ConsumeInv(g, used, preAuth);
      MoreUsed(ConsumeApproval(g, preAuth).group, used, more);
  }

  lemma ApproveLocked(alnum: char -> bool, g: Members, used: set<string>, requestId: string, preAuth: string, id: string, generated: string)
    requires Inv(g, used) && generated !in used
    requires Approve(alnum, g, requestId, preAuth, generated).result.Ok?
    ensures Inv(Approve(alnum, g, requestId, preAuth, generated).group, used + {id, generated})
  {
    ApproveInv(alnum, g, used, requestId, preAuth, generated);
    MoreUsed(Approve(alnum, g, requestId, preAuth, generated).group, used + {generated}, {id});
    assert used + {generated} + {id} == used + {id, generated};
  }
}
