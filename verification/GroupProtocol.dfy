/** Concurrent handlers over one group file.

    A handler may read the file without the lock to decide what to do. Every
    change is made by taking the lock, loading, running a closure, saving if it
    succeeded, and dropping the lock. Steps of different handlers interleave
    freely and a handler may die at any point, which also drops its lock. */
module GroupProtocol {
  import opened Text
  import opened Group
  import opened GroupInvariants

  type Tid = nat

  // ---------------------------------------------------------------- handlers

  datatype Call =
    | JoinCall(token: string, name: string, github: Option<string>)
    | StatusCall(requestId: string, preAuth: string)
    | Direct(change: Change)

  /** A member token promised to whoever presented `preAuth`. */
  datatype HandOut = HandOut(preAuth: string, token: string, name: string)

  datatype Task = Task(change: Change, promise: Option<HandOut>)

  datatype Response = Refused | AlreadyIn | StillPending | NotFound | Inconsistent

  datatype Begun = Responds(response: Response) | Wants(task: Task)

  function BeginJoin(alnum: char -> bool, g: Members, token: string, name: string, github: Option<string>): Begun {
    if token != g.invite && Token(g, token).None? then Responds(Refused)
    else if !ValidHuman(alnum, Trim(name)) then Responds(Refused)
    else if g.members == [] then Wants(Task(EnsureMember(Trim(name)), None))
    else if Taken(g.members, Trim(name)) then Responds(AlreadyIn)
    else Wants(Task(RequestJoin(Trim(name), NonEmpty(github)), None))
  }

  predicate AwaitsApproval(r: JoinRequest, requestId: string, preAuth: string) {
    r.id == requestId && r.preAuth == Some(preAuth)
  }

  function BeginStatus(g: Members, requestId: string, preAuth: string): Begun {
    if preAuth == "" then Responds(Refused)
    else if preAuth in g.approved then
      var token := g.approved[preAuth];
      var name := Token(g, token);
      if name.None? || name.value == "" then Responds(Inconsistent)
      else Wants(Task(Consume(preAuth), Some(HandOut(preAuth, token, name.value))))
    else if exists i :: 0 <= i < |g.pending| && AwaitsApproval(g.pending[i], requestId, preAuth) then
      Responds(StillPending)
    else Responds(NotFound)
  }

  /** Commands that need no snapshot. */
  predicate DirectOk(alnum: char -> bool, c: Change) {
    match c
    case JoinLocal(name, _) => Trimmed(name) && name != ""
    case AddRemote(name, _, url) => Trimmed(name) && ValidHuman(alnum, name) && url != ""
    case RequestJoin(_, _) => false
    case EnsureMember(_) => false
    case Consume(_) => false
    case _ => true
  }

  function Begin(alnum: char -> bool, g: Members, call: Call): Begun {
    match call
    case JoinCall(token, name, github) => BeginJoin(alnum, g, token, name, github)
    case StatusCall(requestId, preAuth) => BeginStatus(g, requestId, preAuth)
    case Direct(c) => if DirectOk(alnum, c) then Wants(Task(c, None)) else Responds(Refused)
  }

  // ---------------------------------------------------------------- the system

  datatype Phase = Waiting(task: Task) | Holding(task: Task) | Working(task: Task, local: Members) | Finishing

  datatype Grant = Grant(name: string, token: string)

  /** Who asked with which pre-auth token, which were granted, and what the
      status handler gave out. */
  datatype History = History(asked: map<string, string>, granted: map<string, Grant>, handed: seq<HandOut>)

  datatype Commit = Commit(change: Change, id: string, generated: string)

  datatype System = System(
    stored: Members,
    used: set<string>,
    holder: Option<Tid>,
    threads: map<Tid, Phase>,
    committed: seq<Commit>,
    history: History)

  datatype Step =
    | Enter(tid: Tid, call: Call)
    | Acquire(tid: Tid)
    | Load(tid: Tid)
    | Work(tid: Tid, id: string, generated: string)
    | Release(tid: Tid)
    | Die(tid: Tid)

  predicate Enabled(s: System, step: Step) {
    match step
    case Enter(t, _) => t !in s.threads
    case Acquire(t) => t in s.threads && s.threads[t].Waiting? && s.holder.None?
    case Load(t) => t in s.threads && s.threads[t].Holding?
    case Work(t, id, generated) => t in s.threads && s.threads[t].Working? && Unused(s.used, id, generated)
    case Release(t) => t in s.threads && s.threads[t].Finishing?
    case Die(t) => t in s.threads
  }

  /** The history after `c` has turned `g` into `h`. */
  function Recorded(hist: History, task: Task, g: Members, h: Members, generated: string): History {
    match task.change
    case ApproveByToken(_, requestId) =>
      var i := FindRequest(g.pending, requestId);
      if i.Some? && g.pending[i.value].preAuth.Some? then
        hist.(granted := hist.granted[g.pending[i.value].preAuth.value := Grant(g.pending[i.value].name, generated)])
      else hist
    case Consume(_) =>
      if task.promise.Some? then hist.(handed := hist.handed + [task.promise.value]) else hist
    case _ =>
      if |h.pending| > |g.pending| then hist.(asked := hist.asked[generated := h.pending[|g.pending|].name]) else hist
  }

  function Unlocked(s: System, t: Tid): Option<Tid> {
    if s.holder == Some(t) then None else s.holder
  }

  ghost function Next(alnum: char -> bool, s: System, step: Step): System
    requires Enabled(s, step)
  {
    match step
    case Enter(t, call) =>
      var b := Begin(alnum, Loaded(s.stored), call);
      if b.Responds? then s else s.(threads := s.threads[t := Waiting(b.task)])
    case Acquire(t) => s.(holder := Some(t), threads := s.threads[t := Holding(s.threads[t].task)])
    case Load(t) => s.(threads := s.threads[t := Working(s.threads[t].task, Loaded(s.stored))])
    case Work(t, id, generated) =>
      var task, g := s.threads[t].task, s.threads[t].local;
      var o := Apply(alnum, task.change, g, id, generated);
      var s1 := s.(used := s.used + {id, generated}, threads := s.threads[t := Finishing]);
      if o.result.Err? then s1
      else s1.(stored := Saved(o.group),
               committed := s.committed + [Commit(task.change, id, generated)],
               history := Recorded(s.history, task, g, o.group, generated))
    case Release(t) => s.(holder := Unlocked(s, t), threads := s.threads - {t})
    case Die(t) => s.(holder := Unlocked(s, t), threads := s.threads - {t})
  }

  function Initial(g: Members, used: set<string>): System {
    System(Saved(g), used, None, map[], [], History(map[], map[], []))
  }

  /** Runs `steps`; one that is not enabled has no effect. */
  ghost function Run(alnum: char -> bool, start: System, steps: seq<Step>): System {
    if steps == [] then start else
      var s := Run(alnum, start, steps[..|steps| - 1]);
      if Enabled(s, steps[|steps| - 1]) then Next(alnum, s, steps[|steps| - 1]) else s
  }

  /** The reference: the closures one after the other on one file. */
  ghost function Serial(alnum: char -> bool, stored: Members, commits: seq<Commit>): Members {
    if commits == [] then stored else
      var c := commits[|commits| - 1];
      Modified(alnum, c.change, Serial(alnum, stored, commits[..|commits| - 1]), c.id, c.generated)
  }

  /** Every closure of the serial order succeeds. */
  ghost predicate AllSucceed(alnum: char -> bool, stored: Members, commits: seq<Commit>) {
    forall k :: 0 <= k < |commits| ==>
      Apply(alnum, commits[k].change, Loaded(Serial(alnum, stored, commits[..k])), commits[k].id, commits[k].generated).result.Ok?
  }

  // ---------------------------------------------------------------- what every step keeps

  ghost predicate LockOk(s: System) {
    forall t :: t in s.threads && !s.threads[t].Waiting? ==> s.holder == Some(t)
  }

  /** The holder of the lock works on what is stored. */
  ghost predicate CopyOk(s: System) {
    forall t :: t in s.threads && s.threads[t].Working? ==> s.threads[t].local == Loaded(s.stored)
  }

  /** A promise is kept in the thread that will consume the approval. */
  ghost predicate TaskOk(h: History, task: Task) {
    && !task.change.EnsureMember?
    && (task.change.Consume? <==> task.promise.Some?)
    && (task.promise.Some? ==> task.change.preAuth == task.promise.value.preAuth && Promised(h, task.promise.value))
  }

  /** `p` is what the grant of its pre-auth token says. */
  ghost predicate Promised(h: History, p: HandOut) {
    p.preAuth in h.granted && h.granted[p.preAuth] == Grant(p.name, p.token)
  }

  ghost predicate TasksOk(s: System) {
    forall t :: t in s.threads && !s.threads[t].Finishing? ==> TaskOk(s.history, s.threads[t].task)
  }

  /** What was asked matches what is pending. */
  ghost predicate AskedOk(h: History, g: Members, used: set<string>) {
    && (forall p :: p in h.asked ==> p in used)
    && (forall i :: 0 <= i < |g.pending| ==> RequestAsked(h, g.pending[i]))
  }

  ghost predicate RequestAsked(h: History, r: JoinRequest) {
    && r.preAuth.Some? && r.preAuth.value in h.asked
    && h.asked[r.preAuth.value] == r.name && r.preAuth.value !in h.granted
  }

  /** A grant went to whoever asked, and its token is still that member's. */
  ghost predicate GrantOk(h: History, g: Members, p: string)
    requires p in h.granted
  {
    var w := h.granted[p];
    p in h.asked && h.asked[p] == w.name && w.name in g.tokens && g.tokens[w.name] == w.token
  }

  ghost predicate GrantsOk(h: History, g: Members) {
    && (forall p :: p in h.granted ==> GrantOk(h, g, p))
    && (forall p :: p in g.approved ==> p in h.granted && h.granted[p].token == g.approved[p])
  }

  ghost predicate HandedOk(h: History, g: Members) {
    && (forall k :: 0 <= k < |h.handed| ==> Promised(h, h.handed[k]) && h.handed[k].preAuth !in g.approved)
    && (forall j, k :: 0 <= j < k < |h.handed| ==> h.handed[j].preAuth != h.handed[k].preAuth)
  }

  ghost predicate HistoryOk(h: History, g: Members, used: set<string>) {
    AskedOk(h, g, used) && GrantsOk(h, g) && HandedOk(h, g)
  }

  ghost predicate SystemOk(s: System) {
    && LockOk(s) && CopyOk(s) && TasksOk(s)
    && Inv(Loaded(s.stored), s.used)
    && HistoryOk(s.history, Loaded(s.stored), s.used)
  }

  // ---------------------------------------------------------------- history, change by change

  lemma HistoryAsk(h: History, g: Members, used: set<string>, r: JoinRequest, id: string, generated: string)
    requires HistoryOk(h, g, used) && Inv(g, used) && generated !in used && r.preAuth == Some(generated)
    ensures HistoryOk(h.(asked := h.asked[generated := r.name]), g.(pending := g.pending + [r]), used + {id, generated})
  {
  }

  /** The request at `pos` becomes a member without leaving a trace to poll for. */
  lemma HistoryAdmit(h: History, g: Members, used: set<string>, pos: nat, id: string, generated: string)
    requires HistoryOk(h, g, used) && Inv(g, used) && pos < |g.pending|
    requires g.pending[pos].name !in g.tokens
    ensures HistoryOk(h, WithMember(g.(pending := Remove(g.pending, pos)), g.pending[pos].name, generated), used + {id, generated})
  {
  }

  lemma HistoryGrant(h: History, g: Members, used: set<string>, preAuth: string, name: string, token: string)
    requires HistoryOk(h, g, used)
    requires preAuth in h.asked && h.asked[preAuth] == name && preAuth !in h.granted
    requires name in g.tokens && g.tokens[name] == token
    requires forall i :: 0 <= i < |g.pending| ==> g.pending[i].preAuth != Some(preAuth)
    ensures HistoryOk(h.(granted := h.granted[preAuth := Grant(name, token)]),
                      g.(approved := g.approved[preAuth := token]), used)
  {
  }

  lemma HistoryHand(h: History, g: Members, used: set<string>, p: HandOut)
    requires HistoryOk(h, g, used) && Promised(h, p) && p.preAuth in g.approved
    ensures HistoryOk(h.(handed := h.handed + [p]), g.(approved := g.approved - {p.preAuth}), used)
  {
  }

  lemma HistoryRemotes(h: History, g: Members, used: set<string>, rs: seq<Remote>, more: set<string>)
    requires HistoryOk(h, g, used)
    ensures HistoryOk(h, g.(remotes := rs), used + more)
  {
  }

  lemma AdmitFresh(g: Members, used: set<string>, pos: nat)
    requires Inv(g, used) && pos < |g.pending|
    ensures g.pending[pos].name !in g.tokens
  {
  }

  lemma RecordJoin(alnum: char -> bool, h: History, g: Members, used: set<string>, name: string, github: Option<string>, id: string, generated: string)
    requires Inv(g, used) && HistoryOk(h, g, used) && Unused(used, id, generated)
    requires AddJoin(alnum, g, name, github, id, generated).result.Ok?
    ensures var g2 := AddJoin(alnum, g, name, github, id, generated).group;
            && |g2.pending| == |g.pending| + 1
            && HistoryOk(h.(asked := h.asked[generated := g2.pending[|g.pending|].name]), g2, used + {id, generated})
  {
    HistoryAsk(h, g, used, JoinRequest(id, Trim(name), NonEmpty(github), Some(generated)), id, generated);
  }

  lemma RecordApproveByName(alnum: char -> bool, h: History, g: Members, used: set<string>, requestId: string, id: string, generated: string)
    requires Inv(g, used) && HistoryOk(h, g, used) && Unused(used, id, generated)
    requires Approve(alnum, g, requestId, "", generated).result.Ok?
    ensures var g2 := Approve(alnum, g, requestId, "", generated).group;
            |g2.pending| < |g.pending| && HistoryOk(h, g2, used + {id, generated})
  {
    ApproveGrants(alnum, g, used, requestId, "", generated);
    var pos := FindRequest(g.pending, requestId).value;
    AdmitFresh(g, used, pos);
    HistoryAdmit(h, g, used, pos, id, generated);
  }

  lemma RecordApproveByToken(alnum: char -> bool, h: History, g: Members, used: set<string>, requestId: string, preAuth: string, id: string, generated: string)
    requires Inv(g, used) && HistoryOk(h, g, used) && Unused(used, id, generated)
    requires PreAuthOf(g, requestId) == Some(preAuth)
    requires Approve(alnum, g, requestId, preAuth, generated).result.Ok?
    ensures var pos := FindRequest(g.pending, requestId).value;
            && preAuth !in h.granted
            && HistoryOk(h.(granted := h.granted[preAuth := Grant(g.pending[pos].name, generated)]),
                         Approve(alnum, g, requestId, preAuth, generated).group, used + {id, generated})
  {
    ApproveGrants(alnum, g, used, requestId, preAuth, generated);
    var pos := FindRequest(g.pending, requestId).value;
    var req := g.pending[pos];
    assert RequestAsked(h, req);
    AdmitFresh(g, used, pos);
    HistoryAdmit(h, g, used, pos, id, generated);
    var g2 := WithMember(g.(pending := Remove(g.pending, pos)), req.name, generated);
    HistoryGrant(h, g2, used + {id, generated}, preAuth, req.name, generated);
  }

  lemma MoreUsedHistory(h: History, g: Members, used: set<string>, more: set<string>)
    requires HistoryOk(h, g, used)
    ensures HistoryOk(h, g, used + more)
  {
  }

  ghost predicate GrantsKept(h: History, h2: History) {
    forall p :: p in h.granted ==> p in h2.granted && h2.granted[p] == h.granted[p]
  }

  /** After the closure of `task` the history is consistent with the group it
      made, and earlier grants are unchanged. */
  ghost predicate RecordKept(alnum: char -> bool, h: History, task: Task, g: Members, used: set<string>, id: string, generated: string) {
    var g2 := Apply(alnum, task.change, g, id, generated).group;
    var h2 := Recorded(h, task, g, g2, generated);
    HistoryOk(h2, g2, used + {id, generated}) && GrantsKept(h, h2)
  }

  lemma RequestJoinRecorded(alnum: char -> bool, h: History, task: Task, g: Members, used: set<string>, id: string, generated: string)
    requires Inv(g, used) && HistoryOk(h, g, used) && Unused(used, id, generated) && TaskOk(h, task)
    requires task.change.RequestJoin? && Apply(alnum, task.change, g, id, generated).result.Ok?
    ensures RecordKept(alnum, h, task, g, used, id, generated)
  {
    RecordJoin(alnum, h, g, used, task.change.name, task.change.github, id, generated);
  }

  lemma JoinLocalRecorded(alnum: char -> bool, h: History, task: Task, g: Members, used: set<string>, id: string, generated: string)
    requires Inv(g, used) && HistoryOk(h, g, used) && Unused(used, id, generated) && TaskOk(h, task)
    requires task.change.JoinLocal? && Apply(alnum, task.change, g, id, generated).result.Ok?
    ensures RecordKept(alnum, h, task, g, used, id, generated)
  {
    var c := task.change;
    if Taken(g.members, c.name) {
      IssueInv(alnum, g, used, c.name, generated);
      MoreUsedHistory(h, g, used, {id, generated});
    } else {
      RecordJoin(alnum, h, g, used, c.name, c.github, id, generated);
    }
  }

  lemma ApproveByNameRecorded(alnum: char -> bool, h: History, task: Task, g: Members, used: set<string>, id: string, generated: string)
    requires Inv(g, used) && HistoryOk(h, g, used) && Unused(used, id, generated) && TaskOk(h, task)
    requires task.change.ApproveByName? && Apply(alnum, task.change, g, id, generated).result.Ok?
    ensures RecordKept(alnum, h, task, g, used, id, generated)
  {
    RecordApproveByName(alnum, h, g, used, task.change.requestId, id, generated);
  }

  lemma ApproveByTokenRecorded(alnum: char -> bool, h: History, task: Task, g: Members, used: set<string>, id: string, generated: string)
    requires Inv(g, used) && HistoryOk(h, g, used) && Unused(used, id, generated) && TaskOk(h, task)
    requires task.change.ApproveByToken? && Apply(alnum, task.change, g, id, generated).result.Ok?
    ensures RecordKept(alnum, h, task, g, used, id, generated)
  {
    var requestId := task.change.requestId;
    var pos := FindRequest(g.pending, requestId);
    if pos.Some? {
      assert RequestOk(g, used, g.pending[pos.value]);
    }
    RecordApproveByToken(alnum, h, g, used, requestId, PreAuthOf(g, requestId).value, id, generated);
  }

  predicate AboutRemotes(c: Change) {
    c.AddRemote? || c.RemoveRemote? || c.Heartbeat?
  }

  lemma OnlyRemotes(alnum: char -> bool, c: Change, g: Members, id: string, generated: string)
    requires AboutRemotes(c)
    ensures var g2 := Apply(alnum, c, g, id, generated).group; g2 == g.(remotes := g2.remotes)
  {
  }

  lemma RemotesRecorded(alnum: char -> bool, h: History, task: Task, g: Members, used: set<string>, id: string, generated: string)
    requires Inv(g, used) && HistoryOk(h, g, used) && Unused(used, id, generated) && TaskOk(h, task)
    requires AboutRemotes(task.change) && Apply(alnum, task.change, g, id, generated).result.Ok?
    ensures RecordKept(alnum, h, task, g, used, id, generated)
  {
    var g2 := Apply(alnum, task.change, g, id, generated).group;
    OnlyRemotes(alnum, task.change, g, id, generated);
    HistoryRemotes(h, g, used, g2.remotes, {id, generated});
  }

  lemma ConsumeRecorded(alnum: char -> bool, h: History, task: Task, g: Members, used: set<string>, id: string, generated: string)
    requires Inv(g, used) && HistoryOk(h, g, used) && Unused(used, id, generated) && TaskOk(h, task)
    requires task.change.Consume? && Apply(alnum, task.change, g, id, generated).result.Ok?
    ensures RecordKept(alnum, h, task, g, used, id, generated)
  {
    var p := task.promise.value;
    HistoryHand(h, g, used, p);
    MoreUsedHistory(h.(handed := h.handed + [p]), g.(approved := g.approved - {p.preAuth}), used, {id, generated});
  }

  lemma RecordedOk(alnum: char -> bool, h: History, task: Task, g: Members, used: set<string>, id: string, generated: string)
    requires Inv(g, used) && HistoryOk(h, g, used) && Unused(used, id, generated) && TaskOk(h, task)
    requires Apply(alnum, task.change, g, id, generated).result.Ok?
    ensures RecordKept(alnum, h, task, g, used, id, generated)
  {
    match task.change
    case RequestJoin(_, _) => RequestJoinRecorded(alnum, h, task, g, used, id, generated);
    case JoinLocal(_, _) => JoinLocalRecorded(alnum, h, task, g, used, id, generated);
    case ApproveByToken(_, _) => ApproveByTokenRecorded(alnum, h, task, g, used, id, generated);
    case ApproveByName(_, _, _) => ApproveByNameRecorded(alnum, h, task, g, used, id, generated);
    case Consume(_) => ConsumeRecorded(alnum, h, task, g, used, id, generated);
    case _ => RemotesRecorded(alnum, h, task, g, used, id, generated);
  }

  // ---------------------------------------------------------------- steps

  /** Never is a group found without members, nor an approved token without a
      member: what a handler goes on to do is well-founded. */
  lemma BegunOk(alnum: char -> bool, g: Members, used: set<string>, h: History, call: Call)
    requires Inv(g, used) && HistoryOk(h, g, used)
    ensures Begin(alnum, g, call) != Responds(Inconsistent)
    ensures Begin(alnum, g, call).Wants? ==> TaskOk(h, Begin(alnum, g, call).task)
  {
  }

  lemma EnterOk(alnum: char -> bool, s: System, t: Tid, call: Call)
    requires SystemOk(s) && Enabled(s, Enter(t, call))
    ensures SystemOk(Next(alnum, s, Enter(t, call)))
  {
    BegunOk(alnum, Loaded(s.stored), s.used, s.history, call);
    var b := Begin(alnum, Loaded(s.stored), call);
    if b.Wants? {
      QueueOk(s, t, b.task);
    }
  }

  lemma QueueOk(s: System, t: Tid, task: Task)
    requires SystemOk(s) && t !in s.threads && TaskOk(s.history, task)
    ensures SystemOk(s.(threads := s.threads[t := Waiting(task)]))
  {
  }

  lemma WorkThreads(s: System, s2: System, t: Tid)
    requires SystemOk(s) && t in s.threads && s.threads[t].Working?
    requires s2.threads == s.threads[t := Finishing] && s2.holder == s.holder
    requires GrantsKept(s.history, s2.history)
    ensures LockOk(s2) && CopyOk(s2) && TasksOk(s2)
  {
  }

  lemma WorkOk(alnum: char -> bool, s: System, t: Tid, id: string, generated: string)
    requires SystemOk(s) && Enabled(s, Work(t, id, generated))
    ensures SystemOk(Next(alnum, s, Work(t, id, generated)))
  {
    var task, g := s.threads[t].task, Loaded(s.stored);
    var s2 := Next(alnum, s, Work(t, id, generated));
    var o := Apply(alnum, task.change, g, id, generated);
    assert s.threads[t].local == g && TaskOk(s.history, task);
    if o.result.Ok? {
      RecordedOk(alnum, s.history, task, g, s.used, id, generated);
      ApplyInv(alnum, task.change, g, s.used, id, generated);
      LoadSaved(o.group);
    } else {
      MoreUsed(g, s.used, {id, generated});
      MoreUsedHistory(s.history, g, s.used, {id, generated});
    }
    WorkThreads(s, s2, t);
  }

  lemma LockStepOk(alnum: char -> bool, s: System, step: Step)
    requires SystemOk(s) && Enabled(s, step) && !step.Enter? && !step.Work?
    ensures SystemOk(Next(alnum, s, step))
  {
    var s2 := Next(alnum, s, step);
    assert LockOk(s2);
    assert CopyOk(s2);
    assert TasksOk(s2);
  }

  lemma {:induction false} RunOk(alnum: char -> bool, start: System, steps: seq<Step>)
    requires SystemOk(start)
    ensures SystemOk(Run(alnum, start, steps))
  {
    if steps != [] {
      var s, step := Run(alnum, start, steps[..|steps| - 1]), steps[|steps| - 1];
      RunOk(alnum, start, steps[..|steps| - 1]);
      if Enabled(s, step) {
        match step
        case Enter(t, call) => EnterOk(alnum, s, t, call);
        case Work(t, id, generated) => WorkOk(alnum, s, t, id, generated);
        case _ => LockStepOk(alnum, s, step);
      }
    }
  }

  lemma InitialOk(g: Members, used: set<string>)
    requires Inv(g, used) && g.pending == [] && g.approved == map[]
    ensures SystemOk(Initial(g, used))
  {
  }

  // ---------------------------------------------------------------- what runs guarantee

  /** Some group created with valid names. */
  datatype Creation = Creation(lower: string -> string, names: seq<string>, host: string, hostToken: string, invite: string)

  predicate Valid(alnum: char -> bool, c: Creation) {
    CreateOk(alnum, c.lower, c.names, c.host)
  }

  function Start(c: Creation): System {
    Initial(Built(c.names, c.host, c.hostToken, c.invite), {c.hostToken})
  }

  lemma ReachableOk(alnum: char -> bool, c: Creation, steps: seq<Step>)
    requires Valid(alnum, c)
    ensures SystemOk(Run(alnum, Start(c), steps))
  {
    BuiltInv(alnum, c.lower, c.names, c.host, c.hostToken, c.invite);
    InitialOk(Built(c.names, c.host, c.hostToken, c.invite), {c.hostToken});
    RunOk(alnum, Start(c), steps);
  }

  /** In every reachable state the stored group is consistent, and no call is
      answered with an inconsistent index. */
  lemma MembershipInvariant(alnum: char -> bool, c: Creation, steps: seq<Step>, call: Call)
    requires Valid(alnum, c)
    ensures var s := Run(alnum, Start(c), steps);
            && Inv(Loaded(s.stored), s.used)
            && Begin(alnum, Loaded(s.stored), call) != Responds(Inconsistent)
  {
    ReachableOk(alnum, c, steps);
    var s := Run(alnum, Start(c), steps);
    BegunOk(alnum, Loaded(s.stored), s.used, s.history, call);
  }

  /** The status handler gives out at most one token for a pre-auth token, to
      the name that asked with it, and it is that member's token. */
  lemma HandedOutOnce(alnum: char -> bool, c: Creation, steps: seq<Step>, k: nat)
    requires Valid(alnum, c) && k < |Run(alnum, Start(c), steps).history.handed|
    ensures var s := Run(alnum, Start(c), steps);
            var p := s.history.handed[k];
            && (forall j :: 0 <= j < |s.history.handed| && j != k ==> s.history.handed[j].preAuth != p.preAuth)
            && p.preAuth in s.history.asked && s.history.asked[p.preAuth] == p.name
            && p.name in s.stored.tokens && s.stored.tokens[p.name] == p.token
            && p.preAuth !in s.stored.approved
  {
    ReachableOk(alnum, c, steps);
    var s := Run(alnum, Start(c), steps);
    assert Promised(s.history, s.history.handed[k]);
    assert GrantOk(s.history, Loaded(s.stored), s.history.handed[k].preAuth);
  }

  lemma SerialMore(alnum: char -> bool, first: Members, commits: seq<Commit>, c: Commit)
    ensures Serial(alnum, first, commits + [c])
            == Modified(alnum, c.change, Serial(alnum, first, commits), c.id, c.generated)
  {
  }

  lemma SucceedMore(alnum: char -> bool, first: Members, commits: seq<Commit>, c: Commit)
    requires AllSucceed(alnum, first, commits)
    requires Apply(alnum, c.change, Loaded(Serial(alnum, first, commits)), c.id, c.generated).result.Ok?
    ensures AllSucceed(alnum, first, commits + [c])
  {
    var all := commits + [c];
    forall k | 0 <= k < |all|
      ensures Apply(alnum, all[k].change, Loaded(Serial(alnum, first, all[..k])), all[k].id, all[k].generated).result.Ok?
    {
      if k < |commits| {
        assert all[..k] == commits[..k];
      } else {
        assert all[..k] == commits;
      }
    }
  }

  /** Between `start` and `s` exactly the closures `made` were committed: the file is what
      they make of it one after the other, each succeeds there too, and without any of
      them nothing is promised or handed out either. */
  ghost predicate Commits(alnum: char -> bool, start: System, s: System, made: seq<Commit>) {
    && s.committed == start.committed + made
    && s.stored == Serial(alnum, start.stored, made)
    && AllSucceed(alnum, start.stored, made)
    && (made == [] ==> s.history == start.history)
  }

  lemma StepCommits(alnum: char -> bool, s: System, step: Step) returns (made: seq<Commit>)
    requires SystemOk(s) && Enabled(s, step)
    ensures Next(alnum, s, step).committed == s.committed + made
    ensures made == [] ==> Next(alnum, s, step).stored == s.stored && Next(alnum, s, step).history == s.history
    ensures made != [] ==>
              && made == [Commit(s.threads[step.tid].task.change, step.id, step.generated)] && step.Work?
              && Apply(alnum, made[0].change, Loaded(s.stored), made[0].id, made[0].generated).result.Ok?
              && Next(alnum, s, step).stored == Modified(alnum, made[0].change, s.stored, made[0].id, made[0].generated)
  {
    made := [];
    if step.Work? {
      var c := Commit(s.threads[step.tid].task.change, step.id, step.generated);
      assert s.threads[step.tid].local == Loaded(s.stored);
      if Apply(alnum, c.change, Loaded(s.stored), c.id, c.generated).result.Ok? {
        made := [c];
      }
    }
  }

  lemma CommitsMore(alnum: char -> bool, start: System, s: System, made: seq<Commit>, c: Commit, t: System)
    requires Commits(alnum, start, s, made) && t.committed == s.committed + [c]
    requires Apply(alnum, c.change, Loaded(s.stored), c.id, c.generated).result.Ok?
    requires t.stored == Modified(alnum, c.change, s.stored, c.id, c.generated)
    ensures Commits(alnum, start, t, made + [c])
  {
    SerialMore(alnum, start.stored, made, c);
    SucceedMore(alnum, start.stored, made, c);
    Assoc(start.committed, made, [c]);
  }

  /** However the handlers interleave, and from whatever moment on, the file is changed by
      successful closures one after the other, in the order of their commits. */
  lemma {:induction false} Serializable(alnum: char -> bool, start: System, steps: seq<Step>) returns (made: seq<Commit>)
    requires SystemOk(start)
    ensures Commits(alnum, start, Run(alnum, start, steps), made)
  {
    made := [];
    if steps != [] {
      var s, step := Run(alnum, start, steps[..|steps| - 1]), steps[|steps| - 1];
      made := Serializable(alnum, start, steps[..|steps| - 1]);
      RunOk(alnum, start, steps[..|steps| - 1]);
      if Enabled(s, step) {
        var more := StepCommits(alnum, s, step);
        if more != [] {
          CommitsMore(alnum, start, s, made, more[0], Next(alnum, s, step));
          made := made + [more[0]];
        }
      }
    }
  }

  lemma StoredIsSerial(alnum: char -> bool, c: Creation, steps: seq<Step>)
    requires Valid(alnum, c)
    ensures var s := Run(alnum, Start(c), steps);
            && s.stored == Serial(alnum, Start(c).stored, s.committed)
            && AllSucceed(alnum, Start(c).stored, s.committed)
  {
    ReachableOk(alnum, c, []);
    var made := Serializable(alnum, Start(c), steps);
    assert [] + made == made;
  }

  /** The closure that `step` runs in `s`, if it runs one, would fail on `stored`. */
  ghost predicate FailsOn(alnum: char -> bool, s: System, step: Step, stored: Members) {
    Enabled(s, step) && step.Work? ==>
      Apply(alnum, s.threads[step.tid].task.change, Loaded(stored), step.id, step.generated).result.Err?
  }

  /** Closures that fail on the file as it is, however many and however interleaved with
      reading, waiting and dying handlers, leave it so and hand out nothing. */
  lemma {:induction false} FailureChangesNothing(alnum: char -> bool, start: System, steps: seq<Step>)
    requires SystemOk(start)
    requires forall m :: 0 <= m < |steps| ==> FailsOn(alnum, Run(alnum, start, steps[..m]), steps[m], start.stored)
    ensures var s := Run(alnum, start, steps);
            s.stored == start.stored && s.history == start.history && s.committed == start.committed
  {
    if steps != [] {
      var n := |steps| - 1;
      var front, s, step := steps[..n], Run(alnum, start, steps[..n]), steps[n];
      forall m | 0 <= m < n ensures FailsOn(alnum, Run(alnum, start, front[..m]), front[m], start.stored) {
        assert front[..m] == steps[..m] && front[m] == steps[m];
      }
      FailureChangesNothing(alnum, start, front);
      RunOk(alnum, start, front);
      assert FailsOn(alnum, s, step, start.stored);
      if Enabled(s, step) {
        var made := StepCommits(alnum, s, step);
      }
    }
  }

  // ---------------------------------------------------------------- a join that goes through

  lemma {:induction false} FindLast(rs: seq<JoinRequest>, r: JoinRequest)
    requires forall i :: 0 <= i < |rs| ==> rs[i].id != r.id
    ensures FindRequest(rs + [r], r.id) == Some(|rs|)
  {
    if rs == [] {
      assert rs + [r] == [r];
    } else {
      assert (rs + [r])[1..] == rs[1..] + [r];
      FindLast(rs[1..], r);
    }
  }

  /** A request that is accepted tells its own id and pre-auth token. */
  lemma JoinReply(alnum: char -> bool, g: Members, used: set<string>, name: string, github: Option<string>, id: string, generated: string)
    requires Inv(g, used) && Unused(used, id, generated)
    requires MemberNameError(alnum, g, name).None? && !Taken(g.members, Trim(name)) && !Taken(PendingNames(g.pending), Trim(name))
    ensures var r := JoinRequest(id, Trim(name), NonEmpty(github), Some(generated));
            var g2 := g.(pending := g.pending + [r]);
            && Apply(alnum, RequestJoin(name, github), g, id, generated) == Outcome(g2, Ok(Pending(id, Some(generated))))
            && FindRequest(g2.pending, id) == Some(|g.pending|)
  {
    var r := JoinRequest(id, Trim(name), NonEmpty(github), Some(generated));
    assert forall i :: 0 <= i < |g.pending| ==> RequestOk(g, used, g.pending[i]);
    FindLast(g.pending, r);
  }

  /** A member's approval succeeds exactly when the request is pending and its
      name has not become an agent's. */
  lemma ApproveExactly(alnum: char -> bool, g: Members, used: set<string>, token: string, requestId: string, id: string, generated: string)
    requires Inv(g, used) && Unused(used, id, generated)
    ensures Apply(alnum, ApproveByToken(token, requestId), g, id, generated).result.Ok? <==>
            && Token(g, token).Some?
            && FindRequest(g.pending, requestId).Some?
            && MemberNameError(alnum, g, g.pending[FindRequest(g.pending, requestId).value].name).None?
  {
  }

  /** A poll after an approval promises the new member's token to the name that asked. */
  lemma ApprovedIsPromised(alnum: char -> bool, g: Members, used: set<string>, approver: string, requestId: string, id: string, token: string)
    requires Inv(g, used) && Unused(used, id, token)
    requires Apply(alnum, ApproveByToken(approver, requestId), g, id, token).result.Ok?
    ensures FindRequest(g.pending, requestId).Some?
    ensures var req := g.pending[FindRequest(g.pending, requestId).value];
            var o := Apply(alnum, ApproveByToken(approver, requestId), g, id, token);
            && req.preAuth.Some?
            && o.result == Ok(Approved(req.name, token))
            && BeginStatus(o.group, requestId, req.preAuth.value)
               == Wants(Task(Consume(req.preAuth.value), Some(HandOut(req.preAuth.value, token, req.name))))
  {
    var req := g.pending[FindRequest(g.pending, requestId).value];
    assert RequestOk(g, used, req);
    ApproveGrants(alnum, g, used, requestId, req.preAuth.value, token);
    assert req.name in Approve(alnum, g, requestId, req.preAuth.value, token).group.members;
  }

  lemma Requested(alnum: char -> bool, g: Members, used: set<string>, name: string, github: Option<string>, id: string, preAuth: string)
    returns (g1: Members)
    requires Inv(g, used) && Unused(used, id, preAuth)
    requires MemberNameError(alnum, g, name).None? && !Taken(g.members, Trim(name)) && !Taken(PendingNames(g.pending), Trim(name))
    ensures g1 == Apply(alnum, RequestJoin(name, github), g, id, preAuth).group && g1.index == g.index
    ensures Inv(g1, used + {id, preAuth})
    ensures FindRequest(g1.pending, id) == Some(|g.pending|)
    ensures g1.pending[|g.pending|].name == Trim(name) && g1.pending[|g.pending|].preAuth == Some(preAuth)
    ensures MemberNameError(alnum, g1, Trim(name)).None?
  {
    JoinReply(alnum, g, used, name, github, id, preAuth);
    ApplyInv(alnum, RequestJoin(name, github), g, used, id, preAuth);
    g1 := g.(pending := g.pending + [JoinRequest(id, Trim(name), NonEmpty(github), Some(preAuth))]);
  }

  /** Request and approval in a row go through, and the poll promises the token. */
  lemma JoinGoesThrough(alnum: char -> bool, g: Members, used: set<string>, name: string, github: Option<string>,
                        id: string, preAuth: string, approver: string, id2: string, token: string)
    requires Inv(g, used) && Unused(used, id, preAuth) && Unused(used + {id, preAuth}, id2, token)
    requires MemberNameError(alnum, g, name).None? && !Taken(g.members, Trim(name)) && !Taken(PendingNames(g.pending), Trim(name))
    requires Token(g, approver).Some?
    ensures var g1 := Apply(alnum, RequestJoin(name, github), g, id, preAuth).group;
            var o := Apply(alnum, ApproveByToken(approver, id), g1, id2, token);
            && o.result == Ok(Approved(Trim(name), token))
            && BeginStatus(o.group, id, preAuth) == Wants(Task(Consume(preAuth), Some(HandOut(preAuth, token, Trim(name)))))
  {
    var g1 := Requested(alnum, g, used, name, github, id, preAuth);
    ApproveExactly(alnum, g1, used + {id, preAuth}, approver, id, id2, token);
    ApprovedIsPromised(alnum, g1, used + {id, preAuth}, approver, id, id2, token);
  }
}
