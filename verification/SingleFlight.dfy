/** The single-in-flight resolver of dns-server/internal/dns_resolver.go as a transition system:
    any number of callers, one program counter each, and one event per atomic step of the code
    (a critical section, a wake-up, the return of the inner call, the closing of a channel). */
module SingleFlight {
  import opened Basics
  import opened Messages

  datatype Outcome = Reply(msg: Message) | Failure

  /** An in-flight request object: the Done channel, the response and the error. `owner` is the
      caller that created it. */
  datatype Request = Request(key: Question, owner: nat, outcome: Option<Outcome>, done: bool)

  datatype Result = Own(outcome: Outcome) | Shared(reply: Message, from: nat) | Cancelled

  datatype Pc =
    | Begin                 // has not entered the first critical section
    | Waiting(req: nat)     // blocked on the Done channel of another caller's request
    | Retry(req: nat)       // saw that request fail and is about to install its own
    | Calling(req: nat)     // inside the inner resolver
    | Returned(req: nat)    // inner call over, channel still open
    | Closed(req: nat)      // channel closed, map not cleaned up yet
    | Finished(result: Result)

  datatype State = State(msgs: seq<Message>, pcs: seq<Pc>, table: map<Question, nat>, reqs: seq<Request>)

  datatype Event =
    | Direct(c: nat, outcome: Outcome)       // not exactly one question: straight to the inner resolver
    | LookUp(c: nat)                         // first critical section
    | Cancel(c: nat)                         // the context of a waiting caller ends
    | Wake(c: nat)                           // the awaited channel is closed
    | Reinstall(c: nat)                      // second critical section, after a failed wait
    | InnerReturn(c: nat, outcome: Outcome)
    | Close(c: nat)
    | CleanUp(c: nat)

  function Key(s: State, c: nat): Question
    requires c < |s.msgs| && HasSingleQuestion(s.msgs[c])
  {
    s.msgs[c].question[0]
  }

  /** The reply built for a waiter: its own message, marked as a response, with the shared answer. */
  function SharedReply(msg: Message, resp: Message): Message {
    Message(msg.id, msg.question, true, resp.answer)
  }

  predicate Enabled(s: State, e: Event) {
    && e.c < |s.pcs| == |s.msgs|
    && var pc := s.pcs[e.c];
       match e
       case Direct(c, _) => pc.Begin? && !HasSingleQuestion(s.msgs[c])
       case LookUp(c) => pc.Begin? && HasSingleQuestion(s.msgs[c])
       case Cancel(_) => pc.Waiting?
       case Wake(_) => pc.Waiting? && pc.req < |s.reqs| && s.reqs[pc.req].done && s.reqs[pc.req].outcome.Some?
       case Reinstall(c) => pc.Retry? && HasSingleQuestion(s.msgs[c])
       case InnerReturn(_, _) => pc.Calling? && pc.req < |s.reqs|
       case Close(_) => pc.Returned? && pc.req < |s.reqs|
       case CleanUp(_) => pc.Closed? && pc.req < |s.reqs| && s.reqs[pc.req].outcome.Some?
  }

  function Install(s: State, c: nat): State
    requires c < |s.pcs| == |s.msgs| && HasSingleQuestion(s.msgs[c])
  {
    var r := |s.reqs|;
    State(s.msgs, s.pcs[c := Calling(r)], s.table[Key(s, c) := r], s.reqs + [Request(Key(s, c), c, None, false)])
  }

  function Apply(s: State, e: Event): State
    requires Enabled(s, e)
  {
    match e
    case Direct(c, outcome) => s.(pcs := s.pcs[c := Finished(Own(outcome))])
    case LookUp(c) =>
      if Key(s, c) in s.table then s.(pcs := s.pcs[c := Waiting(s.table[Key(s, c)])]) else Install(s, c)
    case Cancel(c) => s.(pcs := s.pcs[c := Finished(Cancelled)])
    case Wake(c) =>
      var r := s.pcs[c].req;
      s.(pcs := s.pcs[c := match s.reqs[r].outcome.value
                           case Reply(msg) => Finished(Shared(SharedReply(s.msgs[c], msg), r))
                           case Failure => Retry(r)])
    case Reinstall(c) => Install(s, c)
    case InnerReturn(c, outcome) =>
      var r := s.pcs[c].req;
      s.(pcs := s.pcs[c := Returned(r)], reqs := s.reqs[r := s.reqs[r].(outcome := Some(outcome))])
    case Close(c) =>
      var r := s.pcs[c].req;
      s.(pcs := s.pcs[c := Closed(r)], reqs := s.reqs[r := s.reqs[r].(done := true)])
    case CleanUp(c) =>
      var r := s.pcs[c].req;
      var key := s.reqs[r].key;
      s.(pcs := s.pcs[c := Finished(Own(s.reqs[r].outcome.value))],
         table := if key in s.table && s.table[key] == r then s.table - {key} else s.table)
  }

  function Initial(msgs: seq<Message>): State {
    State(msgs, seq(|msgs|, _ => Begin), map[], [])
  }

  // ------------------------------------------------------------ invariant

  /** The inner call for `r` has started and its owner has not passed its own clean-up. */
  predicate Open(pc: Pc, r: nat) {
    pc == Calling(r) || pc == Returned(r) || pc == Closed(r)
  }

  /** What a caller's program counter says about the request it mentions. */
  ghost predicate CallerOk(s: State, c: nat)
    requires c < |s.pcs| == |s.msgs|
  {
    var pc := s.pcs[c];
    (pc.Waiting? || pc.Retry? || pc.Calling? || pc.Returned? || pc.Closed? ==>
       && HasSingleQuestion(s.msgs[c])
       && pc.req < |s.reqs| && s.reqs[pc.req].key == Key(s, c)
       && (pc.Retry? ==> s.reqs[pc.req].outcome == Some(Failure))
       && (pc.Waiting? || pc.Retry? <==> s.reqs[pc.req].owner != c))
    && (pc.Finished? && pc.result.Shared? ==>
       && HasSingleQuestion(s.msgs[c])
       && pc.result.from < |s.reqs| && s.reqs[pc.result.from].key == Key(s, c)
       && s.reqs[pc.result.from].owner != c
       && s.reqs[pc.result.from].outcome.Some? && s.reqs[pc.result.from].outcome.value.Reply?
       && pc.result.reply == SharedReply(s.msgs[c], s.reqs[pc.result.from].outcome.value.msg))
  }

  /** A request's state is mirrored in the program counter of its owner. */
  ghost predicate RequestOk(s: State, r: nat)
    requires r < |s.reqs|
  {
    var req := s.reqs[r];
    && req.owner < |s.pcs|
    && req.owner < |s.msgs| && s.msgs[req.owner].question == [req.key]
    && (req.outcome.None? ==> !req.done && s.pcs[req.owner] == Calling(r))
    && (req.outcome.Some? && !req.done ==> s.pcs[req.owner] == Returned(r))
    && (req.done ==> s.pcs[req.owner] == Closed(r) || s.pcs[req.owner] == Finished(Own(req.outcome.value)))
  }

  /** A map entry points to a request for its key whose owner has not passed its own clean-up. */
  ghost predicate EntryOk(s: State, key: Question)
    requires key in s.table
  {
    var r := s.table[key];
    r < |s.reqs| && s.reqs[r].key == key && s.reqs[r].owner < |s.pcs| && Open(s.pcs[s.reqs[r].owner], r)
  }

  ghost predicate HasFailed(s: State, key: Question) {
    exists r :: 0 <= r < |s.reqs| && s.reqs[r].key == key && s.reqs[r].outcome == Some(Failure)
  }

  /** An inner call that is still running is the one in the map, unless a call for that question failed before. */
  ghost predicate CurrentOk(s: State, r: nat)
    requires r < |s.reqs|
  {
    s.reqs[r].outcome.None? ==>
      (s.reqs[r].key in s.table && s.table[s.reqs[r].key] == r) || HasFailed(s, s.reqs[r].key)
  }

  /** The map entry of a question is its newest request. */
  ghost predicate NewestOk(s: State, r: nat)
    requires r < |s.reqs|
  {
    s.reqs[r].key in s.table ==> r <= s.table[s.reqs[r].key]
  }

  ghost predicate Inv(s: State) {
    && |s.pcs| == |s.msgs|
    && (forall c :: 0 <= c < |s.pcs| ==> CallerOk(s, c))
    && (forall r :: 0 <= r < |s.reqs| ==> RequestOk(s, r))
    && (forall key :: key in s.table ==> EntryOk(s, key))
    && (forall r :: 0 <= r < |s.reqs| ==> CurrentOk(s, r))
    && (forall r :: 0 <= r < |s.reqs| ==> NewestOk(s, r))
  }

  lemma StepKeepsInv(s: State, e: Event)
    requires Inv(s) && Enabled(s, e)
    ensures Inv(Apply(s, e))
  {
    hide CallerOk, RequestOk, EntryOk, CurrentOk, NewestOk;
    var s' := Apply(s, e);
    RequestsKeep(s, e);
    forall c | 0 <= c < |s'.pcs|
      ensures CallerOk(s', c)
    {
      CallersKeep(s, e, c);
    }
    forall key | key in s'.table
      ensures EntryOk(s', key)
    {
      EntriesKeep(s, e, key);
    }
    forall r | 0 <= r < |s'.reqs|
      ensures CurrentOk(s', r) && NewestOk(s', r)
    {
      CurrentKeeps(s, e, r);
      NewestKeeps(s, e, r);
    }
  }

  lemma NewestKeeps(s: State, e: Event, r: nat)
    requires Inv(s) && Enabled(s, e) && r < |Apply(s, e).reqs|
    ensures NewestOk(Apply(s, e), r)
  {
    hide RequestOk, CurrentOk;
    assert CallerOk(s, e.c);
    if r < |s.reqs| {
      assert NewestOk(s, r);
    } else {
      assert forall key :: key in s.table ==> EntryOk(s, key);
    }
  }

  lemma CallersKeep(s: State, e: Event, c: nat)
    requires Inv(s) && Enabled(s, e) && c < |s.pcs|
    ensures CallerOk(Apply(s, e), c)
  {
    hide CurrentOk, NewestOk, HasFailed;
    assert CallerOk(s, c) && CallerOk(s, e.c);
    match e
    case LookUp(_) =>
      if Key(s, e.c) in s.table {
        assert EntryOk(s, Key(s, e.c));
      }
    case InnerReturn(_, _) => assert RequestOk(s, s.pcs[e.c].req);
    case _ =>
  }

  lemma RequestsKeep(s: State, e: Event)
    requires Inv(s) && Enabled(s, e)
    ensures forall r :: 0 <= r < |Apply(s, e).reqs| ==> RequestOk(Apply(s, e), r)
  {
    var s' := Apply(s, e);
    assert CallerOk(s, e.c);
    forall r | 0 <= r < |s'.reqs|
      ensures RequestOk(s', r)
    {
      if r < |s.reqs| {
        assert RequestOk(s, r);
      }
    }
  }

  lemma EntriesKeep(s: State, e: Event, key: Question)
    requires Inv(s) && Enabled(s, e) && key in Apply(s, e).table
    ensures EntryOk(Apply(s, e), key)
  {
    assert CallerOk(s, e.c);
    if key in s.table {
      assert EntryOk(s, key);
    }
  }

  lemma CurrentKeeps(s: State, e: Event, r: nat)
    requires Inv(s) && Enabled(s, e) && r < |Apply(s, e).reqs|
    ensures CurrentOk(Apply(s, e), r)
  {
    var s' := Apply(s, e);
    assert CallerOk(s, e.c);
    if r < |s.reqs| {
      assert CurrentOk(s, r) && RequestOk(s, r);
      if HasFailed(s, s.reqs[r].key) {
        FailedStays(s, e, s.reqs[r].key);
      }
      if e.Reinstall? {
        var w := s.pcs[e.c].req;
        assert s'.reqs[w] == s.reqs[w];
        assert HasFailed(s', Key(s, e.c));
      }
    }
  }

  lemma FailedStays(s: State, e: Event, key: Question)
    requires Inv(s) && Enabled(s, e) && HasFailed(s, key)
    ensures HasFailed(Apply(s, e), key)
  {
    var w :| 0 <= w < |s.reqs| && s.reqs[w].key == key && s.reqs[w].outcome == Some(Failure);
    assert RequestOk(s, w);
    assert CallerOk(s, e.c);
    assert Apply(s, e).reqs[w].key == key && Apply(s, e).reqs[w].outcome == Some(Failure);
  }

  // ------------------------------------------------------------ runs

  ghost predicate IsRun(s: State, events: seq<Event>)
    decreases |events|
  {
    events == [] || (Enabled(s, events[0]) && IsRun(Apply(s, events[0]), events[1..]))
  }

  ghost function Exec(s: State, events: seq<Event>): State
    requires IsRun(s, events)
    decreases |events|
  {
    if events == [] then s else Exec(Apply(s, events[0]), events[1..])
  }

  lemma {:induction false} RunKeepsInv(s: State, events: seq<Event>)
    requires Inv(s) && IsRun(s, events)
    ensures Inv(Exec(s, events))
    decreases |events|
  {
    if events != [] {
      StepKeepsInv(s, events[0]);
      RunKeepsInv(Apply(s, events[0]), events[1..]);
    }
  }

  ghost predicate Reachable(s: State) {
    exists msgs, events :: IsRun(Initial(msgs), events) && s == Exec(Initial(msgs), events)
  }

  lemma ReachableInv(s: State)
    requires Reachable(s)
    ensures Inv(s)
  {
    var msgs, events :| IsRun(Initial(msgs), events) && s == Exec(Initial(msgs), events);
    RunKeepsInv(Initial(msgs), events);
  }

  /** The caller is inside an inner call for this question. */
  predicate Calls(s: State, c: nat, key: Question) {
    c < |s.pcs| && s.pcs[c].Calling? && s.pcs[c].req < |s.reqs| && s.reqs[s.pcs[c].req].key == key
  }

  /** Exclusion: two inner calls for one question overlap only after an inner call for it has failed. */
  lemma OverlapMeansFailure(s: State, a: nat, b: nat, key: Question)
    requires Reachable(s)
    requires a != b && Calls(s, a, key) && Calls(s, b, key)
    ensures HasFailed(s, key)
  {
    ReachableInv(s);
    assert CallerOk(s, a) && CallerOk(s, b);
    assert RequestOk(s, s.pcs[a].req) && RequestOk(s, s.pcs[b].req);
    assert CurrentOk(s, s.pcs[a].req) && CurrentOk(s, s.pcs[b].req);
  }

  /** In time: a step that starts a second inner call for a question comes after such a failure. */
  lemma OverlapStartsAfterFailure(s: State, e: Event, a: nat, b: nat, key: Question)
    requires Reachable(s) && Enabled(s, e)
    requires a != b && Calls(s, a, key) && !Calls(s, b, key) && Calls(Apply(s, e), b, key)
    ensures HasFailed(s, key)
  {
    ReachableInv(s);
    assert CallerOk(s, a) && CallerOk(s, e.c);
    assert RequestOk(s, s.pcs[a].req) && CurrentOk(s, s.pcs[a].req);
    if e.Reinstall? {
      assert s.reqs[s.pcs[e.c].req].outcome == Some(Failure);
    }
  }

  /** Somewhere in the run, while request `r` was running, another caller that had seen a call for the
      same question fail installed its own request over it. */
  ghost predicate Displaced(s: State, events: seq<Event>, r: nat)
    requires IsRun(s, events)
    decreases |events|
  {
    events != [] &&
    ((events[0].Reinstall? && r < |s.reqs| && s.reqs[r].outcome.None?
      && Key(s, events[0].c) == s.reqs[r].key && HasFailed(s, s.reqs[r].key))
     || Displaced(Apply(s, events[0]), events[1..], r))
  }

  /** The request is running and is not the one in the map. */
  predicate Orphan(s: State, r: nat) {
    r < |s.reqs| && s.reqs[r].outcome.None? && !(s.reqs[r].key in s.table && s.table[s.reqs[r].key] == r)
  }

  /** The only way for a running request to leave the map is to be displaced. */
  lemma {:induction false} OrphansWereDisplaced(s: State, events: seq<Event>, r: nat)
    requires Inv(s) && IsRun(s, events)
    requires !Orphan(s, r) && Orphan(Exec(s, events), r)
    ensures Displaced(s, events, r)
    decreases |events|
  {
    if events != [] {
      StepKeepsInv(s, events[0]);
      if Orphan(Apply(s, events[0]), r) {
        DisplacedNow(s, events[0], r);
      } else {
        OrphansWereDisplaced(Apply(s, events[0]), events[1..], r);
      }
    }
  }

  lemma DisplacedNow(s: State, e: Event, r: nat)
    requires Inv(s) && Enabled(s, e) && !Orphan(s, r) && Orphan(Apply(s, e), r)
    ensures e.Reinstall? && r < |s.reqs| && s.reqs[r].outcome.None?
    ensures Key(s, e.c) == s.reqs[r].key && HasFailed(s, s.reqs[r].key)
  {
    assert CallerOk(s, e.c);
    if r < |s.reqs| {
      assert RequestOk(s, r);
    }
    if e.Reinstall? {
      assert s.reqs[s.pcs[e.c].req].outcome == Some(Failure);
    }
  }

  /** Exclusion, sharply: of two overlapping inner calls for one question, the earlier was displaced
      while it was running. */
  lemma EarlierCallWasDisplaced(msgs: seq<Message>, events: seq<Event>, a: nat, b: nat, key: Question)
    requires IsRun(Initial(msgs), events)
    requires var s := Exec(Initial(msgs), events);
             Calls(s, a, key) && Calls(s, b, key) && s.pcs[a].req < s.pcs[b].req
    ensures Displaced(Initial(msgs), events, Exec(Initial(msgs), events).pcs[a].req)
  {
    var s := Exec(Initial(msgs), events);
    RunKeepsInv(Initial(msgs), events);
    assert CallerOk(s, a) && RequestOk(s, s.pcs[a].req);
    assert CallerOk(s, b) && NewestOk(s, s.pcs[b].req);
    OrphansWereDisplaced(Initial(msgs), events, s.pcs[a].req);
  }

  /** Sharing: while no call for its question has failed, a caller that arrives during a running inner
      call waits for exactly that call. */
  lemma LateCallersShare(s: State, a: nat, c: nat)
    requires Reachable(s) && Enabled(s, LookUp(c))
    requires Calls(s, a, Key(s, c)) && !HasFailed(s, Key(s, c))
    ensures Apply(s, LookUp(c)).pcs[c] == Waiting(s.pcs[a].req)
  {
    ReachableInv(s);
    assert CallerOk(s, a);
    assert RequestOk(s, s.pcs[a].req) && CurrentOk(s, s.pcs[a].req);
  }

  /** A map entry goes away only by its own owner's clean-up, or is replaced by a caller that saw a
      call for that question fail. */
  lemma EntryLeavesOnlyBy(s: State, e: Event, key: Question)
    requires Reachable(s) && Enabled(s, e) && key in s.table
    requires var t := Apply(s, e).table; key !in t || t[key] != s.table[key]
    ensures s.table[key] < |s.reqs|
    ensures (e.CleanUp? && e.c == s.reqs[s.table[key]].owner) || (e.Reinstall? && HasFailed(s, key))
  {
    ReachableInv(s);
    assert CallerOk(s, e.c) && EntryOk(s, key);
    if e.Reinstall? {
      assert s.reqs[s.pcs[e.c].req].outcome == Some(Failure);
    }
  }

  /** Clean-up: a map entry belongs to an owner that has not cleaned up yet, so the map is empty
      once every caller has finished. */
  lemma EntriesHaveActiveOwners(s: State, key: Question)
    requires Reachable(s) && key in s.table
    ensures var r := s.table[key];
            && r < |s.reqs| && s.reqs[r].key == key
            && s.reqs[r].owner < |s.pcs| && Open(s.pcs[s.reqs[r].owner], r)
  {
    ReachableInv(s);
    assert EntryOk(s, key);
  }

  /** The exclusion ends with the clean-up: a caller that arrives when no inner call of its question is
      on its way makes one of its own, whatever calls have succeeded before. */
  lemma NextCallerCallsAgain(s: State, c: nat)
    requires Reachable(s) && Enabled(s, LookUp(c))
    requires forall o, r :: 0 <= o < |s.pcs| && 0 <= r < |s.reqs| && s.reqs[r].key == Key(s, c) ==> !Open(s.pcs[o], r)
    ensures Calls(Apply(s, LookUp(c)), c, Key(s, c))
  {
    if Key(s, c) in s.table {
      EntriesHaveActiveOwners(s, Key(s, c));
      assert false;
    }
  }

  predicate AllFinished(s: State) {
    forall c :: 0 <= c < |s.pcs| ==> s.pcs[c].Finished?
  }

  lemma EmptyWhenAllFinished(s: State)
    requires Reachable(s) && AllFinished(s)
    ensures s.table == map[]
  {
    if key: Question :| key in s.table {
      EntriesHaveActiveOwners(s, key);
      assert false;
    }
  }

  /** Fidelity: a shared reply carries the waiter's own id and question and the answer of a
      successful inner call that another caller made for an equal question. */
  lemma SharedRepliesAreFaithful(s: State, c: nat)
    requires Reachable(s)
    requires c < |s.pcs| == |s.msgs| && s.pcs[c].Finished? && s.pcs[c].result.Shared?
    ensures var reply, from := s.pcs[c].result.reply, s.pcs[c].result.from;
            && reply.id == s.msgs[c].id && reply.question == s.msgs[c].question && reply.response
            && from < |s.reqs| && reply.question == [s.reqs[from].key] && s.reqs[from].owner != c
            && s.reqs[from].outcome.Some? && s.reqs[from].outcome.value.Reply?
            && reply.answer == s.reqs[from].outcome.value.msg.answer
  {
    ReachableInv(s);
    assert CallerOk(s, c);
  }

  // ------------------------------------------------------------ where results come from

  /** How the result of a caller is explained by the events of a run. */
  ghost predicate Explained(msgs: seq<Message>, events: seq<Event>, c: nat, result: Result)
    requires c < |msgs|
  {
    match result
    case Own(o) => if |msgs[c].question| == 1 then InnerReturn(c, o) in events else Direct(c, o) in events
    case Shared(_, _) => |msgs[c].question| == 1 && Wake(c) in events
    case Cancelled => |msgs[c].question| == 1 && Cancel(c) in events
  }

  /** The caller's inner call has returned this outcome and only the clean-up is left. */
  predicate AboutToFinish(s: State, c: nat, o: Outcome) {
    && c < |s.pcs| && (s.pcs[c].Returned? || s.pcs[c].Closed?)
    && s.pcs[c].req < |s.reqs| && s.reqs[s.pcs[c].req].outcome == Some(o)
  }

  lemma ExplainedByMore(msgs: seq<Message>, e: Event, events: seq<Event>, c: nat, result: Result)
    requires c < |msgs|
    ensures Explained(msgs, events, c, result) ==> Explained(msgs, [e] + events, c, result)
    ensures (result.Own? && e == (if |msgs[c].question| == 1 then InnerReturn(c, result.outcome) else Direct(c, result.outcome)))
            || (result.Cancelled? && e == Cancel(c) && |msgs[c].question| == 1)
            || (result.Shared? && e == Wake(c) && |msgs[c].question| == 1) ==>
              Explained(msgs, [e] + events, c, result)
  {
    assert forall x :: x in [e] + events <==> x == e || x in events;
  }

  /** One step: what a finished caller has, it had before, or it was about to have, or the step says. */
  lemma FinishedNow(s: State, e: Event, c: nat)
    requires Inv(s) && Enabled(s, e) && c < |s.pcs| && Apply(s, e).pcs[c].Finished? && s.pcs[c] != Apply(s, e).pcs[c]
    ensures var result, single := Apply(s, e).pcs[c].result, |s.msgs[c].question| == 1;
            && (result.Own? ==> if single then AboutToFinish(s, c, result.outcome) else e == Direct(c, result.outcome))
            && (result.Shared? ==> e == Wake(c) && single)
            && (result.Cancelled? ==> e == Cancel(c) && single)
  {
    assert CallerOk(s, c);
  }

  lemma AboutToFinishNow(s: State, e: Event, c: nat, o: Outcome)
    requires Inv(s) && Enabled(s, e) && AboutToFinish(Apply(s, e), c, o)
    ensures AboutToFinish(s, c, o) || (e == InnerReturn(c, o) && |s.msgs[c].question| == 1)
  {
    assert CallerOk(s, e.c) && CallerOk(s, c);
  }

  lemma {:induction false} ResultsAreExplained(s: State, events: seq<Event>, c: nat)
    requires Inv(s) && IsRun(s, events) && c < |s.pcs|
    ensures var s' := Exec(s, events);
            && s'.msgs == s.msgs && |s'.pcs| == |s.pcs|
            && (s'.pcs[c].Finished? && s.pcs[c] != s'.pcs[c]
                && !(s'.pcs[c].result.Own? && AboutToFinish(s, c, s'.pcs[c].result.outcome)) ==>
                  Explained(s.msgs, events, c, s'.pcs[c].result))
    decreases |events|
  {
    hide Inv, CallerOk;
    if events != [] {
      var e, rest, s1, s' := events[0], events[1..], Apply(s, events[0]), Exec(s, events);
      StepKeepsInv(s, e);
      ResultsAreExplained(s1, rest, c);
      assert events == [e] + rest;
      if s'.pcs[c].Finished? {
        ExplainedByMore(s.msgs, e, rest, c, s'.pcs[c].result);
        if s1.pcs[c] == s'.pcs[c] && s.pcs[c] != s1.pcs[c] {
          FinishedNow(s, e, c);
        } else if s'.pcs[c].result.Own? && AboutToFinish(s1, c, s'.pcs[c].result.outcome) {
          AboutToFinishNow(s, e, c, s'.pcs[c].result.outcome);
        }
      }
    }
  }

  /** In every run, what a caller returns as its own is exactly what its own inner call returned, for a
      single question inside the protocol and otherwise directly; it returns a shared reply only after
      a wait, and an abandoned wait only when it was cancelled. In particular no caller gives up
      because the call it waited for failed. */
  lemma FinishedResults(msgs: seq<Message>, events: seq<Event>, c: nat)
    requires IsRun(Initial(msgs), events) && c < |msgs| == |Exec(Initial(msgs), events).pcs|
    requires Exec(Initial(msgs), events).pcs[c].Finished?
    ensures var result, single := Exec(Initial(msgs), events).pcs[c].result, |msgs[c].question| == 1;
            && (result.Own? ==> (if single then InnerReturn(c, result.outcome) else Direct(c, result.outcome)) in events)
            && (result.Shared? ==> single && Wake(c) in events)
            && (result.Cancelled? ==> single && Cancel(c) in events)
  {
    RunKeepsInv(Initial(msgs), []);
    ResultsAreExplained(Initial(msgs), events, c);
  }

  lemma OutcomeNow(s: State, e: Event, r: nat)
    requires Inv(s) && Enabled(s, e) && r < |Apply(s, e).reqs| && Apply(s, e).reqs[r].outcome.Some?
    ensures var req := Apply(s, e).reqs[r];
            (r < |s.reqs| && s.reqs[r].outcome == req.outcome) || e == InnerReturn(req.owner, req.outcome.value)
  {
    assert CallerOk(s, e.c);
  }

  lemma {:induction false} OutcomesAreReturned(s: State, events: seq<Event>, r: nat)
    requires Inv(s) && IsRun(s, events)
    ensures var s' := Exec(s, events);
            && |s.reqs| <= |s'.reqs| && (r < |s.reqs| ==> s'.reqs[r].owner == s.reqs[r].owner)
            && (r < |s'.reqs| && s'.reqs[r].outcome.Some? && !(r < |s.reqs| && s.reqs[r].outcome == s'.reqs[r].outcome) ==>
                  InnerReturn(s'.reqs[r].owner, s'.reqs[r].outcome.value) in events)
    decreases |events|
  {
    hide Inv, CallerOk;
    if events != [] {
      var e, rest, s1, s' := events[0], events[1..], Apply(s, events[0]), Exec(s, events);
      StepKeepsInv(s, e);
      OutcomesAreReturned(s1, rest, r);
      if r < |s1.reqs| && s1.reqs[r].outcome.Some? && s1.reqs[r].outcome == s'.reqs[r].outcome {
        OutcomeNow(s, e, r);
      }
      assert events == [e] + rest;
    }
  }

  /** In every run the stored outcome of a request is what the inner call of its owner returned. */
  lemma StoredOutcomes(msgs: seq<Message>, events: seq<Event>, r: nat)
    requires IsRun(Initial(msgs), events) && r < |Exec(Initial(msgs), events).reqs|
    requires Exec(Initial(msgs), events).reqs[r].outcome.Some?
    ensures var req := Exec(Initial(msgs), events).reqs[r];
            InnerReturn(req.owner, req.outcome.value) in events
  {
    RunKeepsInv(Initial(msgs), []);
    OutcomesAreReturned(Initial(msgs), events, r);
  }

  /** In every run a shared reply has the waiter's own id and question, is marked as a response, and has
      the answer of a reply that the inner call of another caller with the same question returned. */
  lemma SharedRepliesAreReturned(msgs: seq<Message>, events: seq<Event>, c: nat) returns (owner: nat, m: Message)
    requires IsRun(Initial(msgs), events) && c < |msgs| == |Exec(Initial(msgs), events).pcs|
    requires var pc := Exec(Initial(msgs), events).pcs[c]; pc.Finished? && pc.result.Shared?
    ensures var reply := Exec(Initial(msgs), events).pcs[c].result.reply;
            && owner < |msgs| && owner != c && msgs[owner].question == msgs[c].question
            && InnerReturn(owner, Reply(m)) in events
            && reply.id == msgs[c].id && reply.question == msgs[c].question && reply.response && reply.answer == m.answer
  {
    var s := Exec(Initial(msgs), events);
    RunKeepsInv(Initial(msgs), []);
    ResultsAreExplained(Initial(msgs), events, c);
    RunKeepsInv(Initial(msgs), events);
    SharedRepliesAreFaithful(s, c);
    var from := s.pcs[c].result.from;
    StoredOutcomes(msgs, events, from);
    assert RequestOk(s, from) && CallerOk(s, c);
    owner, m := s.reqs[from].owner, s.reqs[from].outcome.value.msg;
  }

  // ------------------------------------------------------------ progress

  /** The request a caller waits on is owned by a caller that is itself not waiting; while its
      channel is open that owner can always move, given that inner calls return. */
  lemma AwaitedOwnerMoves(s: State, c: nat)
    requires Reachable(s)
    requires c < |s.pcs| && s.pcs[c].Waiting?
    ensures var r := s.pcs[c].req;
            && r < |s.reqs|
            && (s.reqs[r].done ==> Enabled(s, Wake(c)))
            && (!s.reqs[r].done ==>
                  var o := s.reqs[r].owner;
                  && o < |s.pcs| && !s.pcs[o].Waiting? && o != c
                  && (Enabled(s, Close(o)) || forall outcome :: Enabled(s, InnerReturn(o, outcome))))
  {
    ReachableInv(s);
    assert CallerOk(s, c);
    assert RequestOk(s, s.pcs[c].req);
    assert CallerOk(s, s.reqs[s.pcs[c].req].owner);
  }

  /** No deadlock: while some caller has not finished, an event other than a cancellation can happen. */
  lemma NoDeadlock(s: State) returns (e: Event)
    requires Reachable(s) && !AllFinished(s)
    ensures Enabled(s, e) && !e.Cancel?
  {
    ReachableInv(s);
    var c :| 0 <= c < |s.pcs| && !s.pcs[c].Finished?;
    assert CallerOk(s, c);
    match s.pcs[c]
    case Begin => e := if HasSingleQuestion(s.msgs[c]) then LookUp(c) else Direct(c, Failure);
    case Waiting(r) =>
      AwaitedOwnerMoves(s, c);
      var o := s.reqs[r].owner;
      e := if s.reqs[r].done then Wake(c) else if Enabled(s, Close(o)) then Close(o) else InnerReturn(o, Failure);
    case Retry(_) => e := Reinstall(c);
    case Calling(_) => e := InnerReturn(c, Failure);
    case Returned(_) => e := Close(c);
    case Closed(r) =>
      assert RequestOk(s, r);
      e := CleanUp(c);
  }

  /** How many steps a caller has left at most. */
  function Rank(pc: Pc): nat {
    match pc
    case Begin => 6
    case Waiting(_) => 5
    case Retry(_) => 4
    case Calling(_) => 3
    case Returned(_) => 2
    case Closed(_) => 1
    case Finished(_) => 0
  }

  function TotalRank(pcs: seq<Pc>): nat {
    if pcs == [] then 0 else Rank(pcs[0]) + TotalRank(pcs[1..])
  }

  lemma {:induction false} RankUpdate(pcs: seq<Pc>, c: nat, pc: Pc)
    requires c < |pcs|
    ensures TotalRank(pcs[c := pc]) == TotalRank(pcs) - Rank(pcs[c]) + Rank(pc)
  {
    if c == 0 {
      assert pcs[c := pc][1..] == pcs[1..];
    } else {
      assert pcs[c := pc][1..] == pcs[1..][c - 1 := pc];
      RankUpdate(pcs[1..], c - 1, pc);
    }
  }

  lemma StepMovesOn(s: State, e: Event)
    requires Enabled(s, e)
    ensures |Apply(s, e).pcs| == |s.pcs|
    ensures Rank(Apply(s, e).pcs[e.c]) < Rank(s.pcs[e.c])
    ensures forall c :: 0 <= c < |s.pcs| && c != e.c ==> Apply(s, e).pcs[c] == s.pcs[c]
    ensures TotalRank(Apply(s, e).pcs) < TotalRank(s.pcs)
  {
    RankUpdate(s.pcs, e.c, Apply(s, e).pcs[e.c]);
  }

  lemma {:induction false} InitialRank(n: nat)
    ensures TotalRank(seq(n, _ => Begin)) == 6 * n
  {
    if n > 0 {
      assert seq(n, _ => Begin)[1..] == seq(n - 1, _ => Begin);
      InitialRank(n - 1);
    }
  }

  lemma {:induction false} RunUsesRank(s: State, events: seq<Event>)
    requires IsRun(s, events)
    ensures |events| + TotalRank(Exec(s, events).pcs) <= TotalRank(s.pcs)
    decreases |events|
  {
    if events != [] {
      StepMovesOn(s, events[0]);
      RunUsesRank(Apply(s, events[0]), events[1..]);
    }
  }

  /** Every run stops within six steps per caller; and a run that cannot go on has answered everyone
      and left the map empty. */
  lemma RunsAreBounded(msgs: seq<Message>, events: seq<Event>)
    requires IsRun(Initial(msgs), events)
    ensures |events| <= 6 * |msgs|
    ensures (forall e :: Enabled(Exec(Initial(msgs), events), e) ==> e.Cancel?) ==>
              AllFinished(Exec(Initial(msgs), events)) && Exec(Initial(msgs), events).table == map[]
  {
    var s := Exec(Initial(msgs), events);
    InitialRank(|msgs|);
    RunUsesRank(Initial(msgs), events);
    if forall e :: Enabled(s, e) ==> e.Cancel? {
      if !AllFinished(s) {
        var e := NoDeadlock(s);
        assert false;
      }
      EmptyWhenAllFinished(s);
    }
  }

  /** The end of a wait, and the end of an inner call, of the given caller. */
  function Waits(events: seq<Event>, c: nat): nat {
    if events == [] then 0
    else (if (events[0].Wake? || events[0].Cancel?) && events[0].c == c then 1 else 0) + Waits(events[1..], c)
  }

  function InnerCalls(events: seq<Event>, c: nat): nat {
    if events == [] then 0
    else (if (events[0].InnerReturn? || events[0].Direct?) && events[0].c == c then 1 else 0) + InnerCalls(events[1..], c)
  }

  /** Each caller waits at most once and makes at most one inner call. */
  lemma {:induction false} OneWaitOneCall(s: State, events: seq<Event>, c: nat)
    requires IsRun(s, events) && c < |s.pcs|
    ensures Waits(events, c) <= if Rank(s.pcs[c]) >= 5 then 1 else 0
    ensures InnerCalls(events, c) <= if Rank(s.pcs[c]) >= 3 then 1 else 0
    decreases |events|
  {
    if events != [] {
      StepMovesOn(s, events[0]);
      OneWaitOneCall(Apply(s, events[0]), events[1..], c);
    }
  }
}
