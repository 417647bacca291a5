/**
  The breakpoint protocol of the developer proxy. Each step below is one critical section under the manager's mutex:
  waiters enter and wake, resolvers decide, reconfiguring and destroying let everyone continue.
 */
module Breakpoints {
  import opened Text

  datatype Stage = OnRequest | OnResponse

  datatype Action = Continue | Drop

  /** An edit in a resolution: absent, a message, or text that cannot be turned into one. */
  datatype Edit<M> = Absent | Given(message: M) | Malformed

  /** The object in a resolution's body. */
  datatype Payload<M> = Payload(action: Option<string>, request: Edit<M>, response: Edit<M>)

  /** A decision: what to do, and the edits that are in force. */
  datatype Verdict<M> = Verdict(action: Action, request: Option<M>, response: Option<M>)

  /** A waiter in the list; it is resolved once it has a verdict. */
  datatype Pending<M> = Pending(id: nat, stage: Stage, hasResponse: bool, verdict: Option<Verdict<M>>)

  /** What a waiter returns with. */
  datatype Outcome<M> = Outcome(drop: bool, edit: Option<M>)

  /** The manager, and what has happened so far: who entered, what resolvers decided, what waiters returned. */
  datatype State<M> = State(
    destroying: bool, destroyed: bool, next: nat, pending: seq<Pending<M>>,
    entered: map<nat, Pending<M>>, decided: map<nat, Verdict<M>>, returned: map<nat, Outcome<M>>)

  datatype Step<M> =
    | Enter(stage: Stage, hasResponse: bool)
    | Resolve(name: string, payload: Option<Payload<M>>)
    | Wake(id: nat, timedOut: bool)
    | Reconfigure
    | BeginDestroy
    | EndDestroy

  datatype Reply<M> = Waiting | Refused | Resolved | NotFound | Invalid | Returned(outcome: Outcome<M>) | Done | Blocked

  /** What an action's text asks for: continue when it is empty or missing, nothing when it is neither word. */
  function ActionOf(text: Option<string>): Option<Action> {
    if text.None? || text.value == "" || SameIgnoringCase(text.value, "continue") then Some(Continue)
    else if SameIgnoringCase(text.value, "drop") then Some(Drop)
    else None
  }

  function LetContinue<M>(): Verdict<M> {
    Verdict(Continue, None, None)
  }

  function OutcomeOf<M>(v: Verdict<M>, stage: Stage): Outcome<M> {
    if v.action.Drop? then Outcome(true, None)
    else Outcome(false, if stage.OnRequest? then v.request else v.response)
  }

  /** The identifier that a resolver sees. */
  function Name(id: nat): string {
    "bp-" + Decimal(id)
  }

  lemma NamesDiffer(a: nat, b: nat)
    requires Name(a) == Name(b)
    ensures a == b
  {
    assert Name(a)[3..] == Decimal(a) && Name(b)[3..] == Decimal(b);
    DecimalRoundTrip(a);
    DecimalRoundTrip(b);
  }

  /** The position of the waiter with that name, or the list's length. */
  function FindName<M>(ps: seq<Pending<M>>, name: string): (i: nat)
    ensures i <= |ps| && (i < |ps| ==> Name(ps[i].id) == name)
    ensures forall j :: 0 <= j < i ==> Name(ps[j].id) != name
  {
    if ps == [] || Name(ps[0].id) == name then 0
    else
      var i := FindName(ps[1..], name) + 1;
      assert forall j :: 0 < j < i ==> ps[j] == ps[1..][j - 1];
      i
  }

  /** The position of a waiter in the list, or the list's length. */
  function Find<M>(ps: seq<Pending<M>>, id: nat): (i: nat)
    ensures i <= |ps| && (i < |ps| ==> ps[i].id == id)
    ensures forall j :: 0 <= j < i ==> ps[j].id != id
  {
    if ps == [] || ps[0].id == id then 0
    else
      var i := Find(ps[1..], id) + 1;
      assert forall j :: 0 < j < i ==> ps[j] == ps[1..][j - 1];
      i
  }

  /** Everyone who is still undecided is let through unchanged. */
  function ContinueAll<M>(ps: seq<Pending<M>>): (qs: seq<Pending<M>>)
    ensures |qs| == |ps|
    ensures forall i :: 0 <= i < |ps| ==> qs[i] == if ps[i].verdict.Some? then ps[i] else ps[i].(verdict := Some(LetContinue()))
  {
    if ps == [] then []
    else [if ps[0].verdict.Some? then ps[0] else ps[0].(verdict := Some(LetContinue()))] + ContinueAll(ps[1..])
  }

  function Without<M>(ps: seq<Pending<M>>, i: nat): seq<Pending<M>>
    requires i < |ps|
  {
    ps[..i] + ps[i + 1..]
  }

  function EditOf<M>(e: Edit<M>): Option<M> {
    match e
    case Given(m) => Some(m)
    case _ => None
  }

  /** The verdict of a resolution for `p`: none when an edit it needs is malformed. */
  function Decide<M>(p: Pending<M>, action: Action, request: Edit<M>, response: Edit<M>): Option<Verdict<M>> {
    if request.Malformed? || (p.hasResponse && response.Malformed?) then None
    else Some(Verdict(action, EditOf(request), if p.hasResponse then EditOf(response) else None))
  }

  // ----- steps

  function DoEnter<M>(st: State<M>, stage: Stage, hasResponse: bool): (State<M>, Reply<M>) {
    if st.destroying then (st, Refused)
    else
      var p := Pending(st.next + 1, stage, hasResponse, None);
      (st.(next := st.next + 1, pending := [p] + st.pending, entered := st.entered[p.id := p]), Waiting)
  }

  function DoResolve<M>(st: State<M>, name: string, payload: Option<Payload<M>>): (State<M>, Reply<M>) {
    var i := FindName(st.pending, name);
    if name == "" || payload.None? || ActionOf(payload.value.action).None? then (st, Invalid)
    else if i == |st.pending| || st.pending[i].verdict.Some? then (st, NotFound)
    else
      match Decide(st.pending[i], ActionOf(payload.value.action).value, payload.value.request, payload.value.response)
      case None => (st, Invalid)
      case Some(v) => (Decided(st, i, v), Resolved)
  }

  function Decided<M>(st: State<M>, i: nat, v: Verdict<M>): State<M>
    requires i < |st.pending|
  {
    st.(pending := st.pending[i := st.pending[i].(verdict := Some(v))], decided := st.decided[st.pending[i].id := v])
  }

  /** The waiter's turn: it goes on waiting unless it is resolved or its time is up. */
  function DoWake<M>(st: State<M>, id: nat, timedOut: bool): (State<M>, Reply<M>) {
    var i := Find(st.pending, id);
    if i == |st.pending| then (st, NotFound)
    else if st.pending[i].verdict.None? && !timedOut then (st, Waiting)
    else
      var p := st.pending[i];
      var outcome := OutcomeOf(if p.verdict.Some? then p.verdict.value else LetContinue(), p.stage);
      (st.(pending := Without(st.pending, i), returned := st.returned[id := outcome]), Returned(outcome))
  }

  function Do<M>(st: State<M>, step: Step<M>): (State<M>, Reply<M>) {
    match step
    case Enter(stage, hasResponse) => DoEnter(st, stage, hasResponse)
    case Resolve(name, payload) => DoResolve(st, name, payload)
    case Wake(id, timedOut) => DoWake(st, id, timedOut)
    case Reconfigure => (st.(pending := ContinueAll(st.pending)), Done)
    case BeginDestroy => (st.(destroying := true, pending := ContinueAll(st.pending)), Done)
    case EndDestroy => if st.destroying && st.pending == [] then (st.(destroyed := true), Done) else (st, Blocked)
  }

  function Start<M>(): State<M> {
    State(false, false, 0, [], map[], map[], map[])
  }

  /** The state after the first `n` steps. */
  function After<M>(steps: seq<Step<M>>, n: nat): State<M>
    requires n <= |steps|
    decreases n
  {
    if n == 0 then Start() else Do(After(steps, n - 1), steps[n - 1]).0
  }

  /** What step number `i` replied. */
  function ReplyOf<M>(steps: seq<Step<M>>, i: nat): Reply<M>
    requires i < |steps|
  {
    Do(After(steps, i), steps[i]).1
  }

  // ----- what every run keeps

  predicate Unique<M>(ps: seq<Pending<M>>) {
    forall i, j :: 0 <= i < j < |ps| ==> ps[i].id != ps[j].id
  }

  predicate Waits<M>(ps: seq<Pending<M>>, id: nat) {
    exists i :: 0 <= i < |ps| && ps[i].id == id
  }

  /** The verdict that a waiter must act on: the resolver's decision, or to continue unchanged. */
  function Due<M>(st: State<M>, id: nat): Verdict<M> {
    if id in st.decided then st.decided[id] else LetContinue()
  }

  /** A waiter is who it entered as, has not returned, and holds no verdict but the one that is due. */
  predicate WaiterOk<M(==)>(st: State<M>, p: Pending<M>) {
    && 0 < p.id <= st.next && p.id !in st.returned
    && p.id in st.entered && st.entered[p.id] == p.(verdict := None)
    && (p.verdict.Some? ==> p.verdict.value == Due(st, p.id))
    && (p.verdict.None? ==> p.id !in st.decided && !st.destroying)
  }

  predicate ReturnOk<M(==)>(st: State<M>, id: nat) {
    id in st.returned && id in st.entered && 0 < id <= st.next
    && st.returned[id] == OutcomeOf(Due(st, id), st.entered[id].stage)
  }

  predicate WaitersOk<M(==)>(st: State<M>) {
    forall i :: 0 <= i < |st.pending| ==> WaiterOk(st, st.pending[i])
  }

  predicate ReturnsOk<M(==)>(st: State<M>) {
    forall id :: id in st.returned ==> ReturnOk(st, id)
  }

  /** Identifiers are those given out, and everyone who entered is waiting or has returned. */
  predicate Accounted<M>(st: State<M>) {
    && (forall id :: id in st.decided ==> 0 < id <= st.next)
    && (forall id :: id in st.entered ==> 0 < id <= st.next && (id in st.returned || Waits(st.pending, id)))
  }

  predicate Inv<M(==)>(st: State<M>) {
    && Unique(st.pending) && WaitersOk(st) && ReturnsOk(st) && Accounted(st)
    && (st.destroyed ==> st.destroying && st.pending == [])
  }

  // Entering

  lemma EnterKeeps<M>(st: State<M>, stage: Stage, hasResponse: bool)
    requires Inv(st)
    ensures Inv(DoEnter(st, stage, hasResponse).0)
  {
    hide Unique, WaitersOk, ReturnsOk, Accounted;
    if !st.destroying {
      EnterWaiters(st, stage, hasResponse);
      EnterAccounts(st, stage, hasResponse);
    }
  }

  lemma EnterWaiters<M>(st: State<M>, stage: Stage, hasResponse: bool)
    requires !st.destroying && Unique(st.pending) && WaitersOk(st) && ReturnsOk(st) && Accounted(st)
    ensures var st' := DoEnter(st, stage, hasResponse).0; Unique(st'.pending) && WaitersOk(st')
  {
    hide Accounted, ReturnsOk;
    var st' := DoEnter(st, stage, hasResponse).0;
    NewIsNew(st);
    forall i | 0 <= i < |st'.pending|
      ensures WaiterOk(st', st'.pending[i])
    {
      assert i > 0 ==> st'.pending[i] == st.pending[i - 1] && WaiterOk(st, st.pending[i - 1]);
    }
  }

  lemma NewIsNew<M>(st: State<M>)
    requires ReturnsOk(st) && Accounted(st)
    ensures st.next + 1 !in st.returned && st.next + 1 !in st.decided && st.next + 1 !in st.entered
  {
    assert st.next + 1 in st.returned ==> ReturnOk(st, st.next + 1);
  }

  lemma EnterAccounts<M>(st: State<M>, stage: Stage, hasResponse: bool)
    requires !st.destroying && ReturnsOk(st) && Accounted(st)
    ensures var st' := DoEnter(st, stage, hasResponse).0; ReturnsOk(st') && Accounted(st')
  {
    var st' := DoEnter(st, stage, hasResponse).0;
    forall id | id in st'.returned
      ensures ReturnOk(st', id)
    {
      assert ReturnOk(st, id);
    }
    assert st'.pending[0].id == st'.next;
    forall id | id in st'.entered
      ensures id in st'.returned || Waits(st'.pending, id)
    {
      if id in st.entered && id !in st.returned {
        var k :| 0 <= k < |st.pending| && st.pending[k].id == id;
        assert st'.pending[k + 1].id == id;
      }
    }
  }

  // Resolving

  lemma ResolveKeeps<M>(st: State<M>, name: string, payload: Option<Payload<M>>)
    requires Inv(st)
    ensures Inv(DoResolve(st, name, payload).0)
  {
    hide Decide, ActionOf, Decided, Inv, Name;
    var i := FindName(st.pending, name);
    if DoResolve(st, name, payload).1 == Resolved {
      var v := Decide(st.pending[i], ActionOf(payload.value.action).value, payload.value.request, payload.value.response).value;
      DecidedKeeps(st, i, v);
    }
  }

  lemma DecidedKeeps<M>(st: State<M>, i: nat, v: Verdict<M>)
    requires Inv(st) && i < |st.pending| && st.pending[i].verdict.None?
    ensures Inv(Decided(st, i, v))
  {
    hide Accounted;
    var st' := Decided(st, i, v);
    assert WaiterOk(st, st.pending[i]);
    forall k | 0 <= k < |st'.pending|
      ensures WaiterOk(st', st'.pending[k])
    {
      assert WaiterOk(st, st.pending[k]);
    }
    forall r | r in st'.returned
      ensures ReturnOk(st', r)
    {
      assert ReturnOk(st, r);
    }
    AccountedIds(st);
    SameWaiters(st, st');
  }

  /** Changing verdicts alone leaves everyone accounted for. */
  lemma SameWaiters<M>(st: State<M>, st': State<M>)
    requires Accounted(st) && st'.next == st.next && st'.entered == st.entered && st'.returned == st.returned
    requires |st'.pending| == |st.pending| && forall k :: 0 <= k < |st.pending| ==> st'.pending[k].id == st.pending[k].id
    requires forall id :: id in st'.decided ==> 0 < id <= st.next
    ensures Accounted(st')
  {
    forall id | id in st'.entered
      ensures id in st'.returned || Waits(st'.pending, id)
    {
      if id !in st.returned {
        var k :| 0 <= k < |st.pending| && st.pending[k].id == id;
        assert st'.pending[k].id == id;
      }
    }
  }

  // Waking

  lemma WakeKeeps<M>(st: State<M>, id: nat, timedOut: bool)
    requires Inv(st)
    ensures Inv(DoWake(st, id, timedOut).0)
  {
    hide WaitersOk, ReturnsOk, Accounted, Unique;
    if DoWake(st, id, timedOut).1.Returned? {
      WakeWaiters(st, id, timedOut);
      WakeReturns(st, id, timedOut);
      WakeAccounts(st, id, timedOut);
    }
  }

  /** Someone else's return leaves a waiter as it was. */
  lemma WaiterStays<M>(st: State<M>, st': State<M>, id: nat, p: Pending<M>)
    requires WaiterOk(st, p) && p.id != id && st'.next == st.next && st'.entered == st.entered
    requires st'.decided == st.decided && st'.destroying == st.destroying
    requires forall r :: r in st'.returned ==> r == id || r in st.returned
    ensures WaiterOk(st', p)
  {
  }

  lemma WakeWaiters<M>(st: State<M>, id: nat, timedOut: bool)
    requires Unique(st.pending) && WaitersOk(st) && DoWake(st, id, timedOut).1.Returned?
    ensures var st' := DoWake(st, id, timedOut).0; Unique(st'.pending) && WaitersOk(st')
  {
    hide WaiterOk, OutcomeOf;
    var st' := DoWake(st, id, timedOut).0;
    var i := Find(st.pending, id);
    forall k | 0 <= k < |st'.pending|
      ensures WaiterOk(st', st'.pending[k])
    {
      var was := if k < i then k else k + 1;
      assert st'.pending[k] == st.pending[was] && WaiterOk(st, st.pending[was]);
      WaiterStays(st, st', id, st.pending[was]);
    }
  }

  lemma WakeReturns<M>(st: State<M>, id: nat, timedOut: bool)
    requires WaitersOk(st) && ReturnsOk(st) && DoWake(st, id, timedOut).1.Returned?
    ensures ReturnsOk(DoWake(st, id, timedOut).0)
  {
    var st' := DoWake(st, id, timedOut).0;
    assert WaiterOk(st, st.pending[Find(st.pending, id)]);
    forall r | r in st'.returned
      ensures ReturnOk(st', r)
    {
      assert r != id ==> ReturnOk(st, r);
    }
  }

  lemma WakeAccounts<M>(st: State<M>, id: nat, timedOut: bool)
    requires Accounted(st) && DoWake(st, id, timedOut).1.Returned?
    ensures Accounted(DoWake(st, id, timedOut).0)
  {
    var st' := DoWake(st, id, timedOut).0;
    var i := Find(st.pending, id);
    forall r | r in st'.entered
      ensures r in st'.returned || Waits(st'.pending, r)
    {
      if r !in st'.returned {
        var k :| 0 <= k < |st.pending| && st.pending[k].id == r;
        assert k != i && st'.pending[if k < i then k else k - 1].id == r;
      }
    }
  }

  // Letting everyone continue

  lemma ContinueKeeps<M>(st: State<M>, destroying: bool)
    requires Inv(st) && (st.destroying ==> destroying)
    ensures Inv(st.(destroying := destroying, pending := ContinueAll(st.pending)))
  {
    hide ContinueAll, Accounted;
    var st' := st.(destroying := destroying, pending := ContinueAll(st.pending));
    AccountedIds(st);
    SameWaiters(st, st');
    forall k | 0 <= k < |st'.pending|
      ensures WaiterOk(st', st'.pending[k])
    {
      assert WaiterOk(st, st.pending[k]);
    }
    forall r | r in st'.returned
      ensures ReturnOk(st', r)
    {
      assert ReturnOk(st, r);
    }
    assert Unique(st'.pending) by {
      assert forall k :: 0 <= k < |st.pending| ==> st'.pending[k].id == st.pending[k].id;
    }
  }

  lemma AccountedIds<M>(st: State<M>)
    requires Accounted(st)
    ensures forall id :: id in st.decided ==> 0 < id <= st.next
  {
  }

  lemma StepKeeps<M>(st: State<M>, step: Step<M>)
    requires Inv(st)
    ensures Inv(Do(st, step).0)
  {
    hide Inv, DoEnter, DoResolve, DoWake;
    match step
    case Enter(stage, hasResponse) => EnterKeeps(st, stage, hasResponse);
    case Resolve(name, payload) => ResolveKeeps(st, name, payload);
    case Wake(id, timedOut) => WakeKeeps(st, id, timedOut);
    case Reconfigure => ContinueKeeps(st, st.destroying);
    case BeginDestroy => ContinueKeeps(st, true);
    case EndDestroy =>
      if st.destroying && st.pending == [] {
        EndKeeps(st);
      }
  }

  lemma EndKeeps<M>(st: State<M>)
    requires Inv(st) && st.destroying && st.pending == []
    ensures Inv(st.(destroyed := true))
  {
    SameWaiters(st, st.(destroyed := true));
    forall r | r in st.returned
      ensures ReturnOk(st.(destroyed := true), r)
    {
      assert ReturnOk(st, r);
    }
  }

  lemma {:induction false} RunKeeps<M>(steps: seq<Step<M>>, n: nat)
    requires n <= |steps|
    ensures Inv(After(steps, n))
    decreases n
  {
    if n > 0 {
      hide Inv, Do;
      RunKeeps(steps, n - 1);
      StepKeeps(After(steps, n - 1), steps[n - 1]);
    }
  }
}
