/** What holds over every run of the breakpoint protocol: decisions are final, only resolvers act, destruction drains. */
module BreakpointRuns {
  import opened Text
  import opened Breakpoints

  // ----- decisions are final

  /** Nothing that has happened is undone. */
  ghost predicate Grows<M>(st: State<M>, st': State<M>) {
    && (forall id :: id in st.entered ==> id in st'.entered && st'.entered[id] == st.entered[id])
    && (forall id :: id in st.decided ==> id in st'.decided && st'.decided[id] == st.decided[id])
    && (forall id :: id in st.returned ==> id in st'.returned && st'.returned[id] == st.returned[id])
    && (st.destroying ==> st'.destroying && st'.entered == st.entered)
    && (st.destroyed ==> st'.destroyed)
  }

  lemma StepGrows<M>(st: State<M>, step: Step<M>)
    requires Inv(st)
    ensures Grows(st, Do(st, step).0)
  {
    hide Name, ContinueAll, Accounted, ReturnsOk, WaitersOk, Unique, DoResolve, DoWake;
    match step
    case Enter(_, _) => NewIsNew(st);
    case Resolve(name, payload) => ResolveGrows(st, name, payload);
    case Wake(id, timedOut) => WakeGrows(st, id, timedOut);
    case _ =>
  }

  lemma ResolveGrows<M>(st: State<M>, name: string, payload: Option<Payload<M>>)
    requires WaitersOk(st)
    ensures Grows(st, DoResolve(st, name, payload).0)
  {
    hide Name, Decide, ActionOf, WaitersOk;
    FreshAt(st, FindName(st.pending, name));
  }

  lemma WakeGrows<M>(st: State<M>, id: nat, timedOut: bool)
    requires WaitersOk(st)
    ensures Grows(st, DoWake(st, id, timedOut).0)
  {
    hide OutcomeOf, WaitersOk;
    FreshAt(st, Find(st.pending, id));
  }

  /** A waiter in the list has not returned, and is undecided unless it holds a verdict. */
  lemma FreshAt<M>(st: State<M>, i: nat)
    requires WaitersOk(st) && i <= |st.pending|
    ensures i < |st.pending| ==> st.pending[i].id !in st.returned
    ensures i < |st.pending| && st.pending[i].verdict.None? ==> st.pending[i].id !in st.decided && !st.destroying
  {
    assert i < |st.pending| ==> WaiterOk(st, st.pending[i]);
  }

  lemma {:induction false} RunGrows<M>(steps: seq<Step<M>>, i: nat, j: nat)
    requires i <= j <= |steps|
    ensures Grows(After(steps, i), After(steps, j))
    decreases j
  {
    hide Inv, Do;
    if i < j {
      RunGrows(steps, i, j - 1);
      RunKeeps(steps, j - 1);
      StepGrows(After(steps, j - 1), steps[j - 1]);
    }
  }

  /** Step `i` is a resolution of breakpoint "bp-" and its number that reported success. */
  predicate Resolves<M>(steps: seq<Step<M>>, i: nat, id: nat) {
    i < |steps| && steps[i].Resolve? && steps[i].name == "bp-" + Decimal(id) && ReplyOf(steps, i).Resolved?
  }

  // A resolution by the words of its action: "drop" and "continue" in any case, and nothing for "continue"

  predicate SaysDrop(action: Option<string>) {
    action.Some? && SameIgnoringCase(action.value, "drop")
  }

  predicate SaysContinue(action: Option<string>) {
    action.None? || action.value == "" || SameIgnoringCase(action.value, "continue")
  }

  /** The edit that a resolution gives for a stage; there is none of a response that the waiter does not have. */
  function StageEdit<M>(payload: Payload<M>, stage: Stage, hasResponse: bool): Option<M> {
    if stage.OnRequest? && payload.request.Given? then Some(payload.request.message)
    else if stage.OnResponse? && hasResponse && payload.response.Given? then Some(payload.response.message)
    else None
  }

  /** The outcome is what the words of the resolution ask for. */
  predicate Obeys<M(==)>(outcome: Outcome<M>, payload: Payload<M>, stage: Stage, hasResponse: bool) {
    && (SaysDrop(payload.action) <==> outcome == Outcome(true, None))
    && (SaysContinue(payload.action) <==> outcome == Outcome(false, StageEdit(payload, stage, hasResponse)))
    && (SaysDrop(payload.action) || SaysContinue(payload.action))
  }

  lemma WordsDiffer(action: Option<string>)
    ensures !(SaysDrop(action) && SaysContinue(action))
  {
    assert |"drop"| == 4 && |"continue"| == 8;
  }

  lemma ActionSaid(action: Option<string>)
    ensures ActionOf(action) == Some(Drop) <==> SaysDrop(action)
    ensures ActionOf(action) == Some(Continue) <==> SaysContinue(action)
    ensures ActionOf(action).Some? <==> SaysDrop(action) || SaysContinue(action)
  {
    WordsDiffer(action);
  }

  lemma ResolvedStep<M>(st: State<M>, id: nat, payload: Option<Payload<M>>)
    requires Inv(st) && DoResolve(st, Name(id), payload).1 == Resolved
    ensures var st' := DoResolve(st, Name(id), payload).0;
            id in st'.decided && id in st'.entered && id !in st.decided && id !in st.returned && payload.Some?
            && Obeys(OutcomeOf(st'.decided[id], st'.entered[id].stage), payload.value,
                     st'.entered[id].stage, st'.entered[id].hasResponse)
  {
    hide Name, ActionOf, SaysDrop, SaysContinue;
    if payload.Some? {
      ActionSaid(payload.value.action);
    }
    var i := FindName(st.pending, Name(id));
    NamesDiffer(st.pending[i].id, id);
    assert WaiterOk(st, st.pending[i]);
  }

  /** A resolution that reports success decides what the waiter returns, whatever happens in between. */
  lemma ResolveDecides<M>(steps: seq<Step<M>>, i: nat, j: nat, id: nat)
    requires Resolves(steps, i, id) && i < j <= |steps| && id in After(steps, j).returned
    ensures id !in After(steps, i).returned && steps[i].payload.Some? && id in After(steps, j).entered
    ensures var e := After(steps, j).entered[id];
            Obeys(After(steps, j).returned[id], steps[i].payload.value, e.stage, e.hasResponse)
  {
    hide Inv, DoResolve, Obeys, OutcomeOf, Name, Decimal;
    NotBlank(id);
    RunKeeps(steps, i);
    ResolvedStep(After(steps, i), id, steps[i].payload);
    RunGrows(steps, i + 1, j);
    RunKeeps(steps, j);
    ReturnedDue(After(steps, j), id);
  }

  lemma ReturnedDue<M>(st: State<M>, id: nat)
    requires Inv(st) && id in st.returned
    ensures ReturnOk(st, id)
  {
  }

  /** What a resolution needs: a readable body, a known action, and edits that can be applied. */
  predicate Usable<M>(payload: Option<Payload<M>>, p: Pending<M>) {
    && payload.Some? && (SaysDrop(payload.value.action) || SaysContinue(payload.value.action))
    && !payload.value.request.Malformed?
    && (p.hasResponse ==> !payload.value.response.Malformed?)
  }

  /** A resolution succeeds exactly when its breakpoint is waiting undecided and it is usable, wherever it is in the list. */
  lemma ResolveSucceeds<M>(st: State<M>, id: nat, payload: Option<Payload<M>>)
    requires Inv(st)
    ensures DoResolve(st, Name(id), payload).1.Resolved? <==>
              exists i :: 0 <= i < |st.pending| && st.pending[i].id == id && st.pending[i].verdict.None? && Usable(payload, st.pending[i])
  {
    hide ActionOf, Name, SaysDrop, SaysContinue;
    if payload.Some? {
      ActionSaid(payload.value.action);
    }
    var k := FindName(st.pending, Name(id));
    NotBlank(id);
    if k < |st.pending| {
      NamesDiffer(st.pending[k].id, id);
    }
  }

  /** A resolution without a readable body, or with any other word, is invalid and changes nothing. */
  lemma OtherWordsInvalid<M>(st: State<M>, name: string, payload: Option<Payload<M>>)
    requires payload.None? || !(SaysDrop(payload.value.action) || SaysContinue(payload.value.action))
    ensures DoResolve(st, name, payload) == (st, Invalid)
  {
    hide ActionOf, SaysDrop, SaysContinue, FindName;
    if payload.Some? {
      ActionSaid(payload.value.action);
    }
  }

  lemma NotBlank(id: nat)
    ensures Name(id) == "bp-" + Decimal(id) && Name(id) != ""
  {
  }

  /** A waiter whose time is up returns at once and leaves the list, decided or not. */
  lemma TimeoutReturns<M>(st: State<M>, id: nat)
    requires Inv(st) && Waits(st.pending, id)
    ensures DoWake(st, id, true).1.Returned? && !Waits(DoWake(st, id, true).0.pending, id)
  {
    hide OutcomeOf;
    var i := Find(st.pending, id);
    assert i < |st.pending|;
    var rest := Without(st.pending, i);
    forall k | 0 <= k < |rest|
      ensures rest[k].id != id
    {
      assert rest[k] == st.pending[if k < i then k else k + 1];
    }
  }

  /** At most one resolution of a breakpoint reports success. */
  lemma ResolvedOnce<M>(steps: seq<Step<M>>, i: nat, j: nat, id: nat)
    requires Resolves(steps, i, id) && i < j < |steps|
    ensures !Resolves(steps, j, id)
  {
    hide Inv, DoResolve, Obeys, OutcomeOf, Name, Decimal;
    NotBlank(id);
    RunKeeps(steps, i);
    ResolvedStep(After(steps, i), id, steps[i].payload);
    RunGrows(steps, i + 1, j);
    RunKeeps(steps, j);
    if Resolves(steps, j, id) {
      ResolvedStep(After(steps, j), id, steps[j].payload);
    }
  }

  /** A waiter returns once: its breakpoint is gone for every later step. */
  lemma ReturnsOnce<M>(steps: seq<Step<M>>, i: nat, j: nat, id: nat)
    requires i < j < |steps| && steps[i].Wake? && steps[i].id == id && ReplyOf(steps, i).Returned?
    requires steps[j].Wake? && steps[j].id == id
    ensures ReplyOf(steps, j) == NotFound
  {
    hide Inv, DoWake;
    RunKeeps(steps, i);
    ReturnedStep(After(steps, i), id, steps[i].timedOut);
    RunGrows(steps, i + 1, j);
    RunKeeps(steps, j);
    GoneStep(After(steps, j), id, steps[j].timedOut);
  }

  lemma ReturnedStep<M>(st: State<M>, id: nat, timedOut: bool)
    requires DoWake(st, id, timedOut).1.Returned?
    ensures id in DoWake(st, id, timedOut).0.returned
  {
  }

  lemma GoneStep<M>(st: State<M>, id: nat, timedOut: bool)
    requires Inv(st) && id in st.returned
    ensures DoWake(st, id, timedOut) == (st, NotFound)
  {
    var i := Find(st.pending, id);
    assert i < |st.pending| ==> WaiterOk(st, st.pending[i]);
  }

  /** Only a resolver decides: every recorded decision is one that some resolution reported. */
  lemma {:induction false} DecidedByResolver<M>(steps: seq<Step<M>>, j: nat, id: nat) returns (i: nat)
    requires j <= |steps| && id in After(steps, j).decided
    ensures i < j && Resolves(steps, i, id)
    decreases j
  {
    hide Name, DoEnter, DoResolve, DoWake, Decimal;
    NotBlank(id);
    assert After(steps, j) == Do(After(steps, j - 1), steps[j - 1]).0;
    if id in After(steps, j - 1).decided {
      i := DecidedByResolver(steps, j - 1, id);
    } else {
      i := j - 1;
      NewDecision(After(steps, i), steps[i], id);
    }
  }

  lemma NewDecision<M>(st: State<M>, step: Step<M>, id: nat)
    requires id !in st.decided && id in Do(st, step).0.decided
    ensures step.Resolve? && step.name == Name(id) && Do(st, step).1 == Resolved
  {
    hide Name, ActionOf, Decide;
  }

  /** A waiter that drops, or returns an edit, does so because a resolver asked for exactly that. */
  lemma OnlyResolversAct<M>(steps: seq<Step<M>>, j: nat, id: nat)
    requires j <= |steps| && id in After(steps, j).returned
    requires After(steps, j).returned[id] != Outcome(false, None)
    ensures id in After(steps, j).entered
    ensures exists i: nat :: i < j && Resolves(steps, i, id) && steps[i].payload.Some?
              && Obeys(After(steps, j).returned[id], steps[i].payload.value,
                       After(steps, j).entered[id].stage, After(steps, j).entered[id].hasResponse)
  {
    hide Inv, Obeys, Name, Do;
    RunKeeps(steps, j);
    ReturnedDue(After(steps, j), id);
    var i := DecidedByResolver(steps, j, id);
    ResolveDecides(steps, i, j, id);
  }

  // ----- destroying

  /** Step `i` is an entry that was accepted. */
  predicate Enters<M>(steps: seq<Step<M>>, i: nat) {
    i < |steps| && steps[i].Enter? && ReplyOf(steps, i).Waiting?
  }

  /** Breakpoints are numbered from 1 in the order of entry. */
  lemma {:induction false} EntriesNumbered<M>(steps: seq<Step<M>>, n: nat)
    requires n <= |steps|
    ensures After(steps, n).next == |set i | 0 <= i < n && Enters(steps, i)|
    ensures n < |steps| && Enters(steps, n) ==>
              After(steps, n + 1).next == After(steps, n).next + 1 && After(steps, n + 1).next in After(steps, n + 1).entered
    decreases n
  {
    hide Enters, Do;
    var before := set i | 0 <= i < n - 1 && Enters(steps, i);
    var now := set i | 0 <= i < n && Enters(steps, i);
    if n == 0 {
      assert now == {};
    } else {
      EntriesNumbered(steps, n - 1);
      StepNumbers(steps, n - 1);
      if Enters(steps, n - 1) {
        assert now == before + {n - 1};
      } else {
        assert now == before;
      }
    }
    if n < |steps| {
      StepNumbers(steps, n);
    }
  }

  lemma ResolveCounts<M>(st: State<M>, name: string, payload: Option<Payload<M>>)
    ensures var st' := DoResolve(st, name, payload).0; st'.next == st.next && st'.destroying == st.destroying
  {
    hide FindName, Decide, ActionOf;
  }

  lemma WakeCounts<M>(st: State<M>, id: nat, timedOut: bool)
    ensures var st' := DoWake(st, id, timedOut).0; st'.next == st.next && st'.destroying == st.destroying
  {
    hide Find, OutcomeOf, Without;
  }

  lemma StepCounts<M>(st: State<M>, step: Step<M>)
    ensures var (st', reply) := Do(st, step);
            && (st'.destroying <==> st.destroying || step.BeginDestroy?)
            && (step.Enter? ==> (reply.Refused? <==> st.destroying) && (reply.Waiting? <==> !st.destroying))
            && st'.next == st.next + (if step.Enter? && reply.Waiting? then 1 else 0)
            && (step.Enter? && reply.Waiting? ==> st'.next in st'.entered)
  {
    hide DoResolve, DoWake, ContinueAll;
    match step
    case Resolve(name, payload) => ResolveCounts(st, name, payload);
    case Wake(id, timedOut) => WakeCounts(st, id, timedOut);
    case _ =>
  }

  lemma StepNumbers<M>(steps: seq<Step<M>>, i: nat)
    requires i < |steps|
    ensures After(steps, i + 1).next == After(steps, i).next + (if Enters(steps, i) then 1 else 0)
    ensures Enters(steps, i) ==> After(steps, i + 1).next in After(steps, i + 1).entered
  {
    hide Do;
    StepCounts(After(steps, i), steps[i]);
  }

  /** An entry is refused exactly when destruction has begun. */
  lemma {:induction false} RefusedExactly<M>(steps: seq<Step<M>>, j: nat)
    requires j < |steps| && steps[j].Enter?
    ensures ReplyOf(steps, j).Refused? <==> exists i :: 0 <= i < j && steps[i].BeginDestroy?
  {
    hide Do;
    DestroyingSince(steps, j);
    StepCounts(After(steps, j), steps[j]);
  }

  lemma {:induction false} DestroyingSince<M>(steps: seq<Step<M>>, n: nat)
    requires n <= |steps|
    ensures After(steps, n).destroying <==> exists i :: 0 <= i < n && steps[i].BeginDestroy?
    decreases n
  {
    hide Do;
    if n > 0 {
      DestroyingSince(steps, n - 1);
      StepCounts(After(steps, n - 1), steps[n - 1]);
    }
  }

  /** Once the manager is being destroyed, nobody can enter. */
  lemma NoLateEntry<M>(steps: seq<Step<M>>, i: nat, j: nat)
    requires i < j < |steps| && steps[i].BeginDestroy? && steps[j].Enter?
    ensures ReplyOf(steps, j) == Refused && After(steps, j).entered == After(steps, i).entered
  {
    hide ContinueAll, DoResolve, DoWake;
    assert After(steps, i + 1).destroying;
    assert After(steps, i + 1).entered == After(steps, i).entered;
    RunGrows(steps, i + 1, j);
  }

  /** The manager is freed only when everyone who ever entered has returned, and that stays so. */
  lemma FreedWhenDrained<M>(steps: seq<Step<M>>, i: nat, j: nat)
    requires i <= j <= |steps| && After(steps, i).destroyed
    ensures After(steps, j).pending == [] && After(steps, j).entered == After(steps, i).entered
    ensures forall id :: id in After(steps, j).entered ==> id in After(steps, j).returned
  {
    hide Do;
    RunKeeps(steps, i);
    RunKeeps(steps, j);
    RunGrows(steps, i, j);
  }

  /** Everyone in the list is woken, in order. */
  function Wakes<M>(ps: seq<Pending<M>>): seq<Step<M>> {
    if ps == [] then [] else [Wake(ps[0].id, false)] + Wakes(ps[1..])
  }

  function RunFrom<M>(st: State<M>, steps: seq<Step<M>>): State<M>
    decreases |steps|
  {
    if steps == [] then st else RunFrom(Do(st, steps[0]).0, steps[1..])
  }

  /** Destroying never hangs on a resolver: waking those who wait lets every one of them return. */
  lemma {:induction false} DestroyDrains<M>(st: State<M>)
    requires Inv(st) && st.destroying
    ensures RunFrom(st, Wakes(st.pending)).pending == [] && RunFrom(st, Wakes(st.pending)).destroying
    decreases |st.pending|
  {
    if st.pending != [] {
      var st' := Do(st, Wakes(st.pending)[0]).0;
      assert WaiterOk(st, st.pending[0]);
      assert st'.pending == st.pending[1..];
      StepKeeps(st, Wakes(st.pending)[0]);
      DestroyDrains(st');
      assert Wakes(st.pending)[1..] == Wakes(st'.pending);
    }
  }
}
