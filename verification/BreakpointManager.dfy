/** The breakpoint protocol's critical sections as they are written, each proved to be its step. */
module BreakpointManager {
  import opened Text
  import opened Breakpoints

  class Manager<M(==)> {
    var destroying: bool
    var next: nat
    var pending: seq<Pending<M>>
    ghost var destroyed: bool
    ghost var entered: map<nat, Pending<M>>
    ghost var decided: map<nat, Verdict<M>>
    ghost var returned: map<nat, Outcome<M>>

    ghost function Now(): State<M>
      reads this
    {
      State(destroying, destroyed, next, pending, entered, decided, returned)
    }

    constructor ()
      ensures Now() == Start()
    {
      destroying, next, pending := false, 0, [];
      destroyed, entered, decided, returned := false, map[], map[], map[];
    }

    method ContinuePending()
      modifies this`pending
      ensures pending == ContinueAll(old(pending))
    {
      var i := 0;
      while i < |pending|
        invariant i <= |pending| == |old(pending)|
        invariant forall k :: 0 <= k < i ==> pending[k] == ContinueAll(old(pending))[k]
        invariant forall k :: i <= k < |pending| ==> pending[k] == old(pending)[k]
      {
        if pending[i].verdict.None? {
          pending := pending[i := pending[i].(verdict := Some(LetContinue()))];
        }
        i := i + 1;
      }
    }

    /** The waiter enters the list, unless the manager is being destroyed. */
    method Join(stage: Stage, hasResponse: bool) returns (reply: Reply<M>)
      modifies this
      ensures (Now(), reply) == old(Do(Now(), Enter(stage, hasResponse)))
    {
      if destroying {
        return Refused;
      }
      next := next + 1;
      var p := Pending(next, stage, hasResponse, None);
      pending := [p] + pending;
      entered := entered[p.id := p];
      return Waiting;
    }

    method Decide(name: string, payload: Option<Payload<M>>) returns (reply: Reply<M>)
      modifies this
      ensures (Now(), reply) == old(Do(Now(), Resolve(name, payload)))
    {
      hide Name, ActionOf;
      if name == "" || payload.None? {
        return Invalid;
      }
      var action := ActionOf(payload.value.action);
      if action.None? {
        return Invalid;
      }
      var i := 0;
      while i < |pending| && Name(pending[i].id) != name
        invariant i <= |pending| && forall j :: 0 <= j < i ==> Name(pending[j].id) != name
      {
        i := i + 1;
      }
      assert i == FindName(pending, name);
      if i == |pending| || pending[i].verdict.Some? {
        return NotFound;
      }
      var p := pending[i];
      if payload.value.request.Malformed? || (p.hasResponse && payload.value.response.Malformed?) {
        return Invalid;
      }
      var v := Verdict(action.value, EditOf(payload.value.request), if p.hasResponse then EditOf(payload.value.response) else None);
      pending := pending[i := p.(verdict := Some(v))];
      decided := decided[p.id := v];
      return Resolved;
    }

    /** The waiter's side after its condition wait: it leaves the list with what was decided. */
    method Leave(id: nat, timedOut: bool) returns (reply: Reply<M>)
      modifies this
      ensures (Now(), reply) == old(Do(Now(), Wake(id, timedOut)))
    {
      var i := 0;
      while i < |pending| && pending[i].id != id
        invariant i <= |pending| && forall j :: 0 <= j < i ==> pending[j].id != id
      {
        i := i + 1;
      }
      assert i == Find(pending, id);
      if i == |pending| {
        return NotFound;
      }
      var p := pending[i];
      if p.verdict.None? && !timedOut {
        return Waiting;
      }
      var v := if p.verdict.Some? then p.verdict.value else LetContinue();
      var outcome := Outcome(v.action.Drop?, None);
      if !v.action.Drop? {
        outcome := Outcome(false, if p.stage.OnRequest? then v.request else v.response);
      }
      pending := pending[..i] + pending[i + 1..];
      returned := returned[id := outcome];
      return Returned(outcome);
    }

    method Stop()
      modifies this
      ensures Now() == old(Do(Now(), BeginDestroy)).0
    {
      destroying := true;
      ContinuePending();
    }
  }
}
