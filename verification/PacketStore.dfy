/**
  Programs over any number of packet objects of one kind: they make objects, call them, and move them into
  new objects or onto existing ones. A `unique_ptr` per object says which hidden state it holds, so what is
  known about the calls on one state carries over to every program.
 */
module PacketStore {
  import opened Bytes
  import opened Errors
  import opened Gcm
  import opened PacketStream
  import opened PacketTraces
  import opened PacketEmission

  /** `owner[o]` is the state that object `o` holds, if any; `made[k]` is what state `k` started as. */
  datatype Store = Store(owner: seq<Option<nat>>, made: seq<PacketState>, states: seq<PacketState>)

  datatype Op<C> =
    | Make(key: Key, aad: bytes)
    | Invoke(on: nat, call: C)
    | MoveConstruct(from: nat)
    | MoveAssign(to: nat, from: nat)

  /** A call on an object, the state it held, and what the call returned. */
  datatype Event<C> = Event(state: Option<nat>, call: C, result: Result<bytes>)

  const EMPTY := Store([], [], [])

  /** The operation names objects that exist. */
  predicate OpFits<C>(s: Store, op: Op<C>)
  {
    match op
    case Make(_, _) => true
    case Invoke(o, _) => o < |s.owner|
    case MoveConstruct(from) => from < |s.owner|
    case MoveAssign(to, from) => to < |s.owner| && from < |s.owner|
  }

  predicate HoldsState(s: Store, o: nat)
  {
    o < |s.owner| && s.owner[o].Some? && s.owner[o].value < |s.states|
  }

  /** Moving empties the source; the state the target held is destroyed. Moving an object onto itself does nothing. */
  function OwnerAfter<C>(s: Store, op: Op<C>): seq<Option<nat>>
    requires OpFits(s, op)
  {
    match op
    case Make(_, aad) => if |aad| > INT_MAX then s.owner else s.owner + [Some(|s.states|)]
    case Invoke(_, _) => s.owner
    case MoveConstruct(from) => s.owner[from := None] + [s.owner[from]]
    case MoveAssign(to, from) => s.owner[from := None][to := s.owner[from]]
  }

  /** Some operations that fit one after another, what they lead to, and the calls among them. */
  function Program<C>(step: Step<C>, ops: seq<Op<C>>): (r: (Store, seq<Event<C>>))
    decreases |ops|
  {
    if ops == [] then (EMPTY, [])
    else
      var (s, log) := Program(step, ops[..|ops| - 1]);
      Perform(step, s, log, ops[|ops| - 1])
  }

  /** A call on an object that exists. */
  function Called<C>(step: Step<C>, s: Store, o: nat, call: C): (Store, Event<C>)
  {
    if HoldsState(s, o) then
      var k := s.owner[o].value;
      var (next, result) := step(s.states[k], call);
      (s.(states := s.states[k := next]), Event(Some(k), call, result))
    else (s, Event(None, call, step(Moved, call).1))
  }

  /** One operation. A `Make` that throws makes nothing, and there are no operations on objects that do not exist. */
  function Perform<C>(step: Step<C>, s: Store, log: seq<Event<C>>, op: Op<C>): (Store, seq<Event<C>>)
  {
    if !OpFits(s, op) then (s, log)
    else
      var owner := OwnerAfter(s, op);
      match op
      case Make(key, aad) =>
        if |aad| > INT_MAX then (s, log)
        else (Store(owner, s.made + [Fresh(key, aad)], s.states + [Fresh(key, aad)]), log)
      case Invoke(o, call) =>
        var (t, e) := Called(step, s, o, call);
        (t, log + [e])
      case MoveConstruct(_) | MoveAssign(_, _) => (s.(owner := owner), log)
  }

  // ---------- Ownership ----------

  /** Objects hold existing states, and no two hold the same one. */
  ghost predicate Exclusive(s: Store)
  {
    && |s.made| == |s.states|
    && (forall o :: 0 <= o < |s.owner| && s.owner[o].Some? ==> s.owner[o].value < |s.states|)
    && (forall o, p :: 0 <= o < p < |s.owner| && s.owner[o].Some? ==> s.owner[o] != s.owner[p])
  }

  lemma PerformKeepsExclusive<C>(step: Step<C>, s: Store, log: seq<Event<C>>, op: Op<C>)
    requires Exclusive(s)
    ensures Exclusive(Perform(step, s, log, op).0)
  {
  }

  lemma {:induction false} ProgramIsExclusive<C>(step: Step<C>, ops: seq<Op<C>>)
    ensures Exclusive(Program(step, ops).0)
    decreases |ops|
  {
    hide Perform, Exclusive;
    if ops == [] {
      EmptyIsExclusive();
    } else {
      var (s, log) := Program(step, ops[..|ops| - 1]);
      ProgramIsExclusive(step, ops[..|ops| - 1]);
      PerformKeepsExclusive(step, s, log, ops[|ops| - 1]);
    }
  }

  lemma EmptyIsExclusive()
    ensures Exclusive(EMPTY)
  {
  }

  // ---------- One state at a time ----------

  /** The calls that state `k` has seen. */
  function CallsOn<C>(log: seq<Event<C>>, k: nat): seq<C>
    decreases |log|
  {
    if log == [] then []
    else
      var last := log[|log| - 1];
      CallsOn(log[..|log| - 1], k) + if last.state == Some(k) then [last.call] else []
  }

  function ResultsOn<C>(log: seq<Event<C>>, k: nat): (r: seq<Result<bytes>>)
    ensures |r| == |CallsOn(log, k)|
    decreases |log|
  {
    if log == [] then []
    else
      var last := log[|log| - 1];
      ResultsOn(log[..|log| - 1], k) + if last.state == Some(k) then [last.result] else []
  }

  /** State `k` is what the calls on it make of what it started as. */
  ghost predicate Projects<C>(step: Step<C>, s: Store, log: seq<Event<C>>, k: nat)
    requires k < |s.states| && |s.made| == |s.states|
  {
    && Run(step, s.made[k], CallsOn(log, k)) == (s.states[k], ResultsOn(log, k))
    && s.made[k].Live? && s.made[k] == Fresh(s.made[k].key, s.made[k].aad) && |s.made[k].aad| <= INT_MAX
  }

  /** No state with this number has been called yet. */
  ghost predicate Unseen<C>(log: seq<Event<C>>, n: nat)
  {
    forall i :: 0 <= i < |log| && log[i].state.Some? ==> log[i].state.value < n
  }

  lemma {:induction false} UnseenCalls<C>(log: seq<Event<C>>, k: nat)
    requires Unseen(log, k)
    ensures CallsOn(log, k) == []
    decreases |log|
  {
    if log == [] {
    } else {
      UnseenCalls(log[..|log| - 1], k);
    }
  }

  lemma LogSnoc<C>(log: seq<Event<C>>, e: Event<C>, k: nat)
    ensures CallsOn(log + [e], k) == CallsOn(log, k) + (if e.state == Some(k) then [e.call] else [])
    ensures ResultsOn(log + [e], k) == ResultsOn(log, k) + (if e.state == Some(k) then [e.result] else [])
  {
    assert (log + [e])[..|log|] == log;
  }

  lemma CalledState<C>(step: Step<C>, s: Store, o: nat, call: C, k: nat)
    requires k < |s.states|
    ensures var (t, e) := Called(step, s, o, call);
            && t.made == s.made && |t.states| == |s.states| && e.call == call
            && if e.state == Some(k) then (t.states[k], e.result) == step(s.states[k], call)
               else t.states[k] == s.states[k]
  {
  }

  lemma CalledSize<C>(step: Step<C>, s: Store)
    ensures forall o, call :: |Called(step, s, o, call).0.states| == |s.states|
  {
  }

  lemma InvokeProjects<C>(step: Step<C>, s: Store, log: seq<Event<C>>, o: nat, call: C, k: nat)
    requires k < |s.states| && |s.made| == |s.states| && Projects(step, s, log, k)
    ensures var (t, e) := Called(step, s, o, call);
            k < |t.states| && |t.made| == |t.states| && Projects(step, t, log + [e], k)
  {
    var (t, e) := Called(step, s, o, call);
    CalledState(step, s, o, call, k);
    LogSnoc(log, e, k);
    hide Run, CallsOn, ResultsOn, Called;
    if e.state == Some(k) {
      RunSnoc(step, s.made[k], CallsOn(log, k), call);
    } else {
      assert CallsOn(log + [e], k) == CallsOn(log, k) && ResultsOn(log + [e], k) == ResultsOn(log, k);
    }
  }

  lemma PerformProjects<C>(step: Step<C>, s: Store, log: seq<Event<C>>, op: Op<C>, k: nat)
    requires Exclusive(s) && Unseen(log, |s.states|)
    requires k < |s.states| ==> Projects(step, s, log, k)
    requires var (t, _) := Perform(step, s, log, op); k < |t.states| && |t.made| == |t.states|
    ensures var (t, more) := Perform(step, s, log, op); Projects(step, t, more, k)
  {
    hide Run, Called;
    CalledSize(step, s);
    if OpFits(s, op) && op.Invoke? {
      InvokeProjects(step, s, log, op.on, op.call, k);
    } else if k == |s.states| {
      UnseenCalls(log, k);
      NoCallsOn(step, Perform(step, s, log, op).0.made[k]);
    }
  }

  lemma NoCallsOn<C>(step: Step<C>, st: PacketState)
    ensures Run(step, st, []) == (st, [])
  {
  }

  /** Every state of every program is what its own calls make of a fresh one. */
  lemma {:induction false} ProgramProjects<C>(step: Step<C>, ops: seq<Op<C>>)
    ensures var (s, log) := Program(step, ops);
            && Exclusive(s) && Unseen(log, |s.states|)
            && forall k :: 0 <= k < |s.states| ==> Projects(step, s, log, k)
    decreases |ops|
  {
    hide Perform, Projects, Exclusive, Unseen;
    ProgramIsExclusive(step, ops);
    var (s, log) := Program(step, ops);
    MadeAsManyAsStates(s);
    if ops == [] {
      NothingSeen<C>(0);
    } else {
      var front := ops[..|ops| - 1];
      var (before, earlier) := Program(step, front);
      ProgramProjects(step, front);
      PerformUnseen(step, before, earlier, ops[|ops| - 1]);
      forall k | 0 <= k < |s.states|
        ensures Projects(step, s, log, k)
      {
        PerformProjects(step, before, earlier, ops[|ops| - 1], k);
      }
    }
  }

  lemma MadeAsManyAsStates(s: Store)
    requires Exclusive(s)
    ensures |s.made| == |s.states|
  {
  }

  lemma NothingSeen<C>(n: nat)
    ensures Unseen<C>([], n)
  {
  }

  lemma PerformUnseen<C>(step: Step<C>, s: Store, log: seq<Event<C>>, op: Op<C>)
    requires Exclusive(s) && Unseen(log, |s.states|)
    ensures var (t, more) := Perform(step, s, log, op); Unseen(more, |t.states|)
  {
  }

  // ---------- What programs keep ----------

  /** What every call keeps: consistency, key and associated data, and the order of phases. */
  ghost predicate Orderly<C(!new)>(step: Step<C>)
  {
    forall st: PacketState, call: C :: st.Live? && Consistent(st) ==> Onward(st, step(st, call).0)
  }

  /** The state may follow: still there, consistent, under the same key, and not in an earlier phase. */
  ghost predicate Onward(st: PacketState, next: PacketState)
  {
    && st.Live? && next.Live? && Consistent(next)
    && next.key == st.key && next.aad == st.aad && Rank(st) <= Rank(next)
  }

  lemma EncryptorsAreOrderly(suite: Suite)
    ensures Orderly(EncryptorOf(suite))
  {
    forall st: PacketState, call: EncryptorCall | st.Live? && Consistent(st)
      ensures Onward(st, EncryptorOf(suite)(st, call).0)
    {
      EncryptorStepKeeps(suite, st, call);
      assert EncryptorOf(suite)(st, call) == EncryptorStep(suite, st, call);
    }
  }

  lemma DecryptorsAreOrderly(suite: Suite)
    ensures Orderly(DecryptorOf(suite))
  {
    forall st: PacketState, call: DecryptorCall | st.Live? && Consistent(st)
      ensures Onward(st, DecryptorOf(suite)(st, call).0)
    {
      DecryptorStepKeeps(suite, st, call);
      assert DecryptorOf(suite)(st, call) == DecryptorStep(suite, st, call);
    }
  }

  ghost predicate AllConsistent(s: Store)
  {
    forall k :: 0 <= k < |s.states| ==> s.states[k].Live? && Consistent(s.states[k])
  }

  /** From one store to a later one: states only go onward, and a state that no object holds stays lost. */
  ghost predicate Advances(s: Store, t: Store)
  {
    && |s.states| <= |t.states| && |s.owner| <= |t.owner|
    && (forall k :: 0 <= k < |s.states| ==> Onward(s.states[k], t.states[k]))
    && (forall k :: 0 <= k < |s.states| && Lost(s, k) ==> Lost(t, k) && t.states[k] == s.states[k])
  }

  ghost predicate Lost(s: Store, k: nat)
  {
    forall o :: 0 <= o < |s.owner| ==> s.owner[o] != Some(k)
  }

  lemma PerformAdvances<C(!new)>(step: Step<C>, s: Store, log: seq<Event<C>>, op: Op<C>)
    requires Orderly(step) && Exclusive(s) && AllConsistent(s)
    ensures Advances(s, Perform(step, s, log, op).0) && AllConsistent(Perform(step, s, log, op).0)
  {
    var t := Perform(step, s, log, op).0;
    hide Consistent, Rank;
    if OpFits(s, op) && op.Invoke? && HoldsState(s, op.on) {
      var k := s.owner[op.on].value;
      assert Onward(s.states[k], step(s.states[k], op.call).0);
    }
    forall k | 0 <= k < |s.states|
      ensures Onward(s.states[k], t.states[k])
    {
      OnwardItself(s.states[k]);
    }
    FreshIsConsistent();
  }

  lemma OnwardItself(st: PacketState)
    requires st.Live? && Consistent(st)
    ensures Onward(st, st)
  {
  }

  lemma FreshIsConsistent()
    ensures forall key, aad :: Consistent(Fresh(key, aad))
  {
  }

  lemma AdvancesOn(s: Store, t: Store, u: Store)
    requires Advances(s, t) && Advances(t, u)
    ensures Advances(s, u)
  {
    hide Consistent, Rank;
    forall k | 0 <= k < |s.states|
      ensures Onward(s.states[k], u.states[k])
    {
      OnwardOn(s.states[k], t.states[k], u.states[k]);
    }
  }

  lemma OnwardOn(a: PacketState, b: PacketState, c: PacketState)
    requires Onward(a, b) && Onward(b, c)
    ensures Onward(a, c)
  {
    hide Consistent;
  }

  lemma {:induction false} ProgramIsConsistent<C(!new)>(step: Step<C>, ops: seq<Op<C>>)
    requires Orderly(step)
    ensures Exclusive(Program(step, ops).0) && AllConsistent(Program(step, ops).0)
    decreases |ops|
  {
    hide Perform, Exclusive, AllConsistent, Orderly;
    ProgramIsExclusive(step, ops);
    if ops == [] {
      EmptyIsConsistent();
    } else {
      var (s, log) := Program(step, ops[..|ops| - 1]);
      ProgramIsConsistent(step, ops[..|ops| - 1]);
      PerformAdvances(step, s, log, ops[|ops| - 1]);
    }
  }

  lemma EmptyIsConsistent()
    ensures AllConsistent(EMPTY)
  {
  }

  /**
    However a program goes on, with calls that fail and moves of every kind: the phase of a state only
    advances, it stays consistent under its key and associated data, and a state lost to a move assignment
    is never reached again.
   */
  lemma {:induction false} ProgramAdvances<C(!new)>(step: Step<C>, ops: seq<Op<C>>, more: seq<Op<C>>)
    requires Orderly(step)
    ensures Advances(Program(step, ops).0, Program(step, ops + more).0)
    decreases |more|
  {
    hide Perform, Exclusive, AllConsistent, Orderly, Advances;
    ProgramIsConsistent(step, ops);
    if more == [] {
      assert ops + more == ops;
      AdvancesItself(Program(step, ops).0);
    } else {
      var front := more[..|more| - 1];
      var all := ops + more;
      assert all[..|all| - 1] == ops + front && all[|all| - 1] == more[|more| - 1];
      ProgramAdvances(step, ops, front);
      ProgramIsConsistent(step, ops + front);
      var (s, log) := Program(step, ops + front);
      PerformAdvances(step, s, log, more[|more| - 1]);
      AdvancesOn(Program(step, ops).0, s, Program(step, all).0);
    }
  }

  lemma AdvancesItself(s: Store)
    requires AllConsistent(s)
    ensures Advances(s, s)
  {
    hide Consistent, Rank;
    forall k | 0 <= k < |s.states|
      ensures Onward(s.states[k], s.states[k])
    {
      OnwardItself(s.states[k]);
    }
  }

  // ---------- One finalize per state ----------

  /** `final` calls succeed only on the way to the last phase, and are refused there. */
  ghost predicate OneShot<C(!new)>(step: Step<C>, final: C -> bool)
  {
    forall st: PacketState, call: C :: st.Live? && Consistent(st) && final(call) ==>
      && (step(st, call).1.Ok? ==> Rank(step(st, call).0) >= 2)
      && (Rank(st) >= 2 ==> step(st, call).1 == Err(InvalidInput))
  }

  function EncryptFinal(): EncryptorCall -> bool
  {
    (call: EncryptorCall) => call.EncryptFinalize?
  }

  function DecryptFinal(): DecryptorCall -> bool
  {
    (call: DecryptorCall) => call.DecryptFinalize?
  }

  lemma EncryptorsAreOneShot(suite: Suite)
    ensures OneShot(EncryptorOf(suite), EncryptFinal())
  {
    forall st: PacketState, call: EncryptorCall | st.Live? && Consistent(st) && EncryptFinal()(call)
      ensures EncryptorOf(suite)(st, call).1.Ok? ==> Rank(EncryptorOf(suite)(st, call).0) >= 2
      ensures Rank(st) >= 2 ==> EncryptorOf(suite)(st, call).1 == Err(InvalidInput)
    {
      assert EncryptorOf(suite)(st, call) == EncryptorStep(suite, st, call);
    }
  }

  lemma DecryptorsAreOneShot(suite: Suite)
    ensures OneShot(DecryptorOf(suite), DecryptFinal())
  {
    forall st: PacketState, call: DecryptorCall | st.Live? && Consistent(st) && DecryptFinal()(call)
      ensures DecryptorOf(suite)(st, call).1.Ok? ==> Rank(DecryptorOf(suite)(st, call).0) >= 2
      ensures Rank(st) >= 2 ==> DecryptorOf(suite)(st, call).1 == Err(InvalidInput)
    {
      assert DecryptorOf(suite)(st, call) == DecryptorStep(suite, st, call);
    }
  }

  /** Event `i` is a final call that succeeded on state `k`. */
  ghost predicate FinalOn<C>(log: seq<Event<C>>, final: C -> bool, i: nat, k: nat)
  {
    i < |log| && log[i].state == Some(k) && final(log[i].call) && log[i].result.Ok?
  }

  /** States that were finalized are past their active phase, and every later final call on them was refused. */
  ghost predicate FinalOnce<C>(s: Store, log: seq<Event<C>>, final: C -> bool)
  {
    && (forall i: nat, k: nat :: FinalOn(log, final, i, k) && k < |s.states| ==> Rank(s.states[k]) >= 2)
    && (forall i: nat, j: nat, k: nat ::
          FinalOn(log, final, i, k) && i < j < |log| && log[j].state == Some(k) && final(log[j].call) ==>
            log[j].result == Err(InvalidInput))
  }

  lemma PerformFinalOnce<C(!new)>(step: Step<C>, final: C -> bool, s: Store, log: seq<Event<C>>, op: Op<C>)
    requires Orderly(step) && OneShot(step, final)
    requires Exclusive(s) && AllConsistent(s) && Unseen(log, |s.states|) && FinalOnce(s, log, final)
    ensures var (t, more) := Perform(step, s, log, op); FinalOnce(t, more, final)
  {
    hide Consistent, Orderly, Exclusive, OneShot;
    var (t, more) := Perform(step, s, log, op);
    PerformAdvances(step, s, log, op);
    forall i: nat, k: nat | FinalOn(more, final, i, k) && k < |t.states|
      ensures Rank(t.states[k]) >= 2
    {
      if i < |log| {
        assert FinalOn(log, final, i, k);
        assert Onward(s.states[k], t.states[k]);
      } else {
        LastFinal(step, final, s, log, op, k);
      }
    }
    forall i: nat, j: nat, k: nat |
      FinalOn(more, final, i, k) && i < j < |more| && more[j].state == Some(k) && final(more[j].call)
      ensures more[j].result == Err(InvalidInput)
    {
      assert FinalOn(log, final, i, k);
      if j == |log| {
        LastFinal(step, final, s, log, op, k);
      }
    }
  }

  lemma LastFinal<C(!new)>(step: Step<C>, final: C -> bool, s: Store, log: seq<Event<C>>, op: Op<C>, k: nat)
    requires OneShot(step, final) && AllConsistent(s)
    requires var (t, more) := Perform(step, s, log, op);
             |more| == |log| + 1 && more[|log|].state == Some(k) && final(more[|log|].call)
    ensures var (t, more) := Perform(step, s, log, op);
            && k < |s.states| && k < |t.states|
            && (more[|log|].result.Ok? ==> Rank(t.states[k]) >= 2)
            && (Rank(s.states[k]) >= 2 ==> more[|log|].result == Err(InvalidInput))
  {
    hide Consistent;
  }

  lemma {:induction false} ProgramFinalOnce<C(!new)>(step: Step<C>, final: C -> bool, ops: seq<Op<C>>)
    requires Orderly(step) && OneShot(step, final)
    ensures var (s, log) := Program(step, ops); FinalOnce(s, log, final)
    decreases |ops|
  {
    hide Perform, Exclusive, AllConsistent, Orderly, Unseen, OneShot;
    if ops == [] {
      assert FinalOnce<C>(EMPTY, [], final);
    } else {
      var front := ops[..|ops| - 1];
      var (s, log) := Program(step, front);
      ProgramFinalOnce(step, final, front);
      ProgramIsConsistent(step, front);
      ProgramProjects(step, front);
      PerformFinalOnce(step, final, s, log, ops[|ops| - 1]);
    }
  }

  // ---------- The theorems for both kinds of object ----------

  /** Over every program: phases of encryptor states only advance, and lost states stay lost. */
  lemma EncryptorsAdvance(suite: Suite, ops: seq<Op<EncryptorCall>>, more: seq<Op<EncryptorCall>>)
    ensures Exclusive(Program(EncryptorOf(suite), ops).0) && AllConsistent(Program(EncryptorOf(suite), ops).0)
    ensures Advances(Program(EncryptorOf(suite), ops).0, Program(EncryptorOf(suite), ops + more).0)
  {
    EncryptorsAreOrderly(suite);
    ProgramIsConsistent(EncryptorOf(suite), ops);
    ProgramAdvances(EncryptorOf(suite), ops, more);
  }

  lemma DecryptorsAdvance(suite: Suite, ops: seq<Op<DecryptorCall>>, more: seq<Op<DecryptorCall>>)
    ensures Exclusive(Program(DecryptorOf(suite), ops).0) && AllConsistent(Program(DecryptorOf(suite), ops).0)
    ensures Advances(Program(DecryptorOf(suite), ops).0, Program(DecryptorOf(suite), ops + more).0)
  {
    DecryptorsAreOrderly(suite);
    ProgramIsConsistent(DecryptorOf(suite), ops);
    ProgramAdvances(DecryptorOf(suite), ops, more);
  }

  /** Once a `finalize` has succeeded on a state, wherever it has moved since, every later one is refused. */
  lemma OneEncryptFinalize(suite: Suite, ops: seq<Op<EncryptorCall>>)
    ensures var (s, log) := Program(EncryptorOf(suite), ops); FinalOnce(s, log, EncryptFinal())
  {
    EncryptorsAreOrderly(suite);
    EncryptorsAreOneShot(suite);
    ProgramFinalOnce(EncryptorOf(suite), EncryptFinal(), ops);
  }

  lemma OneDecryptFinalize(suite: Suite, ops: seq<Op<DecryptorCall>>)
    ensures var (s, log) := Program(DecryptorOf(suite), ops); FinalOnce(s, log, DecryptFinal())
  {
    DecryptorsAreOrderly(suite);
    DecryptorsAreOneShot(suite);
    ProgramFinalOnce(DecryptorOf(suite), DecryptFinal(), ops);
  }

  /** Whatever a program does with its objects, what the calls on one state returned is what a single run emits. */
  lemma EncryptorsEmit(suite: Suite, ops: seq<Op<EncryptorCall>>, k: nat)
    requires k < |Program(EncryptorOf(suite), ops).0.states|
    ensures var (s, log) := Program(EncryptorOf(suite), ops); var calls := CallsOn(log, k);
            EncryptorEmits(suite, s.states[k], Emitted(ResultsOn(log, k)), PlaintextIn(calls, ResultsOn(log, k)),
                           EncryptLost(calls, ResultsOn(log, k)))
  {
    hide Program, EncryptorEmits, Run;
    var (s, log) := Program(EncryptorOf(suite), ops);
    ProgramProjects(EncryptorOf(suite), ops);
    assert Projects(EncryptorOf(suite), s, log, k);
    EncryptorRunEmits(suite, s.made[k].key, s.made[k].aad, CallsOn(log, k));
  }

  lemma DecryptorsEmit(suite: Suite, ops: seq<Op<DecryptorCall>>, k: nat)
    requires k < |Program(DecryptorOf(suite), ops).0.states|
    ensures var (s, log) := Program(DecryptorOf(suite), ops); var calls := CallsOn(log, k);
            DecryptorEmits(suite, s.states[k], Emitted(ResultsOn(log, k)), CiphertextIn(calls, ResultsOn(log, k)),
                           DecryptLost(calls, ResultsOn(log, k)))
  {
    hide Program, DecryptorEmits, Run;
    var (s, log) := Program(DecryptorOf(suite), ops);
    ProgramProjects(DecryptorOf(suite), ops);
    assert Projects(DecryptorOf(suite), s, log, k);
    DecryptorRunEmits(suite, s.made[k].key, s.made[k].aad, CallsOn(log, k));
  }

  /** What an object holds, as a call on it sees it. */
  function Held(s: Store, o: nat): PacketState
  {
    if HoldsState(s, o) then s.states[s.owner[o].value] else Moved
  }

  /**
    After making an object it holds a fresh state, unless its associated data was oversized, and the others
    are as before.
   */
  lemma MakeExact<C>(step: Step<C>, ops: seq<Op<C>>, key: Key, aad: bytes)
    ensures var s, t := Program(step, ops).0, Program(step, ops + [Make(key, aad)]).0;
            if |aad| > 0x7fff_ffff then t == s
            else
              && |t.owner| == |s.owner| + 1 && Held(t, |s.owner|) == Live(key, aad, Ready, NoContext)
              && forall o :: 0 <= o < |s.owner| ==> Held(t, o) == Held(s, o)
  {
    ProgramIsExclusive(step, ops);
    var all := ops + [Make(key, aad)];
    assert all[..|all| - 1] == ops;
  }

  /** A call works on the state its object holds, and on no other. */
  lemma InvokeExact<C>(step: Step<C>, ops: seq<Op<C>>, o: nat, call: C)
    requires o < |Program(step, ops).0.owner| && step(Moved, call).0 == Moved
    ensures var s, t := Program(step, ops).0, Program(step, ops + [Invoke(o, call)]).0;
            && |t.owner| == |s.owner| && Held(t, o) == step(Held(s, o), call).0
            && forall p :: 0 <= p < |s.owner| && p != o ==> Held(t, p) == Held(s, p)
  {
    ProgramIsExclusive(step, ops);
    var all := ops + [Invoke(o, call)];
    assert all[..|all| - 1] == ops;
  }

  /** Moving onto an object hands it the state of the other one, which is left without; itself it keeps its own. */
  lemma MoveAssignExact<C>(step: Step<C>, ops: seq<Op<C>>, to: nat, from: nat)
    requires to < |Program(step, ops).0.owner| && from < |Program(step, ops).0.owner|
    ensures var s, t := Program(step, ops).0, Program(step, ops + [MoveAssign(to, from)]).0;
            && |t.owner| == |s.owner| && Held(t, to) == Held(s, from) && (from != to ==> Held(t, from) == Moved)
            && forall p :: 0 <= p < |s.owner| && p != to && p != from ==> Held(t, p) == Held(s, p)
  {
    var all := ops + [MoveAssign(to, from)];
    assert all[..|all| - 1] == ops;
  }

  /** Moving into a new object does the same. */
  lemma MoveConstructExact<C>(step: Step<C>, ops: seq<Op<C>>, from: nat)
    requires from < |Program(step, ops).0.owner|
    ensures var s, t := Program(step, ops).0, Program(step, ops + [MoveConstruct(from)]).0;
            && |t.owner| == |s.owner| + 1 && Held(t, |s.owner|) == Held(s, from) && Held(t, from) == Moved
            && forall p :: 0 <= p < |s.owner| && p != from ==> Held(t, p) == Held(s, p)
  {
    var all := ops + [MoveConstruct(from)];
    assert all[..|all| - 1] == ops;
  }

  lemma InvokeLast<C>(step: Step<C>, ops: seq<Op<C>>, o: nat, call: C)
    requires o < |Program(step, ops).0.owner|
    ensures var (s, log) := Program(step, ops);
            var (t, more) := Program(step, ops + [Invoke(o, call)]);
            && more != [] && more[|more| - 1].result == step(Held(s, o), call).1
            && (step(Held(s, o), call).0 == Held(s, o) ==> t == s)
  {
    var all := ops + [Invoke(o, call)];
    assert all[..|all| - 1] == ops;
    var s := Program(step, ops).0;
    if HoldsState(s, o) {
      var k := s.owner[o].value;
      assert s.states[k := s.states[k]] == s.states;
    }
  }

  lemma HeldIsConsistent(s: Store, o: nat)
    requires AllConsistent(s)
    ensures Consistent(Held(s, o))
  {
  }

  /**
    After any program a call on an encryptor object is refused with `invalid_input` if and only if the object was
    moved from, the call is out of turn, or the update is oversized; and then nothing changes.
   */
  lemma EncryptorsRefuseExactly(suite: Suite, ops: seq<Op<EncryptorCall>>, o: nat, call: EncryptorCall)
    requires o < |Program(EncryptorOf(suite), ops).0.owner|
    ensures var (s, log) := Program(EncryptorOf(suite), ops);
            var (t, more) := Program(EncryptorOf(suite), ops + [Invoke(o, call)]);
            && more != []
            && (more[|more| - 1].result == Err(InvalidInput) <==>
                  OutOfTurnEncrypt(Held(s, o), call) || (call.EncryptUpdate? && |call.plaintext| > INT_MAX))
            && (more[|more| - 1].result == Err(InvalidInput) ==> t == s)
  {
    hide Program, EncryptorStep, OutOfTurnEncrypt, AllConsistent, Consistent, Held;
    var s := Program(EncryptorOf(suite), ops).0;
    EncryptorsAreOrderly(suite);
    ProgramIsConsistent(EncryptorOf(suite), ops);
    HeldIsConsistent(s, o);
    InvokeLast(EncryptorOf(suite), ops, o, call);
    EncryptRefusalExact(suite, Held(s, o), call);
  }

  /**
    After any program a call on a decryptor object is refused with `invalid_input` if and only if the object was
    moved from, the call is out of turn, or the update is oversized; and then nothing changes.
   */
  lemma DecryptorsRefuseExactly(suite: Suite, ops: seq<Op<DecryptorCall>>, o: nat, call: DecryptorCall)
    requires o < |Program(DecryptorOf(suite), ops).0.owner|
    ensures var (s, log) := Program(DecryptorOf(suite), ops);
            var (t, more) := Program(DecryptorOf(suite), ops + [Invoke(o, call)]);
            && more != []
            && (more[|more| - 1].result == Err(InvalidInput) <==>
                  OutOfTurnDecrypt(Held(s, o), call) || (call.DecryptUpdate? && |call.ciphertext| > INT_MAX))
            && (more[|more| - 1].result == Err(InvalidInput) ==> t == s)
  {
    hide Program, DecryptorStep, OutOfTurnDecrypt, AllConsistent, Consistent, Held;
    var s := Program(DecryptorOf(suite), ops).0;
    DecryptorsAreOrderly(suite);
    ProgramIsConsistent(DecryptorOf(suite), ops);
    HeldIsConsistent(s, o);
    InvokeLast(DecryptorOf(suite), ops, o, call);
    DecryptRefusalExact(suite, Held(s, o), call);
  }
}
