/**
  Runs of the commit protocol step by step: what the flags of a run record, runs that succeed, runs that leave
  files.
 */
module PathRuns {
  import opened Bytes
  import opened Errors
  import opened PathCommit
  import opened PathSafety

  // ---------- What the flags record ----------

  predicate Removal(a: Action, id: RunId)
  {
    (a.UnlinkTemp? || a.RemoveTemp?) && a.id == id
  }

  predicate WorkingRemoval(a: Action, id: RunId)
  {
    Removal(a, id) && a.ok
  }

  ghost predicate RemovalTried(actions: seq<Action>, id: RunId)
  {
    exists i :: 0 <= i < |actions| && Removal(actions[i], id)
  }

  ghost predicate RemovalWorked(actions: seq<Action>, id: RunId)
  {
    exists i :: 0 <= i < |actions| && WorkingRemoval(actions[i], id)
  }

  /** `fdopen` fails for a file that has just been created. */
  predicate Abandons(output: Path, w: World, a: Action)
  {
    a.CreateTemp? && a.how == FdopenFails && TempPath(output, a.token) !in w.names
  }

  /** Somewhere along the way `fdopen` failed for a file that run `id` had just created. */
  ghost predicate FdopenFailed(output: Path, w: World, actions: seq<Action>, id: RunId)
    decreases |actions|
  {
    actions != [] && Enabled(w, actions[0])
    && (|| (Abandons(output, w, actions[0]) && actions[0].id == id)
        || FdopenFailed(output, Apply(output, w, actions[0]), actions[1..], id))
  }

  predicate Leaked(w: World, id: RunId)
  {
    id in w.runs && w.runs[id].leaked
  }

  predicate UnlinkFailed(w: World, id: RunId)
  {
    id in w.runs && w.runs[id].unlinkFailed
  }

  /** The run has removed its name. */
  predicate Gone(w: World, id: RunId)
  {
    id in w.runs && w.runs[id].inode.Some? && !w.runs[id].held
  }

  /** A step of the environment or of another run leaves this run as it was. */
  lemma RunStays(output: Path, w: World, a: Action, id: RunId)
    requires Enabled(w, a) && (a.CreateFile? || a.id != id)
    ensures id in Apply(output, w, a).runs <==> id in w.runs
    ensures id in w.runs ==> Apply(output, w, a).runs[id] == w.runs[id]
  {
    if !a.CreateFile? {
      StepTouches(output, w, a);
      hide Apply, Enabled;
    }
  }

  /** `leaked` changes with the creation of the file. */
  lemma OwnStepLeaks(output: Path, w: World, a: Action)
    requires Inv(output, w) && Enabled(w, a) && !a.CreateFile?
    ensures Leaked(Apply(output, w, a), a.id) <==> Leaked(w, a.id) || Abandons(output, w, a)
  {
    hide Inv, TempPath, Disturbed, HasName, Justified;
    if a.id in w.runs {
      RunFitsIn(output, w, a.id);
    }
  }

  /** The other flags change with the attempts to remove its name. */
  lemma RemovalFlags(output: Path, w: World, a: Action)
    requires Inv(output, w) && Enabled(w, a) && (a.UnlinkTemp? || a.RemoveTemp?)
    ensures var v := Apply(output, w, a);
            if a.ok then !UnlinkFailed(v, a.id) && Gone(v, a.id)
            else UnlinkFailed(v, a.id) == !Gone(w, a.id) && Gone(v, a.id) == Gone(w, a.id)
  {
    hide Inv, Disturbed, HasName, Justified;
    RunFitsIn(output, w, a.id);
    var stage := if a.UnlinkTemp? then Unlinked else Failed(w.runs[a.id].stage.error);
    assert Apply(output, w, a) == SetStage(Remove(w, a.id, a.ok), a.id, stage);
    hide Apply;
  }

  lemma OtherFlags(output: Path, w: World, a: Action)
    requires Inv(output, w) && Enabled(w, a) && !a.CreateFile? && !a.UnlinkTemp? && !a.RemoveTemp?
    ensures var v := Apply(output, w, a);
            UnlinkFailed(v, a.id) == UnlinkFailed(w, a.id) && Gone(v, a.id) == Gone(w, a.id)
  {
    hide Inv, TempPath, Disturbed, HasName, Justified, Remove;
    if a.id in w.runs {
      RunFitsIn(output, w, a.id);
    }
  }

  lemma FlagsStep(output: Path, w: World, a: Action, id: RunId)
    requires Inv(output, w) && Enabled(w, a)
    ensures var v := Apply(output, w, a);
            && (Leaked(v, id) <==> Leaked(w, id) || (Abandons(output, w, a) && a.id == id))
            && if !Removal(a, id) then UnlinkFailed(v, id) == UnlinkFailed(w, id) && Gone(v, id) == Gone(w, id)
               else if WorkingRemoval(a, id) then !UnlinkFailed(v, id) && Gone(v, id)
               else UnlinkFailed(v, id) == !Gone(w, id) && Gone(v, id) == Gone(w, id)
  {
    hide Inv, Apply, Enabled;
    if a.CreateFile? || a.id != id {
      RunStays(output, w, a, id);
    } else {
      OwnStepLeaks(output, w, a);
      if a.UnlinkTemp? || a.RemoveTemp? {
        RemovalFlags(output, w, a);
      } else {
        OtherFlags(output, w, a);
      }
    }
  }

  lemma GoneIsNoFailure(output: Path, w: World, id: RunId)
    requires Inv(output, w)
    ensures Gone(w, id) ==> !UnlinkFailed(w, id)
  {
    hide Inv;
    if id in w.runs {
      RunFitsIn(output, w, id);
    }
  }

  /** The run has linked its file and failed afterwards. */
  predicate FailedLate(w: World, id: RunId)
  {
    && id in w.runs && w.runs[id].linked
    && (w.runs[id].stage.Failing? || w.runs[id].stage.Discarded? || w.runs[id].stage.Failed?)
  }

  lemma RemovalFailsLate(output: Path, w: World, a: Action)
    requires Inv(output, w) && Enabled(w, a) && (a.UnlinkTemp? || a.RemoveTemp?)
    ensures FailedLate(Apply(output, w, a), a.id) <==> FailedLate(w, a.id)
  {
    hide Inv, Disturbed, HasName, Justified;
    RunFitsIn(output, w, a.id);
    var stage := if a.UnlinkTemp? then Unlinked else Failed(w.runs[a.id].stage.error);
    assert Apply(output, w, a) == SetStage(Remove(w, a.id, a.ok), a.id, stage);
    hide Apply;
  }

  lemma OtherFailsLate(output: Path, w: World, a: Action)
    requires Inv(output, w) && Enabled(w, a) && !a.CreateFile? && !a.UnlinkTemp? && !a.RemoveTemp?
    ensures FailedLate(Apply(output, w, a), a.id) <==> FailedLate(w, a.id) || a == SyncDirectory(a.id, false)
  {
    hide Inv, Disturbed, HasName, TempPath, Justified, Remove;
    if a.id in w.runs {
      RunFitsIn(output, w, a.id);
    }
  }

  /** What can fail behind the link is the directory sync, and nothing makes up for it. */
  lemma {:induction false} FailsLateBySync(output: Path, w: World, actions: seq<Action>, v: World, id: RunId)
    requires Inv(output, w) && Leads(output, w, actions, v)
    ensures FailedLate(v, id) <==> FailedLate(w, id) || SyncDirectory(id, false) in actions
    decreases |actions|
  {
    hide Inv, Enabled, Apply, FailedLate;
    if actions != [] {
      var a, next := actions[0], Apply(output, w, actions[0]);
      StepKeepsInv(output, w, a);
      if a.CreateFile? || a.id != id {
        RunStays(output, w, a, id);
        SameRun(w, next, id);
      } else {
        if a.UnlinkTemp? || a.RemoveTemp? {
          RemovalFailsLate(output, w, a);
        } else {
          OtherFailsLate(output, w, a);
        }
      }
      FailsLateBySync(output, next, actions[1..], v, id);
      assert SyncDirectory(id, false) in actions <==>
             a == SyncDirectory(id, false) || SyncDirectory(id, false) in actions[1..];
    }
  }

  lemma SameRun(w: World, v: World, id: RunId)
    requires id in w.runs <==> id in v.runs
    requires id in w.runs ==> v.runs[id] == w.runs[id]
    ensures FailedLate(v, id) == FailedLate(w, id)
  {
  }

  /**
    `leaked` records that `fdopen` failed behind a creation, `unlinkFailed` that no attempt to remove the name
    worked.
   */
  lemma {:induction false} FlagsAfter(output: Path, w: World, actions: seq<Action>, v: World, id: RunId)
    requires Inv(output, w) && Leads(output, w, actions, v)
    ensures Leaked(v, id) <==> Leaked(w, id) || FdopenFailed(output, w, actions, id)
    ensures UnlinkFailed(v, id) <==>
              (UnlinkFailed(w, id) || (RemovalTried(actions, id) && !Gone(w, id))) && !RemovalWorked(actions, id)
    decreases |actions|
  {
    hide Inv, Enabled, Apply, Leaked, UnlinkFailed, Gone, Removal, Abandons;
    if actions != [] {
      var a, next := actions[0], Apply(output, w, actions[0]);
      StepKeepsInv(output, w, a);
      FlagsAfter(output, next, actions[1..], v, id);
      FlagsStep(output, w, a, id);
      GoneIsNoFailure(output, w, id);
      HistorySplit(actions, id);
    }
  }

  lemma HistorySplit(actions: seq<Action>, id: RunId)
    requires actions != []
    ensures RemovalTried(actions, id) <==> Removal(actions[0], id) || RemovalTried(actions[1..], id)
    ensures RemovalWorked(actions, id) <==>
              WorkingRemoval(actions[0], id) || RemovalWorked(actions[1..], id)
  {
    hide Removal, WorkingRemoval;
    var tail := actions[1..];
    if RemovalTried(tail, id) {
      var i :| 0 <= i < |tail| && Removal(tail[i], id);
      assert Removal(actions[i + 1], id);
    }
    if RemovalTried(actions, id) {
      var i :| 0 <= i < |actions| && Removal(actions[i], id);
      assert i > 0 ==> Removal(tail[i - 1], id);
    }
    if RemovalWorked(tail, id) {
      var i :| 0 <= i < |tail| && WorkingRemoval(tail[i], id);
      assert WorkingRemoval(actions[i + 1], id);
    }
    if RemovalWorked(actions, id) {
      var i :| 0 <= i < |actions| && WorkingRemoval(actions[i], id);
      assert i > 0 ==> WorkingRemoval(tail[i - 1], id);
    }
  }

  /**
    A temporary file stays behind a run that has ended only if `fdopen` failed behind its creation or
    every attempt to remove its name failed; and in these cases it does, unless another run that drew the
    same token has removed the name.
   */
  lemma LeftBehindExactly(output: Path, origin: World, actions: seq<Action>, w: World, id: RunId)
    requires Initial(origin) && Leads(output, origin, actions, w)
    requires id in w.runs && Exited(w.runs[id])
    ensures var failed := FdopenFailed(output, origin, actions, id)
                          || (RemovalTried(actions, id) && !RemovalWorked(actions, id));
            && (LeftBehind(output, w, w.runs[id]) ==> failed)
            && (!Disturbed(w, id) ==> (LeftBehind(output, w, w.runs[id]) <==> failed))
  {
    hide Leads, Disturbed, LeftBehind, RemovalTried, RemovalWorked, FdopenFailed;
    InitialInv(output, origin);
    RunEnds(output, origin, actions, w, id);
    FlagsAfter(output, origin, actions, w, id);
  }

  /** A run ends in an exception with its file in place if and only if its directory sync failed. */
  lemma FailsInPlaceExactly(output: Path, origin: World, actions: seq<Action>, w: World, id: RunId)
    requires Initial(origin) && Leads(output, origin, actions, w)
    requires id in w.runs && Exited(w.runs[id])
    ensures w.runs[id].stage.Failed? && output in w.names && w.runs[id].inode == Some(w.names[output])
       <==> SyncDirectory(id, false) in actions
  {
    hide Leads;
    InitialInv(output, origin);
    RunEnds(output, origin, actions, w, id);
    FailsLateBySync(output, origin, actions, w, id);
  }

  // ---------- Why runs fail ----------

  predicate FailingCall(a: Action, id: RunId)
  {
    Fails(a) && a.id == id
  }

  /** Some system call of run `id` failed. */
  ghost predicate CallFailed(actions: seq<Action>, id: RunId)
  {
    exists i :: 0 <= i < |actions| && FailingCall(actions[i], id)
  }

  /** How many temporary names run `id` found taken. */
  ghost function Collisions(output: Path, w: World, actions: seq<Action>, id: RunId): nat
    decreases |actions|
  {
    if actions == [] || !Enabled(w, actions[0]) then 0
    else
      (if Collides(output, w, actions[0], id) then 1 else 0)
      + Collisions(output, Apply(output, w, actions[0]), actions[1..], id)
  }

  /** The exclusive create meets an existing file. */
  predicate Collides(output: Path, w: World, a: Action, id: RunId)
  {
    a.CreateTemp? && a.id == id && a.how != OpenFails && TempPath(output, a.token) in w.names
  }

  function TakenBy(w: World, id: RunId): nat
  {
    if id in w.runs then w.runs[id].taken else 0
  }

  lemma OwnStepTakes(output: Path, w: World, a: Action)
    requires Inv(output, w) && Enabled(w, a) && !a.CreateFile?
    ensures TakenBy(Apply(output, w, a), a.id) == TakenBy(w, a.id) + if Collides(output, w, a, a.id) then 1 else 0
  {
    hide Inv, TempPath;
  }

  lemma StepTakes(output: Path, w: World, a: Action, id: RunId)
    requires Inv(output, w) && Enabled(w, a)
    ensures TakenBy(Apply(output, w, a), id) == TakenBy(w, id) + if Collides(output, w, a, id) then 1 else 0
  {
    hide Inv, Apply, Enabled;
    if a.CreateFile? || a.id != id {
      RunStays(output, w, a, id);
    } else {
      OwnStepTakes(output, w, a);
    }
  }

  /** What the counter and the flag of a run record. */
  lemma {:induction false} CountsAfter(output: Path, w: World, actions: seq<Action>, v: World, id: RunId)
    requires Inv(output, w) && Leads(output, w, actions, v)
    ensures TakenBy(v, id) == TakenBy(w, id) + Collisions(output, w, actions, id)
    ensures id in v.runs && v.runs[id].unlucky ==> (id in w.runs && w.runs[id].unlucky) || CallFailed(actions, id)
    decreases |actions|
  {
    hide Inv, Enabled, Apply, Collides, TakenBy, Fails;
    if actions != [] {
      var a, next, tail := actions[0], Apply(output, w, actions[0]), actions[1..];
      StepKeepsInv(output, w, a);
      StepTakes(output, w, a, id);
      StepLuck(output, w, a, id);
      CountsAfter(output, next, tail, v, id);
      if CallFailed(tail, id) {
        var i :| 0 <= i < |tail| && FailingCall(tail[i], id);
        assert FailingCall(actions[i + 1], id);
      }
    }
  }

  /**
    Why a run that threw has thrown this code: it is that of the exception before the temporary file, or
    else of the payload loop, or it is `invalid_input` and the output path exists, or it is
    `backend_failure` and one of its system calls failed, it found 32 temporary names taken, or a run that
    has linked its own file removed the name they shared.
   */
  lemma FailsForReason(output: Path, origin: World, actions: seq<Action>, w: World, id: RunId)
    requires Initial(origin) && Leads(output, origin, actions, w)
    requires id in w.runs && w.runs[id].stage.Failed?
    ensures var run, code := w.runs[id], w.runs[id].stage.error;
            || run.early == Some(code)
            || (run.early.None? && run.inode.Some? && run.ends == Thrown(code))
            || (code == InvalidInput && output in w.names)
            || (code == BackendFailure
                && (CallFailed(actions, id) || Collisions(output, origin, actions, id) == 32 || Disturbed(w, id)))
  {
    hide Leads, Disturbed, Collisions, CallFailed;
    InitialInv(output, origin);
    OutputIsOrdinary(output);
    LeadsKeeps(output, origin, actions, w, output);
    CountsAfter(output, origin, actions, w, id);
    RunFitsIn(output, w, id);
  }

  // ---------- Following a run ----------

  lemma ThreeSteps(output: Path, w: World, a: Action, b: Action, c: Action)
    requires Enabled(w, a) && Enabled(Apply(output, w, a), b) && Enabled(Apply(output, Apply(output, w, a), b), c)
    ensures Leads(output, w, [a, b, c], Apply(output, Apply(output, Apply(output, w, a), b), c))
  {
    hide Enabled, Apply;
    var w1 := Apply(output, w, a);
    var w2 := Apply(output, w1, b);
    var w3 := Apply(output, w2, c);
    assert Leads(output, w3, [], w3);
    assert [c][1..] == [] && Leads(output, w2, [c], w3);
    assert [b, c][1..] == [c] && Leads(output, w1, [b, c], w3);
    assert [a, b, c][1..] == [b, c];
  }

  /**
    The clause about temporary files cannot be dropped: when `fdopen` fails, the call throws before it
    enters its `try` block, and the file it created stays although nothing else went wrong.
   */
  lemma FdopenLeaks(output: Path, token: Token)
    ensures exists actions, v ::
              && Leads(output, World(map[], map[], map[]), actions, v)
              && 0 in v.runs && v.runs[0].stage == Failed(BackendFailure) && !v.runs[0].unlinkFailed
              && LeftBehind(output, v, v.runs[0])
  {
    TempPathsDistinct(output, token, token);
    hide TempPath;
    var w0 := World(map[], map[], map[]);
    var a1, a2, a3 := Begin(0, [], Done, None), CheckAbsent(0, true), CreateTemp(0, token, 0, FdopenFails);
    var w1 := Apply(output, w0, a1);
    var waiting := Run([], Done, None, Creating, "", None, 0, false, false, false, false, false);
    var w2 := Apply(output, w1, a2);
    assert w2 == World(map[], map[], map[0 := waiting]);
    var w3 := Apply(output, w2, a3);
    assert w3 == ApplyCreate(output, w2, 0, token, 0, FdopenFails);
    ThreeSteps(output, w0, a1, a2, a3);
    assert TempPath(output, token) in w3.names;
  }

  // ---------- Runs that succeed ----------

  lemma {:induction false} LeadsConcat(output: Path, w: World, first: seq<Action>, u: World, rest: seq<Action>,
                                       v: World)
    requires Leads(output, w, first, u) && Leads(output, u, rest, v)
    ensures Leads(output, w, first + rest, v)
    decreases |first|
  {
    hide Enabled, Apply;
    if first == [] {
      assert first + rest == rest;
    } else {
      LeadsConcat(output, Apply(output, w, first[0]), first[1..], u, rest, v);
      assert (first + rest)[1..] == first[1..] + rest;
    }
  }

  function Placed(w: World, names: map<Path, Inode>, inode: Inode, f: File, id: RunId, run: Run): World
  {
    World(names, w.files[inode := f], w.runs[id := run])
  }

  /** The run that writes `payload` through the name `temp`, at some stage. */
  function Ongoing(payload: bytes, stage: Stage, temp: Path, inode: Inode, held: bool, linked: bool): Run
  {
    Run(payload, Done, None, stage, temp, Some(inode), 0, held, linked, false, false, false)
  }

  function WritingWorld(w: World, names: map<Path, Inode>, id: RunId, temp: Path, inode: Inode, payload: bytes): World
  {
    Placed(w, names, inode, File([], false, false), id, Ongoing(payload, Writing, temp, inode, true, false))
  }

  function ClosedWorld(w: World, names: map<Path, Inode>, id: RunId, temp: Path, inode: Inode, payload: bytes): World
  {
    Placed(w, names, inode, File(payload, true, true), id, Ongoing(payload, Closed, temp, inode, true, false))
  }

  function WaitingWorld(w: World, id: RunId, payload: bytes, stage: Stage): World
  {
    SetRun(w, id, Run(payload, Done, None, stage, "", None, 0, false, false, false, false, false))
  }

  lemma BeginSteps(output: Path, w: World, id: RunId, payload: bytes)
    requires id !in w.runs && output !in w.names
    ensures var begun := WaitingWorld(w, id, payload, Starting);
            && Enabled(w, Begin(id, payload, Done, None)) && Apply(output, w, Begin(id, payload, Done, None)) == begun
            && Enabled(begun, CheckAbsent(id, true))
            && Apply(output, begun, CheckAbsent(id, true)) == WaitingWorld(w, id, payload, Creating)
  {
  }

  lemma CreateStep(output: Path, w: World, id: RunId, token: Token, inode: Inode, payload: bytes)
    requires inode !in w.files && TempPath(output, token) !in w.names
    ensures var temp, waiting := TempPath(output, token), WaitingWorld(w, id, payload, Creating);
            && Enabled(waiting, CreateTemp(id, token, inode, Opens))
            && Apply(output, waiting, CreateTemp(id, token, inode, Opens))
               == WritingWorld(w, w.names[temp := inode], id, temp, inode, payload)
  {
    hide TempPath;
    var waiting := WaitingWorld(w, id, payload, Creating);
    assert Apply(output, waiting, CreateTemp(id, token, inode, Opens))
        == ApplyCreate(output, waiting, id, token, inode, Opens);
  }

  lemma RunOpens(output: Path, w: World, id: RunId, token: Token, inode: Inode, payload: bytes)
    returns (actions: seq<Action>)
    requires id !in w.runs && inode !in w.files && output !in w.names && TempPath(output, token) !in w.names
    ensures var temp := TempPath(output, token);
            Leads(output, w, actions, WritingWorld(w, w.names[temp := inode], id, temp, inode, payload))
  {
    BeginSteps(output, w, id, payload);
    CreateStep(output, w, id, token, inode, payload);
    hide Enabled, Apply, TempPath, WaitingWorld, WritingWorld;
    ThreeSteps(output, w, Begin(id, payload, Done, None), CheckAbsent(id, true), CreateTemp(id, token, inode, Opens));
    actions := [Begin(id, payload, Done, None), CheckAbsent(id, true), CreateTemp(id, token, inode, Opens)];
  }

  lemma RunCloses(output: Path, w: World, names: map<Path, Inode>, id: RunId, temp: Path, inode: Inode, payload: bytes)
    returns (actions: seq<Action>)
    ensures Leads(output,
                  WritingWorld(w, names, id, temp, inode, payload),
                  actions,
                  ClosedWorld(w, names, id, temp, inode, payload))
  {
    var a, b, c := Write(id, |payload|), Flush(id, true), Close(id, true);
    var writing := Ongoing(payload, Writing, temp, inode, true, false);
    var flushed := Ongoing(payload, Flushed, temp, inode, true, false);
    WriteAllStep(output, w, names, id, writing);
    FlushStep(output, w, names, id, writing);
    CloseStep(output, w, names, id, flushed);
    hide Enabled, Apply, Placed;
    ThreeSteps(output, Placed(w, names, inode, File([], false, false), id, writing), a, b, c);
    actions := [a, b, c];
  }

  lemma WriteAllStep(output: Path, w: World, names: map<Path, Inode>, id: RunId, run: Run)
    requires run.stage.Writing? && run.inode.Some?
    ensures var w0 := Placed(w, names, run.inode.value, File([], false, false), id, run);
            && Enabled(w0, Write(id, |run.payload|))
            && Apply(output, w0, Write(id, |run.payload|))
               == Placed(w, names, run.inode.value, File(run.payload, false, false), id, run)
  {
    assert run.payload[..|run.payload|] == run.payload;
  }

  lemma FlushStep(output: Path, w: World, names: map<Path, Inode>, id: RunId, run: Run)
    requires run.stage.Writing? && run.inode.Some? && run.ends.Done?
    ensures var w0 := Placed(w, names, run.inode.value, File(run.payload, false, false), id, run);
            && Enabled(w0, Flush(id, true))
            && Apply(output, w0, Flush(id, true))
               == Placed(w, names, run.inode.value, File(run.payload, true, false), id, run.(stage := Flushed))
  {
  }

  lemma CloseStep(output: Path, w: World, names: map<Path, Inode>, id: RunId, run: Run)
    requires run.stage.Flushed? && run.inode.Some?
    ensures var w0 := Placed(w, names, run.inode.value, File(run.payload, true, false), id, run);
            && Enabled(w0, Close(id, true))
            && Apply(output, w0, Close(id, true))
               == Placed(w, names, run.inode.value, File(run.payload, true, true), id, run.(stage := Closed))
  {
  }

  lemma LinkStep(output: Path, w: World, names: map<Path, Inode>, inode: Inode, f: File, id: RunId, run: Run)
    requires run.stage.Closed? && run.temp in names && names[run.temp] == inode && output !in names
    ensures var w0 := Placed(w, names, inode, f, id, run);
            && Enabled(w0, Link(id, true))
            && Apply(output, w0, Link(id, true))
               == Placed(w, names[output := inode], inode, f, id, run.(stage := Linked, linked := true))
  {
  }

  lemma UnlinkStep(output: Path, w: World, names: map<Path, Inode>, inode: Inode, f: File, id: RunId, run: Run)
    requires run.stage.Linked?
    ensures var w0 := Placed(w, names, inode, f, id, run);
            && Enabled(w0, UnlinkTemp(id, true))
            && Apply(output, w0, UnlinkTemp(id, true))
               == Placed(w, names - {run.temp}, inode, f, id,
                         run.(stage := Unlinked, held := false, unlinkFailed := false))
  {
  }

  lemma SyncStep(output: Path, w: World, names: map<Path, Inode>, inode: Inode, f: File, id: RunId, run: Run)
    requires run.stage.Unlinked?
    ensures var w0 := Placed(w, names, inode, f, id, run);
            && Enabled(w0, SyncDirectory(id, true))
            && Apply(output, w0, SyncDirectory(id, true)) == Placed(w, names, inode, f, id, run.(stage := Finished))
  {
  }

  lemma RunCommits(output: Path, w: World, names: map<Path, Inode>, id: RunId, temp: Path, inode: Inode, payload: bytes)
    returns (actions: seq<Action>)
    requires output !in names && temp in names && names[temp] == inode && temp != output
    ensures Leads(output,
                  ClosedWorld(w, names, id, temp, inode, payload),
                  actions,
                  Placed(w, names[output := inode] - {temp}, inode, File(payload, true, true), id,
                         Ongoing(payload, Finished, temp, inode, false, true)))
  {
    var f := File(payload, true, true);
    var closed := Ongoing(payload, Closed, temp, inode, true, false);
    var linked := Ongoing(payload, Linked, temp, inode, true, true);
    LinkStep(output, w, names, inode, f, id, closed);
    UnlinkStep(output, w, names[output := inode], inode, f, id, linked);
    SyncStep(output, w, names[output := inode] - {temp}, inode, f, id,
             Ongoing(payload, Unlinked, temp, inode, false, true));
    hide Enabled, Apply, Placed;
    ThreeSteps(output, Placed(w, names, inode, f, id, closed),
               Link(id, true), UnlinkTemp(id, true), SyncDirectory(id, true));
    actions := [Link(id, true), UnlinkTemp(id, true), SyncDirectory(id, true)];
  }

  /**
    A run whose calls all work finishes: wherever the output path is free it leads to a world that has the
    complete payload there, no temporary name, and everything else as it was.
   */
  lemma RunSucceeds(output: Path, w: World, id: RunId, token: Token, inode: Inode, payload: bytes)
    returns (actions: seq<Action>)
    requires id !in w.runs && inode !in w.files && output !in w.names && TempPath(output, token) !in w.names
    ensures var done := Ongoing(payload, Finished, TempPath(output, token), inode, false, true);
            Leads(output, w, actions,
                  World(w.names[output := inode], w.files[inode := File(payload, true, true)], w.runs[id := done]))
  {
    hide Leads, TempPath;
    var temp := TempPath(output, token);
    TempPathsDistinct(output, token, token);
    var names := w.names[temp := inode];
    var created := RunOpens(output, w, id, token, inode, payload);
    var closed := RunCloses(output, w, names, id, temp, inode, payload);
    var committed := RunCommits(output, w, names, id, temp, inode, payload);
    assert names[output := inode] - {temp} == w.names[output := inode];
    var w1 := WritingWorld(w, names, id, temp, inode, payload);
    var w2 := ClosedWorld(w, names, id, temp, inode, payload);
    var w3 := Placed(w, w.names[output := inode], inode, File(payload, true, true), id,
                     Ongoing(payload, Finished, temp, inode, false, true));
    LeadsConcat(output, w, created, w1, closed, w2);
    LeadsConcat(output, w, created + closed, w2, committed, w3);
    actions := created + closed + committed;
  }

  // ---------- A repeated token ----------

  /**
    The world of the example: run 0 has linked and unlinked, run 1 has just lost the file it created under the
    same name.
   */
  function Shared(output: Path, temp: Path, names: map<Path, Inode>, stage: Stage): World
  {
    World(names, map[0 := File([], true, true), 1 := File([], false, true)],
          map[0 := Ongoing([], stage, temp, 0, false, true).(unlucky := stage != Unlinked),
              1 := Run([], Done, None, Failed(BackendFailure), temp, Some(1), 0, true, false, true, false, true)])
  }

  lemma SharedStart(output: Path, token: Token) returns (actions: seq<Action>)
    ensures var temp := TempPath(output, token);
            Leads(output, World(map[], map[], map[]), actions,
                  ClosedWorld(OneWaiting(), map[temp := 0], 0, temp, 0, []))
  {
    hide TempPath;
    var w0, temp := World(map[], map[], map[]), TempPath(output, token);
    TempPathsDistinct(output, token, token);
    var w1 := Apply(output, w0, Begin(1, [], Done, None));
    LeadsSnoc(output, w0, [], w0, Begin(1, [], Done, None));
    LeadsSnoc(output, w0, [] + [Begin(1, [], Done, None)], w1, CheckAbsent(1, true));
    assert Apply(output, w1, CheckAbsent(1, true)) == OneWaiting();
    var created := RunOpens(output, OneWaiting(), 0, token, 0, []);
    var closed := RunCloses(output, OneWaiting(), map[temp := 0], 0, temp, 0, []);
    hide Leads;
    var w2 := WritingWorld(OneWaiting(), map[temp := 0], 0, temp, 0, []);
    var w3 := ClosedWorld(OneWaiting(), map[temp := 0], 0, temp, 0, []);
    assert OneWaiting().names[temp := 0] == map[temp := 0];
    var waited := [] + [Begin(1, [], Done, None)] + [CheckAbsent(1, true)];
    LeadsConcat(output, w0, waited, OneWaiting(), created, w2);
    LeadsConcat(output, w0, waited + created, w2, closed, w3);
    actions := waited + created + closed;
  }

  /** Run 1 has passed the existence check. */
  function OneWaiting(): World
  {
    World(map[], map[], map[1 := Run([], Done, None, Creating, "", None, 0, false, false, false, false, false)])
  }

  lemma SharedCreate(output: Path, token: Token)
    ensures var temp := TempPath(output, token);
            var w0 := Placed(OneWaiting(), map[output := 0], 0, File([], true, true), 0,
                             Ongoing([], Unlinked, temp, 0, false, true));
            && Enabled(w0, CreateTemp(1, token, 1, FdopenFails))
            && Apply(output, w0, CreateTemp(1, token, 1, FdopenFails))
               == Shared(output, temp, map[output := 0, temp := 1], Unlinked)
  {
    TempPathsDistinct(output, token, token);
    hide TempPath;
  }

  lemma SharedMiddle(output: Path, temp: Path, token: Token) returns (actions: seq<Action>)
    requires temp == TempPath(output, token) && temp != output
    ensures Leads(output,
                  ClosedWorld(OneWaiting(), map[temp := 0], 0, temp, 0, []),
                  actions, Shared(output, temp, map[output := 0, temp := 1], Unlinked))
  {
    hide TempPath;
    var f, closed := File([], true, true), Ongoing([], Closed, temp, 0, true, false);
    var names := map[temp := 0];
    LinkStep(output, OneWaiting(), names, 0, f, 0, closed);
    UnlinkStep(output, OneWaiting(), names[output := 0], 0, f, 0, Ongoing([], Linked, temp, 0, true, true));
    assert names[output := 0] - {temp} == map[output := 0];
    SharedCreate(output, token);
    hide Enabled, Apply, Placed, Shared, OneWaiting;
    ThreeSteps(output, Placed(OneWaiting(), names, 0, f, 0, closed),
               Link(0, true), UnlinkTemp(0, true), CreateTemp(1, token, 1, FdopenFails));
    actions := [Link(0, true), UnlinkTemp(0, true), CreateTemp(1, token, 1, FdopenFails)];
  }

  lemma SharedSyncFails(output: Path, temp: Path, names: map<Path, Inode>)
    ensures var w := Shared(output, temp, names, Unlinked);
            && Enabled(w, SyncDirectory(0, false))
            && Apply(output, w, SyncDirectory(0, false)) == Shared(output, temp, names, Failing(BackendFailure))
  {
  }

  lemma SharedDiscard(output: Path, temp: Path, names: map<Path, Inode>)
    ensures var w := Shared(output, temp, names, Failing(BackendFailure));
            && Enabled(w, Discard(0))
            && Apply(output, w, Discard(0)) == Shared(output, temp, names, Discarded(BackendFailure))
  {
  }

  lemma SharedRemove(output: Path, temp: Path, names: map<Path, Inode>)
    ensures var w := Shared(output, temp, names, Discarded(BackendFailure));
            && Enabled(w, RemoveTemp(0, true))
            && Apply(output, w, RemoveTemp(0, true)) == Shared(output, temp, names - {temp}, Failed(BackendFailure))
  {
  }

  lemma SharedEnd(output: Path, temp: Path) returns (actions: seq<Action>)
    requires temp != output
    ensures Leads(output, Shared(output, temp, map[output := 0, temp := 1], Unlinked), actions,
                  Shared(output, temp, map[output := 0], Failed(BackendFailure)))
  {
    var names := map[output := 0, temp := 1];
    SharedSyncFails(output, temp, names);
    SharedDiscard(output, temp, names);
    SharedRemove(output, temp, names);
    assert names - {temp} == map[output := 0];
    hide Enabled, Apply, Shared;
    ThreeSteps(output, Shared(output, temp, names, Unlinked), SyncDirectory(0, false), Discard(0), RemoveTemp(0, true));
    actions := [SyncDirectory(0, false), Discard(0), RemoveTemp(0, true)];
  }

  /**
    The exception for repeated tokens cannot be dropped: here `fdopen` fails for run 1, and its file is not
    left behind, because the cleanup of run 0, which drew the same token, removes the name a second time.
   */
  lemma SharedNameRemoved(output: Path, token: Token) returns (actions: seq<Action>, v: World)
    ensures Leads(output, World(map[], map[], map[]), actions, v)
    ensures 1 in v.runs && Exited(v.runs[1]) && v.runs[1].leaked && !LeftBehind(output, v, v.runs[1])
    ensures Disturbed(v, 1)
  {
    hide Leads, TempPath;
    var temp := TempPath(output, token);
    TempPathsDistinct(output, token, token);
    var first := SharedStart(output, token);
    var second := SharedMiddle(output, temp, token);
    var third := SharedEnd(output, temp);
    var w1 := ClosedWorld(OneWaiting(), map[temp := 0], 0, temp, 0, []);
    var w2 := Shared(output, temp, map[output := 0, temp := 1], Unlinked);
    v := Shared(output, temp, map[output := 0], Failed(BackendFailure));
    LeadsConcat(output, World(map[], map[], map[]), first, w1, second, w2);
    LeadsConcat(output, World(map[], map[], map[]), first + second, w2, third, v);
    actions := first + second + third;
    assert Released(v, 1, 0);
  }
}
