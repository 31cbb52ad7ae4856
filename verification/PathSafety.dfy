/** What the commit protocol guarantees under every interleaving. */
module PathSafety {
  import opened Errors
  import opened PathCommit

  /** `actions`, one after another, lead from `w` to `v`. */
  ghost predicate Leads(output: Path, w: World, actions: seq<Action>, v: World)
    decreases |actions|
  {
    if actions == [] then v == w
    else Enabled(w, actions[0]) && Leads(output, Apply(output, w, actions[0]), actions[1..], v)
  }

  lemma {:induction false} LeadsSnoc(output: Path, w: World, actions: seq<Action>, v: World, a: Action)
    requires Leads(output, w, actions, v) && Enabled(v, a)
    ensures Leads(output, w, actions + [a], Apply(output, v, a))
    decreases |actions|
  {
    hide Enabled, Apply;
    if actions == [] {
      assert [a][1..] == [] && Leads(output, Apply(output, v, a), [], Apply(output, v, a));
      assert actions + [a] == [a];
    } else {
      LeadsSnoc(output, Apply(output, w, actions[0]), actions[1..], v, a);
      assert (actions + [a])[1..] == actions[1..] + [a];
    }
  }

  /** A path no run ever uses as its temporary name: the output path, and all ordinary files. */
  ghost predicate Ordinary(output: Path, p: Path)
  {
    forall token: Token :: p != TempPath(output, token)
  }

  lemma OutputIsOrdinary(output: Path)
    ensures Ordinary(output, output)
  {
    forall token: Token
      ensures output != TempPath(output, token)
    {
      TempPathsDistinct(output, token, token);
    }
  }

  /** A file at an ordinary path stays there, and stays as it is. */
  ghost predicate Kept(w: World, v: World, p: Path)
  {
    p in w.names && w.names[p] in w.files ==>
      p in v.names && v.names[p] == w.names[p] && v.names[p] in v.files && v.files[v.names[p]] == w.files[w.names[p]]
  }

  /** A path that names the inode of a run is the temporary name of that run, or the output path it linked. */
  lemma OrdinaryNameOfRun(output: Path, w: World, id: RunId, p: Path)
    requires id in w.runs && RunFits(output, w, id) && w.runs[id].inode.Some? && Ordinary(output, p)
    requires p in w.names && w.names[p] == w.runs[id].inode.value
    ensures w.runs[id].linked && p == output && Complete(w.runs[id], w.files[w.runs[id].inode.value])
  {
    hide Disturbed, HasName;
    var token :| w.runs[id].temp == TempPath(output, token);
    assert p != TempPath(output, token);
  }

  /** A run keeps its hands off an ordinary path, and off the file it names. */
  lemma RunLeavesOrdinary(output: Path, w: World, id: RunId, p: Path)
    requires Inv(output, w) && id in w.runs && w.runs[id].inode.Some? && Ordinary(output, p)
    ensures w.runs[id].temp != p
    ensures p in w.names && w.names[p] == w.runs[id].inode.value ==>
              w.runs[id].linked && Complete(w.runs[id], w.files[w.names[p]])
  {
    hide Ordinary;
    RunFitsIn(output, w, id);
    var token :| w.runs[id].temp == TempPath(output, token);
    OrdinaryIsNoTemp(output, p, token);
    if p in w.names && w.names[p] == w.runs[id].inode.value {
      OrdinaryNameOfRun(output, w, id, p);
    }
  }

  lemma OrdinaryIsNoTemp(output: Path, p: Path, token: Token)
    requires Ordinary(output, p)
    ensures p != TempPath(output, token)
  {
  }

  /** What a step of run `a.id` leaves as it was. */
  ghost predicate OnlyRun(w: World, v: World, id: RunId, inode: Option<Inode>)
  {
    && id in v.runs && v.runs == w.runs[id := v.runs[id]] && w.files.Keys <= v.files.Keys
    && (forall i :: i in w.files && (id in w.runs ==> w.runs[id].inode != Some(i)) ==> v.files[i] == w.files[i])
    && (forall p :: p in w.names ==>
          || (p in v.names && v.names[p] == w.names[p])
          || (id in w.runs && (w.runs[id].stage.Linked? || w.runs[id].stage.Discarded?) && p == w.runs[id].temp))
    && (v.runs[id].inode == (if id in w.runs then w.runs[id].inode else None) || v.runs[id].inode == inode)
  }

  lemma CreateTouches(output: Path, w: World, id: RunId, token: Token, inode: Inode, how: OpenResult)
    requires Enabled(w, CreateTemp(id, token, inode, how))
    ensures OnlyRun(w, Apply(output, w, CreateTemp(id, token, inode, how)), id, Some(inode))
  {
    hide TempPath;
    assert Apply(output, w, CreateTemp(id, token, inode, how)) == ApplyCreate(output, w, id, token, inode, how);
  }

  lemma FileStepTouches(output: Path, w: World, a: Action)
    requires Enabled(w, a) && (a.Write? || a.Flush? || a.Close? || a.Discard?)
    ensures OnlyRun(w, Apply(output, w, a), a.id, None)
  {
  }

  lemma LinkTouches(output: Path, w: World, a: Action)
    requires Enabled(w, a) && a.Link?
    ensures OnlyRun(w, Apply(output, w, a), a.id, None)
  {
    assert Apply(output, w, a) == ApplyLink(output, w, a.id, a.ok);
    hide Apply;
  }

  lemma RemovalTouches(output: Path, w: World, a: Action)
    requires Enabled(w, a) && (a.UnlinkTemp? || a.RemoveTemp?)
    ensures OnlyRun(w, Apply(output, w, a), a.id, None)
  {
    var stage := if a.UnlinkTemp? then Unlinked else Failed(w.runs[a.id].stage.error);
    assert Apply(output, w, a) == SetStage(Remove(w, a.id, a.ok), a.id, stage);
    hide Apply;
  }

  lemma StageStepTouches(output: Path, w: World, a: Action)
    requires Enabled(w, a)
    requires a.Begin? || a.CheckAbsent? || a.FailEarly? || a.RandomFails? || a.IoFails? || a.PayloadThrows?
             || a.SyncDirectory?
    ensures OnlyRun(w, Apply(output, w, a), a.id, None)
  {
  }

  /** A step of a run changes that run, the content of its file and names, and gives it at most a new inode. */
  lemma StepTouches(output: Path, w: World, a: Action)
    requires Enabled(w, a) && !a.CreateFile?
    ensures OnlyRun(w, Apply(output, w, a), a.id, if a.CreateTemp? then Some(a.inode) else None)
    ensures a.CreateTemp? ==> a.inode !in w.files
  {
    hide Apply, OnlyRun;
    match a
    case CreateTemp(id, token, inode, how) => CreateTouches(output, w, id, token, inode, how);
    case Write(_, _) | Flush(_, _) | Close(_, _) | Discard(_) => FileStepTouches(output, w, a);
    case Link(_, _) => LinkTouches(output, w, a);
    case UnlinkTemp(_, _) | RemoveTemp(_, _) => RemovalTouches(output, w, a);
    case _ => StageStepTouches(output, w, a);
  }

  /** Only a failing system call of its own makes a run unlucky. */
  lemma StepLuck(output: Path, w: World, a: Action, id: RunId)
    requires Enabled(w, a)
    ensures id in Apply(output, w, a).runs && Apply(output, w, a).runs[id].unlucky ==>
              (id in w.runs && w.runs[id].unlucky) || (Fails(a) && a.id == id)
  {
    if a.CreateFile? {
    } else if a.id != id {
      StepTouches(output, w, a);
      hide Apply, Enabled, Fails;
    } else {
      OwnLuck(output, w, a);
      hide Apply, Enabled, Fails;
    }
  }

  lemma OwnLuck(output: Path, w: World, a: Action)
    requires Enabled(w, a) && !a.CreateFile?
    ensures a.id in Apply(output, w, a).runs && Apply(output, w, a).runs[a.id].unlucky ==>
              (a.id in w.runs && w.runs[a.id].unlucky) || Fails(a)
  {
    hide TempPath;
  }

  /** A run that has linked its file does not change it any more. */
  lemma LinkedFileKept(output: Path, w: World, a: Action)
    requires Inv(output, w) && Enabled(w, a) && !a.CreateFile? && a.id in w.runs
    requires w.runs[a.id].inode.Some? && w.runs[a.id].linked
    ensures var inode := w.runs[a.id].inode.value;
            inode in w.files && Apply(output, w, a).files[inode] == w.files[inode]
  {
    hide Inv, Disturbed, HasName;
    RunFitsIn(output, w, a.id);
  }

  lemma StepKeepsOrdinary(output: Path, w: World, a: Action, p: Path)
    requires Inv(output, w) && Enabled(w, a) && Ordinary(output, p)
    ensures Kept(w, Apply(output, w, a), p)
  {
    hide Inv, Ordinary;
    if a.CreateFile? {
    } else if p in w.names {
      StepTouches(output, w, a);
      if a.id in w.runs && w.runs[a.id].inode.Some? {
        RunLeavesOrdinary(output, w, a.id, p);
        if w.runs[a.id].linked {
          LinkedFileKept(output, w, a);
        }
      }
      if a.id in w.runs {
        RunFitsIn(output, w, a.id);
      }
      hide Apply, Enabled;
    }
  }

  lemma {:induction false} LeadsKeeps(output: Path, w: World, actions: seq<Action>, v: World, p: Path)
    requires Inv(output, w) && Leads(output, w, actions, v) && Ordinary(output, p)
    ensures Inv(output, v) && Kept(w, v, p)
    decreases |actions|
  {
    hide Inv, Enabled, Apply, Ordinary;
    if actions == [] {
    } else {
      var next := Apply(output, w, actions[0]);
      StepKeepsInv(output, w, actions[0]);
      StepKeepsOrdinary(output, w, actions[0], p);
      LeadsKeeps(output, next, actions[1..], v, p);
    }
  }

  lemma InitialInv(output: Path, w: World)
    requires Initial(w)
    ensures Inv(output, w)
  {
  }

  /**
    Over every interleaving of any number of runs and an environment that creates files: a file at the
    output path, or at any other ordinary path, is never removed, replaced or altered; at most one run
    links its file there; and whenever the output path names the file of a run, that file holds the
    complete payload, flushed and closed.
   */
  lemma CommitSafety(output: Path, w: World, actions: seq<Action>, v: World)
    requires Initial(w) && Leads(output, w, actions, v)
    ensures forall p :: Ordinary(output, p) ==> Kept(w, v, p)
    ensures forall r, q :: r in v.runs && q in v.runs && v.runs[r].linked && v.runs[q].linked ==> r == q
    ensures forall r :: r in v.runs && output in v.names && v.runs[r].inode == Some(v.names[output]) ==>
              v.runs[r].linked && v.names[output] in v.files && Complete(v.runs[r], v.files[v.names[output]])
    ensures output in w.names ==> forall r :: r in v.runs ==> !v.runs[r].linked
  {
    InitialInv(output, w);
    OutputIsOrdinary(output);
    LeadsKeeps(output, w, actions, v, output);
    forall p | Ordinary(output, p)
      ensures Kept(w, v, p)
    {
      LeadsKeeps(output, w, actions, v, p);
    }
    AtMostOneLinked(output, v);
    forall r | r in v.runs && output in v.names && v.runs[r].inode == Some(v.names[output])
      ensures v.runs[r].linked && Complete(v.runs[r], v.files[v.names[output]])
    {
      OrdinaryNameOfRun(output, v, r, output);
    }
    if output in w.names {
      InodesStayForeign(output, w, actions, v, w.names[output]);
    }
  }

  lemma AtMostOneLinked(output: Path, v: World)
    requires Inv(output, v)
    ensures forall r, q :: r in v.runs && q in v.runs && v.runs[r].linked && v.runs[q].linked ==> r == q
  {
    forall r, q | r in v.runs && q in v.runs && v.runs[r].linked && v.runs[q].linked
      ensures r == q
    {
      assert RunFits(output, v, r) && RunFits(output, v, q);
      if r != q {
        assert false;
      }
    }
  }

  /** No run gets hold of an inode that existed before it. */
  ghost predicate Foreign(w: World, inode: Inode)
  {
    inode in w.files && forall r :: r in w.runs ==> w.runs[r].inode != Some(inode)
  }

  lemma StepKeepsForeign(output: Path, w: World, a: Action, inode: Inode)
    requires Enabled(w, a) && Foreign(w, inode)
    ensures Foreign(Apply(output, w, a), inode)
  {
    if a.CreateFile? {
    } else {
      StepTouches(output, w, a);
      hide Apply, Enabled;
      assert OnlyRun(w, Apply(output, w, a), a.id, if a.CreateTemp? then Some(a.inode) else None);
    }
  }

  lemma {:induction false} InodesStayForeign(output: Path, w: World, actions: seq<Action>, v: World, inode: Inode)
    requires Leads(output, w, actions, v) && Foreign(w, inode)
    ensures Foreign(v, inode)
    decreases |actions|
  {
    hide Enabled, Apply, Foreign;
    if actions == [] {
    } else {
      StepKeepsForeign(output, w, actions[0], inode);
      InodesStayForeign(output, Apply(output, w, actions[0]), actions[1..], v, inode);
    }
  }

  /** From the moment a run has linked its file the output path names it, whatever happens later. */
  lemma LinkedForGood(output: Path, w: World, actions: seq<Action>, v: World, id: RunId)
    requires Inv(output, w) && Leads(output, w, actions, v)
    requires id in w.runs && w.runs[id].linked
    ensures output in v.names && w.runs[id].inode == Some(v.names[output])
    ensures v.names[output] in v.files && Complete(w.runs[id], v.files[v.names[output]])
  {
    assert RunFits(output, w, id);
    OutputIsOrdinary(output);
    LeadsKeeps(output, w, actions, v, output);
  }

  // ---------- How runs end ----------

  /** What is at the output path when a run has ended. */
  ghost predicate AllOrNothing(output: Path, w: World, id: RunId)
    requires id in w.runs
  {
    var run := w.runs[id];
    && (run.linked <==> output in w.names && run.inode == Some(w.names[output]))
    && (run.stage.Finished? ==> run.linked)
    && (run.linked ==> w.names[output] in w.files && Complete(run, w.files[w.names[output]]))
    && (run.stage.Failed? && run.linked ==> run.stage.error == BackendFailure)
  }

  /** A name other than the output path still leads to the file of the run. */
  ghost predicate LeftBehind(output: Path, w: World, run: Run)
  {
    run.inode.Some? && exists p :: p in w.names && p != output && w.names[p] == run.inode.value
  }

  /**
    All or nothing, under every interleaving. A run that returned has its complete file at the output
    path. A run that threw has nothing there, except after a failure behind the link, which is reported
    as `backend_failure` and leaves the complete file in place. A temporary file stays behind only if
    `fdopen` failed or the last attempt to remove the name did, and then it does unless another run that
    drew the same token has removed the name.
   */
  lemma RunEnds(output: Path, origin: World, actions: seq<Action>, w: World, id: RunId)
    requires Initial(origin) && Leads(output, origin, actions, w)
    requires id in w.runs && Exited(w.runs[id])
    ensures AllOrNothing(output, w, id)
    ensures w.runs[id].stage.Finished? ==> w.runs[id].ends.Done? && w.runs[id].early.None?
    ensures w.runs[id].stage.Failed? ==> Justified(output, w, id, w.runs[id].stage.error)
    ensures LeftBehind(output, w, w.runs[id]) ==> w.runs[id].unlucky
    ensures LeftBehind(output, w, w.runs[id]) ==> w.runs[id].leaked || w.runs[id].unlinkFailed
    ensures !Disturbed(w, id) ==>
              (LeftBehind(output, w, w.runs[id]) <==> w.runs[id].leaked || w.runs[id].unlinkFailed)
  {
    hide Leads, Disturbed, Justified;
    InitialInv(output, origin);
    OutputIsOrdinary(output);
    LeadsKeeps(output, origin, actions, w, output);
    var run := w.runs[id];
    RunFitsIn(output, w, id);
    if run.inode.Some? {
      TempIsNotOutput(output, w, id);
      assert HasName(w, run) ==> run.temp in w.names && run.temp != output && w.names[run.temp] == run.inode.value;
      if output in w.names && w.names[output] == run.inode.value {
        OrdinaryNameOfRun(output, w, id, output);
      }
    }
  }
}
