/**
  The path overloads as code: the exclusive-create loop, the `try` block with its cleanup, and the
  commit, with other runs and the environment acting between any two system calls. Each system call is
  a step of the protocol, so what the protocol guarantees holds of the code.
 */
module PathOverloads {
  import opened Bytes
  import opened Errors
  import opened Gcm
  import opened FileCrypto
  import opened SealedFile
  import opened PathCommit
  import opened PathSafety

  /** Something another run or the environment does. */
  predicate ByOthers(a: Action, me: RunId)
  {
    a.CreateFile? || a.id != me
  }

  /** What others leave alone: the run, its file, and a file at the output path. */
  ghost predicate Untouched(output: Path, w: World, v: World, me: RunId)
  {
    && (me in w.runs <==> me in v.runs) && (me in w.runs ==> v.runs[me] == w.runs[me])
    && (FileOf(w, me) ==> FileOf(v, me) && v.files[v.runs[me].inode.value] == w.files[w.runs[me].inode.value])
    && (output in w.names ==> output in v.names && v.names[output] == w.names[output])
  }

  lemma OthersLeaveAlone(output: Path, w: World, a: Action, me: RunId)
    requires Inv(output, w) && Enabled(w, a) && ByOthers(a, me)
    ensures Untouched(output, w, Apply(output, w, a), me)
  {
    hide Inv, Apply, Enabled;
    OutputIsOrdinary(output);
    StepKeepsOrdinary(output, w, a, output);
    NamesLead(output, w);
    if a.CreateFile? {
      NewFileLeavesAlone(output, w, a);
    } else {
      StepTouches(output, w, a);
      if FileOf(w, me) && a.id in w.runs {
        RunsApart(output, w, a.id, me);
      }
      assert OnlyRun(w, Apply(output, w, a), a.id, if a.CreateTemp? then Some(a.inode) else None);
    }
  }

  lemma NewFileLeavesAlone(output: Path, w: World, a: Action)
    requires Enabled(w, a) && a.CreateFile?
    ensures var v := Apply(output, w, a);
            && v.runs == w.runs
            && (forall i :: i in w.files ==> i in v.files && v.files[i] == w.files[i])
            && (forall p :: p in w.names ==> p in v.names && v.names[p] == w.names[p])
  {
  }

  lemma NamesLead(output: Path, w: World)
    requires Inv(output, w)
    ensures forall p :: p in w.names ==> w.names[p] in w.files
  {
  }

  lemma RunsApart(output: Path, w: World, r: RunId, q: RunId)
    requires Inv(output, w) && r in w.runs && q in w.runs && r != q
    ensures Apart(w.runs[r], w.runs[q])
  {
  }

  /** A set of numbers leaves out some number. */
  lemma {:induction false} FreshInode(s: set<nat>) returns (bound: nat)
    ensures forall i :: i in s ==> i < bound
    decreases |s|
  {
    if s == {} {
      bound := 0;
    } else {
      var x :| x in s;
      var rest := FreshInode(s - {x});
      assert forall i :: i in s ==> i == x || i in s - {x};
      bound := if x < rest then rest else x + 1;
    }
  }

  /**
    The operating system as the runs share it. `log` is everything that happened since `origin`; system
    calls of a `reliable` run do not fail, those of another one may.
   */
  class Kernel {
    const output: Path
    const reliable: RunId -> bool
    ghost const origin: World
    ghost var log: seq<Action>
    var world: World

    constructor (output: Path, origin: World, reliable: RunId -> bool)
      requires Initial(origin)
      ensures this.output == output && this.origin == origin && this.reliable == reliable
      ensures world == origin && Valid()
    {
      this.output := output;
      this.reliable := reliable;
      this.origin := origin;
      log := [];
      world := origin;
      new;
      InitialInv(output, origin);
    }

    ghost predicate Valid()
      reads this
    {
      && Initial(origin) && Leads(output, origin, log, world) && Inv(output, world)
      && (forall r :: r in world.runs && reliable(r) ==> !world.runs[r].unlucky)
    }

    /** What the system lets happen. */
    predicate Possible(a: Action)
      reads this
    {
      Enabled(world, a) && !(Fails(a) && reliable(a.id))
    }

    /** One step of the protocol. */
    method Do(a: Action)
      requires Valid() && Possible(a)
      modifies this
      ensures Valid() && world == Apply(output, old(world), a)
    {
      StepKeepsInv(output, world, a);
      LeadsSnoc(output, origin, log, world, a);
      forall r | r in Apply(output, world, a).runs && reliable(r)
        ensures !Apply(output, world, a).runs[r].unlucky
      {
        StepLuck(output, world, a, r);
      }
      log := log + [a];
      world := Apply(output, world, a);
    }

    /** Whether a system call works is up to the system. */
    method Works(me: RunId) returns (ok: bool)
      ensures reliable(me) ==> ok
    {
      ok := *;
      ok := ok || reliable(me);
    }

    /** Any number of steps of others: `steps` is arbitrary, and a caller learns nothing but what the clauses say. */
    method Others(me: RunId)
      requires Valid()
      modifies this
      ensures Valid() && Untouched(output, old(world), world, me)
    {
      var steps: seq<Action> := *;
      var i := 0;
      while i < |steps|
        invariant 0 <= i <= |steps| && Valid() && Untouched(output, old(world), world, me)
      {
        if Possible(steps[i]) && ByOthers(steps[i], me) {
          OthersLeaveAlone(output, world, steps[i], me);
          Do(steps[i]);
        }
        i := i + 1;
      }
    }

    /** A number no file has yet. */
    method NewInode() returns (inode: Inode)
      ensures inode !in world.files
    {
      inode := 0;
      ghost var bound := FreshInode(world.files.Keys);
      while inode in world.files
        invariant inode <= bound
        decreases bound - inode
      {
        inode := inode + 1;
      }
    }
  }

  /** What a call has to write, how its payload loop ends, and an exception before the temporary file. */
  datatype Job = Job(payload: bytes, ends: Outcome, early: Option<ErrorCode>)

  /** The call `me` has reached `stage` with this job. */
  ghost predicate Reached(w: World, me: RunId, stage: Stage, job: Job)
  {
    && me in w.runs && w.runs[me].stage == stage
    && w.runs[me].payload == job.payload && w.runs[me].ends == job.ends && w.runs[me].early == job.early
  }

  /** The content of the file of the call. */
  ghost function Content(w: World, me: RunId): bytes
    requires FileOf(w, me)
  {
    w.files[w.runs[me].inode.value].content
  }

  /** `ensure_output_does_not_exist`. */
  method EnsureOutputDoesNotExist(k: Kernel, me: RunId, ghost job: Job) returns (r: Outcome)
    requires k.Valid() && Reached(k.world, me, Starting, job)
    modifies k
    ensures k.Valid() && Reached(k.world, me, if r.Done? then Creating else Failed(r.error), job)
    ensures r in {Done, Thrown(InvalidInput), Thrown(BackendFailure)}
    ensures r.Done? ==> k.output !in k.world.names
    ensures r == Thrown(InvalidInput) ==> k.output in k.world.names
    ensures old(k.output in k.world.names) ==> r.Thrown?
    ensures k.reliable(me) ==> r != Thrown(BackendFailure)
    ensures k.world.runs[me].taken == old(k.world.runs[me].taken)
  {
    hide Inv, Leads, Initial, Disturbed, TempPath;
    k.Others(me);
    var ok := k.Works(me);
    r := if !ok then Thrown(BackendFailure) else if k.output in k.world.names then Thrown(InvalidInput) else Done;
    k.Do(CheckAbsent(me, ok));
  }

  datatype ExclusiveOpenResult = Opened | AlreadyExists | OpenFailed

  /** `try_open_output_exclusive`, for the name with the given token. */
  method TryOpenOutputExclusive(k: Kernel, me: RunId, token: Token, ghost job: Job) returns (r: ExclusiveOpenResult)
    requires k.Valid() && Reached(k.world, me, Creating, job) && job.early.None?
    modifies k
    ensures k.Valid()
    ensures match r
            case Opened => Reached(k.world, me, Writing, job) && FileOf(k.world, me)
            case AlreadyExists =>
              && Reached(k.world, me, NextAttempt(old(k.world.runs[me])).stage, job)
              && k.world.runs[me].taken == old(k.world.runs[me].taken) + 1
            case OpenFailed => Reached(k.world, me, Failed(BackendFailure), job)
    ensures k.reliable(me) ==> r != OpenFailed
  {
    hide Inv, Leads, Initial, Disturbed;
    k.Others(me);
    var inode := k.NewInode();
    var works := k.Works(me);
    var how: OpenResult := if works then Opens else FdopenFails;
    var created := *;
    if !works && !created {
      how := OpenFails;
    }
    var taken := TempPath(k.output, token) in k.world.names;
    k.Do(CreateTemp(me, token, inode, how));
    r := if how.OpenFails? then OpenFailed
         else if taken then AlreadyExists
         else if how.FdopenFails? then OpenFailed
         else Opened;
  }

  /** `make_unique_temp_path`: its token may be any. */
  method DrawToken(k: Kernel, me: RunId, ghost job: Job) returns (token: Option<Token>)
    requires k.Valid() && Reached(k.world, me, Creating, job) && job.early.None?
    modifies k
    ensures k.Valid() && Reached(k.world, me, if token.Some? then Creating else Failed(BackendFailure), job)
    ensures k.world.runs[me].taken == old(k.world.runs[me].taken)
    ensures k.reliable(me) ==> token.Some?
  {
    hide Inv, Leads, Initial, Disturbed, TempPath;
    var random := k.Works(me);
    if !random {
      k.Do(RandomFails(me));
      return None;
    }
    var drawn: Token := *;
    return Some(drawn);
  }

  /** `open_unique_temp_output`: at most 32 attempts. */
  method OpenUniqueTempOutput(k: Kernel, me: RunId, ghost job: Job) returns (r: Outcome)
    requires k.Valid() && Reached(k.world, me, Creating, job) && job.early.None? && k.world.runs[me].taken == 0
    modifies k
    ensures k.Valid() && r in {Done, Thrown(BackendFailure)}
    ensures r.Done? ==> Reached(k.world, me, Writing, job) && FileOf(k.world, me)
    ensures r.Thrown? ==> Reached(k.world, me, Failed(r.error), job)
    ensures r.Thrown? && k.reliable(me) ==> k.world.runs[me].taken == 32
  {
    hide Inv, Leads, Initial, Disturbed, Apply, TempPath, Enabled;
    var attempt := 0;
    while attempt < MAX_ATTEMPTS
      invariant 0 <= attempt <= MAX_ATTEMPTS && k.Valid()
      invariant Reached(k.world, me, if attempt < MAX_ATTEMPTS then Creating else Failed(BackendFailure), job)
      invariant k.world.runs[me].taken == attempt
    {
      var token := DrawToken(k, me, job);
      if token.None? {
        return Thrown(BackendFailure);
      }
      var result := TryOpenOutputExclusive(k, me, token.value, job);
      if result == Opened {
        return Done;
      }
      if result == OpenFailed {
        return Thrown(BackendFailure);
      }
      attempt := attempt + 1;
    }
    return Thrown(BackendFailure);
  }

  /** Opening the input and the payload loop on an `OutputFile`: writes of any size, each of which may fail. */
  method WritePayload(k: Kernel, me: RunId, payload: bytes, ends: Outcome, ghost job: Job) returns (r: Outcome)
    requires k.Valid() && Reached(k.world, me, Writing, job) && FileOf(k.world, me)
    requires job == Job(payload, ends, None)
    modifies k
    ensures k.Valid() && FileOf(k.world, me)
    ensures r.Thrown? ==> Reached(k.world, me, Failing(r.error), job)
    ensures r in {Done, ends, Thrown(BackendFailure)}
    ensures k.reliable(me) ==> r == ends
    ensures r.Done? ==> Reached(k.world, me, Writing, job) && ends.Done? && Content(k.world, me) == payload
  {
    hide Inv, Leads, Initial, Disturbed, TempPath;
    k.Others(me);
    var readable := k.Works(me);
    if !readable {
      k.Do(IoFails(me));
      return Thrown(BackendFailure);
    }
    var written := |k.world.files[k.world.runs[me].inode.value].content|;
    WritingFits(k, me);
    while written < |payload|
      invariant k.Valid() && Reached(k.world, me, Writing, job) && FileOf(k.world, me)
      invariant written <= |payload| && Content(k.world, me) == payload[..written]
    {
      k.Others(me);
      var works := k.Works(me);
      if !works {
        k.Do(IoFails(me));
        return Thrown(BackendFailure);
      }
      var more: nat := *;
      var upTo := if written < more <= |payload| then more else |payload|;
      k.Do(Write(me, upTo));
      written := upTo;
    }
    assert payload[..written] == payload;
    if ends.Thrown? {
      k.Do(PayloadThrows(me));
      return ends;
    }
    return Done;
  }

  lemma WritingFits(k: Kernel, me: RunId)
    requires k.Valid() && AtStage(k.world, me, Writing) && FileOf(k.world, me)
    ensures var content, payload := Content(k.world, me), k.world.runs[me].payload;
            |content| <= |payload| && content == payload[..|content|]
  {
    assert RunFits(k.output, k.world, me);
  }

  /** `flush` and `close`. */
  method FlushAndClose(k: Kernel, me: RunId, ghost job: Job) returns (r: Outcome)
    requires k.Valid() && Reached(k.world, me, Writing, job) && FileOf(k.world, me)
    requires job.ends.Done? && Content(k.world, me) == job.payload
    modifies k
    ensures k.Valid() && FileOf(k.world, me) && r in {Done, Thrown(BackendFailure)}
    ensures Reached(k.world, me, if r.Done? then Closed else Failing(r.error), job)
    ensures r.Done? ==> k.world.files[k.world.runs[me].inode.value] == File(job.payload, true, true)
    ensures k.reliable(me) ==> r == Done
  {
    hide Inv, Leads, Initial, Disturbed, TempPath;
    k.Others(me);
    var flushed := k.Works(me);
    k.Do(Flush(me, flushed));
    if !flushed {
      return Thrown(BackendFailure);
    }
    k.Others(me);
    var closed := k.Works(me);
    k.Do(Close(me, closed));
    return if closed then Done else Thrown(BackendFailure);
  }

  /** `link`, with the errors `commit_temp_file` makes of its outcomes. */
  method LinkTemp(k: Kernel, me: RunId, ghost job: Job) returns (r: Outcome)
    requires k.Valid() && Reached(k.world, me, Closed, job) && FileOf(k.world, me)
    modifies k
    ensures k.Valid() && FileOf(k.world, me)
    ensures Reached(k.world, me, if r.Done? then Linked else Failing(r.error), job)
    ensures r in {Done, Thrown(InvalidInput), Thrown(BackendFailure)}
    ensures r.Done? <==> k.world.runs[me].linked
    ensures r == Thrown(InvalidInput) ==> k.output in k.world.names
    ensures old(k.output in k.world.names) ==> r.Thrown?
    ensures k.reliable(me) && r.Thrown? ==>
              k.output in k.world.names && (r.error == InvalidInput || Disturbed(k.world, me))
  {
    NotYetLinked(k, me);
    hide Inv, Leads, Initial, Disturbed, TempPath, RunFits, Fails;
    k.Others(me);
    var works := k.Works(me);
    r := if !works || k.world.runs[me].temp !in k.world.names then Thrown(BackendFailure)
         else if k.output in k.world.names then Thrown(InvalidInput)
         else Done;
    LinkRefused(k, me, works);
    LinkIs(k, me, works);
    hide Apply, Enabled;
    k.Do(Link(me, works));
  }

  /** `remove_quietly` behind the link. */
  method UnlinkTempName(k: Kernel, me: RunId, ghost job: Job)
    requires k.Valid() && Reached(k.world, me, Linked, job) && FileOf(k.world, me) && k.world.runs[me].linked
    modifies k
    ensures k.Valid() && Reached(k.world, me, Unlinked, job) && FileOf(k.world, me) && k.world.runs[me].linked
  {
    hide Inv, Leads, Initial, Disturbed, TempPath;
    k.Others(me);
    var removed := k.Works(me);
    k.Do(UnlinkTemp(me, removed));
  }

  /** `flush_parent_directory`. */
  method FlushParentDirectory(k: Kernel, me: RunId, ghost job: Job) returns (r: Outcome)
    requires k.Valid() && Reached(k.world, me, Unlinked, job) && FileOf(k.world, me) && k.world.runs[me].linked
    modifies k
    ensures k.Valid() && FileOf(k.world, me) && k.world.runs[me].linked
    ensures Reached(k.world, me, if r.Done? then Finished else Failing(r.error), job)
    ensures r in {Done, Thrown(BackendFailure)} && (k.reliable(me) ==> r.Done?)
  {
    hide Inv, Leads, Initial, Disturbed, TempPath;
    k.Others(me);
    var synced := k.Works(me);
    k.Do(SyncDirectory(me, synced));
    return if synced then Done else Thrown(BackendFailure);
  }

  /** `commit_temp_file`. */
  method CommitTempFile(k: Kernel, me: RunId, ghost job: Job) returns (r: Outcome)
    requires k.Valid() && Reached(k.world, me, Closed, job) && FileOf(k.world, me)
    modifies k
    ensures k.Valid() && FileOf(k.world, me)
    ensures Reached(k.world, me, if r.Done? then Finished else Failing(r.error), job)
    ensures r in {Done, Thrown(InvalidInput), Thrown(BackendFailure)}
    ensures r.Done? ==> k.world.runs[me].linked
    ensures r == Thrown(InvalidInput) ==> k.output in k.world.names && !k.world.runs[me].linked
    ensures old(k.output in k.world.names) ==> r.Thrown? && !k.world.runs[me].linked
    ensures k.reliable(me) && r.Thrown? ==>
              k.output in k.world.names && (r.error == InvalidInput || Disturbed(k.world, me))
  {
    hide Inv, Leads, Initial, Disturbed, TempPath, Apply, Enabled;
    r := LinkTemp(k, me, job);
    if r.Thrown? {
      return;
    }
    UnlinkTempName(k, me, job);
    r := FlushParentDirectory(k, me, job);
  }

  /** The temporary name is missing only if another run has linked its file and removed the name they shared. */
  lemma LinkIs(k: Kernel, me: RunId, ok: bool)
    requires AtStage(k.world, me, Closed)
    ensures Enabled(k.world, Link(me, ok)) && (Fails(Link(me, ok)) <==> !ok)
    ensures Apply(k.output, k.world, Link(me, ok)) == ApplyLink(k.output, k.world, me, ok)
  {
  }

  lemma LinkRefused(k: Kernel, me: RunId, ok: bool)
    requires k.Valid() && AtStage(k.world, me, Closed) && FileOf(k.world, me)
    ensures k.world.runs[me].temp !in k.world.names ==>
              && k.output in k.world.names
              && Enabled(k.world, Link(me, ok)) && Disturbed(Apply(k.output, k.world, Link(me, ok)), me)
  {
    RunFitsIn(k.output, k.world, me);
    if k.output !in k.world.names {
      NameBeforeLink(k.output, k.world, me);
    }
    SelfDisturbedKept(k.world, Apply(k.output, k.world, Link(me, ok)), me);
  }

  lemma NotYetLinked(k: Kernel, me: RunId)
    requires k.Valid() && AtStage(k.world, me, Closed) && FileOf(k.world, me)
    ensures !k.world.runs[me].linked
  {
    assert RunFits(k.output, k.world, me);
  }

  /** The `catch` block: close, remove the temporary name, throw on. */
  method CleanUp(k: Kernel, me: RunId, code: ErrorCode, ghost job: Job)
    requires k.Valid() && Reached(k.world, me, Failing(code), job) && FileOf(k.world, me)
    modifies k
    ensures k.Valid() && Reached(k.world, me, Failed(code), job)
    ensures FileOf(k.world, me) && k.world.files[k.world.runs[me].inode.value].closed
    ensures LeftBehind(k.output, k.world, k.world.runs[me]) ==> k.world.runs[me].unlinkFailed
  {
    hide Inv, Leads, Initial, Disturbed, TempPath, LeftBehind;
    FailingIsNotLeaked(k, me);
    k.Others(me);
    k.Do(Discard(me));
    k.Others(me);
    var removed := k.Works(me);
    k.Do(RemoveTemp(me, removed));
    LeftByRemoval(k, me);
  }

  lemma FailingIsNotLeaked(k: Kernel, me: RunId)
    requires k.Valid() && FileOf(k.world, me) && k.world.runs[me].stage.Failing?
    ensures !k.world.runs[me].leaked
  {
    RunFitsIn(k.output, k.world, me);
  }

  lemma LeftByRemoval(k: Kernel, me: RunId)
    requires k.Valid() && FileOf(k.world, me) && k.world.runs[me].stage.Failed? && !k.world.runs[me].leaked
    ensures LeftBehind(k.output, k.world, k.world.runs[me]) ==> k.world.runs[me].unlinkFailed
  {
    RunFitsIn(k.output, k.world, me);
  }

  /**
    What a caller finds when the call `me` has ended with `r`. After a return the complete payload is at the
    output path. After an exception the file of the call is not there; or it is there complete, and the
    code is `backend_failure`. A temporary file stays behind as `RunEnds` says.
   */
  ghost predicate Settled(output: Path, w: World, me: RunId, job: Job, r: Outcome)
  {
    && Reached(w, me, if r.Done? then Finished else Failed(r.error), job)
    && var run := w.runs[me];
       && (r.Done? ==> InPlace(output, w, run) && CompleteAt(output, w, job))
       && (r.Thrown? && InPlace(output, w, run) ==> r.error == BackendFailure && CompleteAt(output, w, job))
       && (LeftBehind(output, w, run) ==> run.leaked || run.unlinkFailed)
       && (!Disturbed(w, me) ==> (LeftBehind(output, w, run) <==> run.leaked || run.unlinkFailed))
  }

  /** The output path names the file of the run. */
  ghost predicate InPlace(output: Path, w: World, run: Run)
  {
    output in w.names && run.inode == Some(w.names[output])
  }

  /** The output path names a file with the complete payload of a loop that ended well. */
  ghost predicate CompleteAt(output: Path, w: World, job: Job)
  {
    && job.ends.Done? && output in w.names && w.names[output] in w.files
    && w.files[w.names[output]] == File(job.payload, true, true)
  }

  /** How a call ends when nothing goes wrong around it. */
  function Verdict(job: Job): Outcome
  {
    if job.early.Some? then Thrown(job.early.value) else job.ends
  }

  /** Somebody else's file is at the output path. */
  ghost predicate Occupied(output: Path, w: World, me: RunId)
  {
    output in w.names && !(me in w.runs && InPlace(output, w, w.runs[me]))
  }

  /**
    A path overload whose payload loop writes `payload` and ends with `ends`; `early` is an exception
    between the existence check and the temporary file. It never returns when a file was at the output
    path before. If the system calls of the call all work, it ends as its payload does, unless the output
    path is occupied in the end or 32 temporary names were taken, and it leaves no temporary file behind;
    if the path was occupied from the start, it ends with `invalid_input`.
   */
  method PathOverload(k: Kernel, me: RunId, payload: bytes, ends: Outcome, early: Option<ErrorCode>)
    returns (r: Outcome)
    requires k.Valid() && me !in k.world.runs
    modifies k
    ensures k.Valid() && Settled(k.output, k.world, me, Job(payload, ends, early), r)
    ensures r in {Done, Thrown(InvalidInput), Thrown(BackendFailure), ends} || (early.Some? && r == Thrown(early.value))
    ensures old(k.output in k.world.names) || k.output in k.origin.names ==> r.Thrown?
    ensures early.Some? ==> r.Thrown?
    ensures k.reliable(me) && old(k.output in k.world.names) ==> r == Thrown(InvalidInput)
    ensures k.reliable(me) && !Occupied(k.output, k.world, me) && k.world.runs[me].taken < 32 ==>
              r == if early.Some? then Thrown(early.value) else ends
    ensures k.reliable(me) && r == Thrown(BackendFailure) ==>
              || Verdict(Job(payload, ends, early)) == r || k.world.runs[me].taken == 32 || Disturbed(k.world, me)
    ensures k.reliable(me) ==> !LeftBehind(k.output, k.world, k.world.runs[me])
  {
    OriginKept(k);
    hide Inv, Leads, Initial, Disturbed, LeftBehind, Apply, Enabled;
    BeginRun(k, me, payload, ends, early);
    r := RunBody(k, me, payload, ends, early);
    Settles(k, me, Job(payload, ends, early), r);
  }

  /** A file that was at the output path in the beginning still is. */
  lemma OriginKept(k: Kernel)
    requires k.Valid()
    ensures k.output in k.origin.names ==> k.output in k.world.names
  {
    OutputIsOrdinary(k.output);
    InitialInv(k.output, k.origin);
    LeadsKeeps(k.output, k.origin, k.log, k.world, k.output);
  }

  lemma SettledInPlace(output: Path, w: World, me: RunId, job: Job, r: Outcome)
    requires Settled(output, w, me, job, r)
    ensures r.Done? ==> CompleteAt(output, w, job) && job.ends.Done?
  {
  }

  /** What follows from the protocol when the run of a call has ended. */
  lemma Settles(k: Kernel, me: RunId, job: Job, r: Outcome)
    requires k.Valid() && Reached(k.world, me, if r.Done? then Finished else Failed(r.error), job)
    ensures Settled(k.output, k.world, me, job, r)
    ensures k.reliable(me) ==>
              && !LeftBehind(k.output, k.world, k.world.runs[me])
              && (!Occupied(k.output, k.world, me) && k.world.runs[me].taken < 32 ==> r == Verdict(job))
              && (r == Thrown(BackendFailure) ==>
                    Verdict(job) == r || k.world.runs[me].taken == 32 || Disturbed(k.world, me))
  {
    var w := k.world;
    RunEnds(k.output, k.origin, k.log, w, me);
    if Disturbed(w, me) {
      DisturbedIsOccupied(k.output, w, me);
    }
    hide Leads, Inv, Initial, Disturbed, LeftBehind;
  }

  /** The run that disturbs another one has its own file at the output path. */
  lemma DisturbedIsOccupied(output: Path, w: World, me: RunId)
    requires Inv(output, w) && me in w.runs && Disturbed(w, me)
    ensures Occupied(output, w, me)
  {
    var q :| Released(w, me, q);
    assert RunFits(output, w, q) && Apart(w.runs[me], w.runs[q]);
  }

  /** An exception between the existence check and the temporary file. */
  method ThrowEarly(k: Kernel, me: RunId, ghost job: Job)
    requires k.Valid() && Reached(k.world, me, Creating, job) && job.early.Some?
    modifies k
    ensures k.Valid() && Reached(k.world, me, Failed(job.early.value), job)
  {
    hide Inv, Leads, Initial, Disturbed, TempPath;
    k.Do(FailEarly(me));
  }

  method BeginRun(k: Kernel, me: RunId, payload: bytes, ends: Outcome, early: Option<ErrorCode>)
    requires k.Valid() && me !in k.world.runs
    modifies k
    ensures k.Valid() && Reached(k.world, me, Starting, Job(payload, ends, early)) && k.world.runs[me].taken == 0
    ensures k.world.names == old(k.world.names)
  {
    hide Inv, Leads, Initial, Disturbed, TempPath;
    k.Do(Begin(me, payload, ends, early));
  }

  method RunBody(k: Kernel, me: RunId, payload: bytes, ends: Outcome, early: Option<ErrorCode>)
    returns (r: Outcome)
    requires k.Valid() && Reached(k.world, me, Starting, Job(payload, ends, early)) && k.world.runs[me].taken == 0
    modifies k
    ensures k.Valid()
    ensures Reached(k.world, me, if r.Done? then Finished else Failed(r.error), Job(payload, ends, early))
    ensures r in {Done, Thrown(InvalidInput), Thrown(BackendFailure), ends} || (early.Some? && r == Thrown(early.value))
    ensures old(k.output in k.world.names) ==> r.Thrown?
    ensures early.Some? ==> r.Thrown?
    ensures k.reliable(me) && old(k.output in k.world.names) ==> r == Thrown(InvalidInput)
  {
    hide Inv, Leads, Initial, Disturbed, TempPath, Apply, Enabled, LeftBehind;
    ghost var job := Job(payload, ends, early);
    r := EnsureOutputDoesNotExist(k, me, job);
    if r.Thrown? {
      return;
    }
    if early.Some? {
      ThrowEarly(k, me, job);
      return Thrown(early.value);
    }
    r := OpenUniqueTempOutput(k, me, job);
    if r.Thrown? {
      return;
    }
    r := WritePayload(k, me, payload, ends, job);
    if r.Done? {
      r := FlushAndClose(k, me, job);
    }
    if r.Done? {
      r := CommitTempFile(k, me, job);
    }
    if r.Thrown? {
      CleanUp(k, me, r.error, job);
    }
  }

  /**
    `seal_file` and `seal_file_with_password` on paths, for an input file with this content, `faulty` when
    reading it ends in an error. A return means that the output path names a file that opens to `data`. If
    the system calls work and the output path is free, the call ends as sealing does.
   */
  method SealFileAt(k: Kernel, me: RunId, suite: Suite, secret: Secret, entropy: Option<Entropy>,
                    aad: bytes, data: bytes, faulty: bool, faults: nat -> CipherFault) returns (r: Outcome)
    requires k.Valid() && me !in k.world.runs
    modifies k
    ensures k.Valid()
    ensures !Usable(secret) ==> r == Thrown(InvalidInput) && k.world == old(k.world)
    ensures var run := SealFileRun(suite, secret, entropy, aad, data, faulty, faults);
            Usable(secret) ==>
              && Settled(k.output, k.world, me, SealJob(suite, secret, entropy, aad, data, faulty, faults), r)
              && (k.reliable(me) && !Occupied(k.output, k.world, me) && k.world.runs[me].taken < 32 ==>
                    r == run.outcome)
    ensures r.Done? ==>
              && CompleteAt(k.output, k.world, SealJob(suite, secret, entropy, aad, data, faulty, faults))
              && OpensFileTo(suite, secret, aad, k.world.files[k.world.names[k.output]].content, data)
    ensures r in {Done, Thrown(InvalidInput), Thrown(BackendFailure)}
    ensures old(k.output in k.world.names) || k.output in k.origin.names ==> r.Thrown?
    ensures k.reliable(me) && old(k.output in k.world.names) ==> r == Thrown(InvalidInput)
  {
    hide Settled, LeftBehind, Disturbed, Inv, Leads, Initial, OpensFileTo;
    if !Usable(secret) {
      return Thrown(InvalidInput);
    }
    var session := SealSession(suite, secret, entropy, aad);
    var early := if session.Err? then Some(session.error) else None;
    var run := SealFileRun(suite, secret, entropy, aad, data, faulty, faults);
    SealFileErrors(suite, secret, entropy, aad, data, faulty, faults);
    r := PathOverload(k, me, run.written, run.outcome, early);
    SettledInPlace(k.output, k.world, me, SealJob(suite, secret, entropy, aad, data, faulty, faults), r);
    if r.Done? {
      SealedFileOpens(suite, secret, entropy, aad, data, faulty, faults);
    }
  }

  /** Sealing sets its session up before it creates the temporary file. */
  ghost function SealJob(suite: Suite, secret: Secret, entropy: Option<Entropy>, aad: bytes, data: bytes, faulty: bool,
                         faults: nat -> CipherFault): Job
  {
    var session := SealSession(suite, secret, entropy, aad);
    var run := SealFileRun(suite, secret, entropy, aad, data, faulty, faults);
    Job(run.written, run.outcome, if session.Err? then Some(session.error) else None)
  }

  /**
    `open_file` and `open_file_with_password` on paths. A return means that the output path names the
    whole authenticated plaintext; no chunk is ever there before all of them have been authenticated. If
    the system calls work and the output path is free, the call ends as opening does.
   */
  method OpenFileAt(k: Kernel, me: RunId, suite: Suite, secret: Secret,
                    aad: bytes, input: bytes, faulty: bool, faults: nat -> CipherFault) returns (r: Outcome)
    requires k.Valid() && me !in k.world.runs
    modifies k
    ensures k.Valid()
    ensures !Usable(secret) ==> r == Thrown(InvalidInput) && k.world == old(k.world)
    ensures var run := OpenFileRun(suite, secret, aad, input, faulty, faults);
            && (Usable(secret) ==>
                  && Settled(k.output, k.world, me, Job(Flatten(run.chunks), run.outcome, None), r)
                  && (k.reliable(me) && !Occupied(k.output, k.world, me) && k.world.runs[me].taken < 32 ==>
                        r == run.outcome))
            && r in {Done, Thrown(InvalidInput), Thrown(BackendFailure), run.outcome}
    ensures r != Thrown(InvalidEncoding)
    ensures old(k.output in k.world.names) || k.output in k.origin.names ==> r.Thrown?
    ensures k.reliable(me) && old(k.output in k.world.names) ==> r == Thrown(InvalidInput)
  {
    if !Usable(secret) {
      return Thrown(InvalidInput);
    }
    var run := OpenFileRun(suite, secret, aad, input, faulty, faults);
    OpenFileErrors(suite, secret, aad, input, faulty, faults);
    r := PathOverload(k, me, Flatten(run.chunks), run.outcome, None);
  }
}
