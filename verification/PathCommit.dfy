/**
  The commit protocol of the path overloads (`src/file.cpp:79-105` with `src/file_io.cpp`, POSIX branch)
  as a state machine: any number of runs write towards one output path, each through its own temporary
  file, while the environment may create files anywhere.
 */
module PathCommit {
  import opened Bytes
  import opened Errors

  type Path = string
  type Inode = nat
  type RunId = nat

  const TOKEN_SIZE := 16
  const MAX_ATTEMPTS := 32

  type Token = t: bytes | |t| == TOKEN_SIZE witness seq(TOKEN_SIZE, _ => 0)

  // ---------- Temporary names ----------

  const HEX_DIGITS: string := "0123456789abcdef"

  function HexDigit(x: int): char
    requires 0 <= x < 16
  {
    HEX_DIGITS[x]
  }

  function Hex(token: bytes): (s: string)
    ensures |s| == 2 * |token|
  {
    if token == [] then []
    else Hex(token[..|token| - 1]) + [HexDigit(token[|token| - 1] / 16), HexDigit(token[|token| - 1] % 16)]
  }

  /** `make_unique_temp_path` with the token `random_bytes` drew. */
  function TempPath(output: Path, token: Token): Path
  {
    output + (".securekit." + Hex(token) + ".tmp")
  }

  lemma HexDigitInjective(x: int, y: int)
    requires 0 <= x < 16 && 0 <= y < 16 && HexDigit(x) == HexDigit(y)
    ensures x == y
  {
  }

  lemma HexParts(a: bytes)
    requires a != []
    ensures var n := |a| - 1;
            && Hex(a)[..2 * n] == Hex(a[..n])
            && Hex(a)[2 * n] == HexDigit(a[n] / 16) && Hex(a)[2 * n + 1] == HexDigit(a[n] % 16)
  {
    hide HexDigit;
  }

  lemma {:induction false} HexInjective(a: bytes, b: bytes)
    requires |a| == |b| && Hex(a) == Hex(b)
    ensures a == b
  {
    hide HexDigit, Hex;
    if a == [] {
    } else {
      var n := |a| - 1;
      HexParts(a);
      HexParts(b);
      HexInjective(a[..n], b[..n]);
      HexDigitInjective(a[n] / 16, b[n] / 16);
      HexDigitInjective(a[n] % 16, b[n] % 16);
      assert a == a[..n] + [a[n]] && b == b[..n] + [b[n]];
    }
  }

  lemma {:induction false} HexAt(token: bytes, i: nat)
    requires i < |token|
    ensures Hex(token)[2 * i] == HexDigit(token[i] / 16) && Hex(token)[2 * i + 1] == HexDigit(token[i] % 16)
  {
    hide HexDigit;
    var n := |token| - 1;
    HexParts(token);
    if i < n {
      HexAt(token[..n], i);
      assert Hex(token)[..2 * n][2 * i] == Hex(token)[2 * i] && Hex(token)[..2 * n][2 * i + 1] == Hex(token)[2 * i + 1];
    }
  }

  /** The name: behind the output path `.securekit.`, each byte as two lower-case hex digits, high one first, `.tmp`. */
  lemma TempPathLayout(output: Path, token: Token, i: nat)
    requires i < 16
    ensures var n, s := |output|, TempPath(output, token);
            && |s| == n + 47 && s[..n] == output && s[n..n + 11] == ".securekit." && s[n + 43..] == ".tmp"
            && s[n + 11 + 2 * i] as int == (if token[i] / 16 < 10 then 48 else 87) + token[i] / 16
            && s[n + 12 + 2 * i] as int == (if token[i] % 16 < 10 then 48 else 87) + token[i] % 16
  {
    HexAt(token, i);
    hide Hex;
  }

  /** Different tokens give different names, and none of them is the output path. */
  lemma TempPathsDistinct(output: Path, a: Token, b: Token)
    ensures TempPath(output, a) != output
    ensures TempPath(output, a) == TempPath(output, b) ==> a == b
  {
    var n := |output| + 11;
    assert TempPath(output, a)[n..n + 32] == Hex(a) && TempPath(output, b)[n..n + 32] == Hex(b);
    if TempPath(output, a) == TempPath(output, b) {
      HexInjective(a, b);
    }
  }

  // ---------- States ----------

  datatype File = File(content: bytes, flushed: bool, closed: bool)

  /** Where a run is; the last three follow an exception, `Failing` and `Discarded` inside the `try` block. */
  datatype Stage =
    | Starting
    | Creating
    | Writing
    | Flushed
    | Closed
    | Linked
    | Unlinked
    | Finished
    | Failing(error: ErrorCode)
    | Discarded(error: ErrorCode)
    | Failed(error: ErrorCode)

  /**
    One call of a path overload. `payload` is what its payload loop writes, `ends` how that loop ends as
    long as reading and writing work, `early` an exception between the existence check and the temporary
    file. `taken` counts the temporary names that existed already. `held` says that the temporary name
    still belongs to the run, `leaked` that `fdopen` failed, `unlinkFailed` that the last attempt to remove
    the name did, `unlucky` that some system call has failed.
   */
  datatype Run = Run(payload: bytes, ends: Outcome, early: Option<ErrorCode>, stage: Stage, temp: Path,
                     inode: Option<Inode>, taken: nat, held: bool, linked: bool, leaked: bool,
                     unlinkFailed: bool, unlucky: bool)

  datatype World = World(names: map<Path, Inode>, files: map<Inode, File>, runs: map<RunId, Run>)

  datatype OpenResult = Opens | OpenFails | FdopenFails

  datatype Action =
    | CreateFile(path: Path, inode: Inode, content: bytes)          // the environment
    | Begin(id: RunId, payload: bytes, ends: Outcome, early: Option<ErrorCode>)
    | CheckAbsent(id: RunId, ok: bool)
    | FailEarly(id: RunId)
    | RandomFails(id: RunId)
    | CreateTemp(id: RunId, token: Token, inode: Inode, how: OpenResult)
    | Write(id: RunId, upTo: nat)
    | IoFails(id: RunId)
    | PayloadThrows(id: RunId)
    | Flush(id: RunId, ok: bool)
    | Close(id: RunId, ok: bool)
    | Link(id: RunId, ok: bool)
    | UnlinkTemp(id: RunId, ok: bool)
    | SyncDirectory(id: RunId, ok: bool)
    | Discard(id: RunId)
    | RemoveTemp(id: RunId, ok: bool)

  /** A system call of a run fails. */
  predicate Fails(a: Action)
  {
    match a
    case CreateTemp(_, _, _, how) => !how.Opens?
    case RandomFails(_) | IoFails(_) => true
    case CheckAbsent(_, ok) => !ok
    case Flush(_, ok) => !ok
    case Close(_, ok) => !ok
    case Link(_, ok) => !ok
    case UnlinkTemp(_, ok) => !ok
    case SyncDirectory(_, ok) => !ok
    case RemoveTemp(_, ok) => !ok
    case _ => false
  }

  // ---------- Steps ----------

  predicate AtStage(w: World, id: RunId, stage: Stage)
  {
    id in w.runs && w.runs[id].stage == stage
  }

  /** What the program order and the operating system allow. Tokens may repeat. */
  predicate Enabled(w: World, a: Action)
  {
    match a
    case CreateFile(path, inode, _) => path !in w.names && inode !in w.files
    case Begin(id, _, _, _) => id !in w.runs
    case CheckAbsent(id, _) => AtStage(w, id, Starting)
    case FailEarly(id) => AtStage(w, id, Creating) && w.runs[id].early.Some?
    case RandomFails(id) => AtStage(w, id, Creating) && w.runs[id].early.None?
    case CreateTemp(id, _, inode, _) => AtStage(w, id, Creating) && w.runs[id].early.None? && inode !in w.files
    case Write(id, upTo) =>
      && AtStage(w, id, Writing) && FileOf(w, id) && w.files[w.runs[id].inode.value].content <= w.runs[id].payload
      && |w.files[w.runs[id].inode.value].content| <= upTo <= |w.runs[id].payload|
    case IoFails(id) => AtStage(w, id, Writing) && FileOf(w, id)
    case PayloadThrows(id) =>
      && AtStage(w, id, Writing) && FileOf(w, id)
      && w.runs[id].ends.Thrown? && w.files[w.runs[id].inode.value].content == w.runs[id].payload
    case Flush(id, _) =>
      && AtStage(w, id, Writing) && FileOf(w, id)
      && w.runs[id].ends.Done? && w.files[w.runs[id].inode.value].content == w.runs[id].payload
    case Close(id, _) => AtStage(w, id, Flushed) && FileOf(w, id)
    case Link(id, _) => AtStage(w, id, Closed)
    case UnlinkTemp(id, _) => AtStage(w, id, Linked)
    case SyncDirectory(id, _) => AtStage(w, id, Unlinked)
    case Discard(id) => id in w.runs && w.runs[id].stage.Failing? && FileOf(w, id)
    case RemoveTemp(id, _) => id in w.runs && w.runs[id].stage.Discarded?
  }

  predicate FileOf(w: World, id: RunId)
  {
    id in w.runs && w.runs[id].inode.Some? && w.runs[id].inode.value in w.files
  }

  function SetRun(w: World, id: RunId, run: Run): World
  {
    w.(runs := w.runs[id := run])
  }

  function SetStage(w: World, id: RunId, stage: Stage): World
    requires id in w.runs
  {
    SetRun(w, id, w.runs[id].(stage := stage))
  }

  /** A system call of the run has failed, and the run continues at `stage`. */
  function Unlucky(w: World, id: RunId, stage: Stage): World
    requires id in w.runs
  {
    SetRun(w, id, w.runs[id].(stage := stage, unlucky := true))
  }

  function SetFile(w: World, inode: Inode, f: File): World
  {
    w.(files := w.files[inode := f])
  }

  /** `remove_quietly(temp_path)`: a missing name is no failure. */
  function Remove(w: World, id: RunId, ok: bool): World
    requires id in w.runs
  {
    var run := w.runs[id];
    if ok then SetRun(w.(names := w.names - {run.temp}), id, run.(held := false, unlinkFailed := false))
    else SetRun(w, id, run.(unlinkFailed := run.held, unlucky := true))
  }

  function Apply(output: Path, w: World, a: Action): World
    requires Enabled(w, a)
  {
    match a
    case CreateFile(path, inode, content) =>
      SetFile(w.(names := w.names[path := inode]), inode, File(content, true, true))
    case Begin(id, payload, ends, early) =>
      SetRun(w, id, Run(payload, ends, early, Starting, "", None, 0, false, false, false, false, false))
    case CheckAbsent(id, ok) =>
      if !ok then Unlucky(w, id, Failed(BackendFailure))
      else SetStage(w, id, if output in w.names then Failed(InvalidInput) else Creating)
    case FailEarly(id) => SetStage(w, id, Failed(w.runs[id].early.value))
    case RandomFails(id) => Unlucky(w, id, Failed(BackendFailure))
    case CreateTemp(id, token, inode, how) => ApplyCreate(output, w, id, token, inode, how)
    case Write(id, upTo) =>
      SetFile(w, w.runs[id].inode.value, File(w.runs[id].payload[..upTo], false, false))
    case IoFails(id) => Unlucky(w, id, Failing(BackendFailure))
    case PayloadThrows(id) => SetStage(w, id, Failing(w.runs[id].ends.error))
    case Flush(id, ok) =>
      if !ok then Unlucky(w, id, Failing(BackendFailure))
      else SetStage(SetFile(w, w.runs[id].inode.value, w.files[w.runs[id].inode.value].(flushed := true)), id, Flushed)
    case Close(id, ok) =>
      var v := SetFile(w, w.runs[id].inode.value, w.files[w.runs[id].inode.value].(closed := true));
      if ok then SetStage(v, id, Closed) else Unlucky(v, id, Failing(BackendFailure))
    case Link(id, ok) => ApplyLink(output, w, id, ok)
    case UnlinkTemp(id, ok) => SetStage(Remove(w, id, ok), id, Unlinked)
    case SyncDirectory(id, ok) => if ok then SetStage(w, id, Finished) else Unlucky(w, id, Failing(BackendFailure))
    case Discard(id) =>
      SetStage(SetFile(w, w.runs[id].inode.value, w.files[w.runs[id].inode.value].(closed := true)), id,
               Discarded(w.runs[id].stage.error))
    case RemoveTemp(id, ok) => SetStage(Remove(w, id, ok), id, Failed(w.runs[id].stage.error))
  }

  /** One more temporary name existed already; the run gives up when that was the last attempt. */
  function NextAttempt(run: Run): Run
  {
    run.(taken := run.taken + 1, stage := if run.taken + 1 < MAX_ATTEMPTS then Creating else Failed(BackendFailure))
  }

  /**
    `try_open_output_exclusive` in the loop of `open_unique_temp_output`. When `fdopen` fails the file
    has been created already, and nobody removes it.
   */
  function ApplyCreate(output: Path, w: World, id: RunId, token: Token, inode: Inode, how: OpenResult): World
    requires id in w.runs && w.runs[id].stage.Creating?
  {
    var run, temp := w.runs[id], TempPath(output, token);
    if how == OpenFails then Unlucky(w, id, Failed(BackendFailure))
    else if temp in w.names then SetRun(w, id, NextAttempt(run))
    else
      var created := SetFile(w.(names := w.names[temp := inode]), inode, File([], false, how == FdopenFails));
      SetRun(created, id, run.(stage := if how == Opens then Writing else Failed(BackendFailure),
                               temp := temp, inode := Some(inode), held := true,
                               leaked := how == FdopenFails, unlucky := run.unlucky || how == FdopenFails))
  }

  /** `link(temp, output)`: atomic, and refused when the output path exists. */
  function ApplyLink(output: Path, w: World, id: RunId, ok: bool): World
    requires id in w.runs
  {
    var run := w.runs[id];
    if !ok then Unlucky(w, id, Failing(BackendFailure))
    else if run.temp !in w.names then SetStage(w, id, Failing(BackendFailure))
    else if output in w.names then SetStage(w, id, Failing(InvalidInput))
    else SetRun(w.(names := w.names[output := w.names[run.temp]]), id, run.(stage := Linked, linked := true))
  }

  // ---------- The invariant ----------

  ghost predicate Complete(run: Run, f: File)
  {
    run.ends.Done? && f == File(run.payload, true, true)
  }

  ghost predicate Exited(run: Run)
  {
    run.stage.Finished? || run.stage.Failed?
  }

  /** What the stage of a run says about its file. */
  ghost predicate StageFits(run: Run, f: File)
  {
    && (run.linked ==> Complete(run, f))
    && (run.leaked ==> run.stage.Failed?)
    && (run.unlinkFailed ==> run.held)
    && (run.leaked || run.unlinkFailed ==> run.unlucky)
    && (match run.stage
        case Starting | Creating => false
        case Writing => run.held && !run.linked && !f.closed && f.content <= run.payload
        case Flushed => run.held && !run.linked && run.ends.Done? && f.content == run.payload && f.flushed
        case Closed => run.held && !run.linked && Complete(run, f)
        case Linked => run.held && run.linked
        case Unlinked | Finished => run.linked && (run.held <==> run.unlinkFailed)
        case Failing(code) => (run.held || run.linked) && (run.linked ==> code == BackendFailure)
        case Discarded(code) => (run.held || run.linked) && (run.linked ==> code == BackendFailure)
        case Failed(code) =>
          (run.linked ==> code == BackendFailure) && (run.held <==> run.leaked || run.unlinkFailed))
  }

  /** The temporary name of the run leads to its file. */
  ghost predicate HasName(w: World, run: Run)
  {
    run.inode.Some? && run.temp in w.names && w.names[run.temp] == run.inode.value
  }

  /** Run `q` has linked its file and given up the temporary name it shared with run `id`. */
  ghost predicate Released(w: World, id: RunId, q: RunId)
  {
    && id in w.runs && q in w.runs && q != id
    && w.runs[q].linked && !w.runs[q].held && w.runs[q].temp == w.runs[id].temp
  }

  /** Another run drew the same token: its cleanup may remove the temporary name of run `id`. */
  ghost predicate Disturbed(w: World, id: RunId)
  {
    exists q :: Released(w, id, q)
  }

  /**
    Why a run may fail with this code: it is that of the exception before the temporary file or of the
    payload loop; or `invalid_input`, and the output path exists; or `backend_failure`, and a system call
    failed, 32 temporary names were taken, or another run has removed the name.
   */
  ghost predicate Justified(output: Path, w: World, id: RunId, code: ErrorCode)
    requires id in w.runs
  {
    var run := w.runs[id];
    || run.early == Some(code)
    || (run.early.None? && run.inode.Some? && run.ends == Thrown(code))
    || (code == InvalidInput && output in w.names)
    || (code == BackendFailure && (run.unlucky || run.taken == 32 || Disturbed(w, id)))
  }

  ghost predicate HasError(stage: Stage)
  {
    stage.Failing? || stage.Discarded? || stage.Failed?
  }

  /** What holds of one run in a world. */
  ghost predicate RunFits(output: Path, w: World, id: RunId)
    requires id in w.runs
  {
    var run := w.runs[id];
    && (HasError(run.stage) ==> Justified(output, w, id, run.stage.error))
    && run.taken <= 32 && (run.taken == 32 ==> run.stage == Failed(BackendFailure))
    && match run.inode
    case None =>
      && !run.held && !run.linked && !run.leaked && !run.unlinkFailed
      && (run.stage.Starting? || run.stage.Creating? || run.stage.Failed?)
    case Some(inode) =>
      && run.early.None? && inode in w.files && StageFits(run, w.files[inode])
      && (exists token :: run.temp == TempPath(output, token))
      && (run.held ==> HasName(w, run) || Disturbed(w, id))
      && (run.linked ==> output in w.names && w.names[output] == inode)
      && (forall p :: p in w.names && w.names[p] == inode ==>
            (run.held && p == run.temp) || (run.linked && p == output))
  }

  /** Two runs never have the same file. */
  ghost predicate Apart(a: Run, b: Run)
  {
    a.inode.Some? && b.inode.Some? ==> a.inode != b.inode
  }

  ghost predicate Inv(output: Path, w: World)
  {
    && (forall p :: p in w.names ==> w.names[p] in w.files)
    && (forall r :: r in w.runs ==> RunFits(output, w, r))
    && (forall r, q :: r in w.runs && q in w.runs && r != q ==> Apart(w.runs[r], w.runs[q]))
  }

  /** A world before any run: files may exist, also at the output path. */
  ghost predicate Initial(w: World)
  {
    w.runs == map[] && forall p :: p in w.names ==> w.names[p] in w.files
  }

  /** A run that has given up a shared name never gets it back. */
  lemma DisturbedFrom(w: World, v: World, id: RunId, q: RunId)
    requires Released(w, id, q) && id in v.runs && q in v.runs && v.runs[id].temp == w.runs[id].temp
    requires v.runs[q].linked && !v.runs[q].held && v.runs[q].temp == w.runs[q].temp
    ensures Disturbed(v, id)
  {
    assert Released(v, id, q);
  }

  /** A step that leaves run `r` alone keeps what holds of it. */
  lemma OtherRunKept(output: Path, w: World, v: World, r: RunId)
    requires r in w.runs && r in v.runs && v.runs[r] == w.runs[r] && RunFits(output, w, r)
    requires w.runs[r].inode.Some? ==>
      var inode := w.runs[r].inode.value;
      && inode in v.files && v.files[inode] == w.files[inode]
      && (forall p :: p in v.names && v.names[p] == inode ==> p in w.names && w.names[p] == inode)
      && (forall p :: p in w.names && w.names[p] == inode && p != w.runs[r].temp ==>
            p in v.names && v.names[p] == inode)
      && (w.runs[r].held && HasName(w, w.runs[r]) ==> HasName(v, v.runs[r]) || Disturbed(v, r))
    requires Disturbed(w, r) ==> Disturbed(v, r)
    requires output in w.names ==> output in v.names
    ensures RunFits(output, v, r)
  {
    hide Disturbed, HasName, StageFits;
    if w.runs[r].inode.Some? {
      TempIsNotOutput(output, w, r);
    }
  }

  /** The temporary name of a run is not the output path. */
  lemma TempIsNotOutput(output: Path, w: World, id: RunId)
    requires id in w.runs && RunFits(output, w, id) && w.runs[id].inode.Some?
    ensures w.runs[id].temp != output
  {
    var token :| w.runs[id].temp == TempPath(output, token);
    TempPathsDistinct(output, token, token);
  }

  /** A step of run `id` keeps the invariant when it keeps the others and `id` fits again. */
  lemma InvAfter(output: Path, w: World, v: World, id: RunId)
    requires Inv(output, w) && id in v.runs && v.runs == w.runs[id := v.runs[id]]
    requires forall p :: p in v.names ==> v.names[p] in v.files
    requires RunFits(output, v, id)
    requires forall q :: q in w.runs && q != id ==> RunFits(output, v, q) && Apart(v.runs[id], w.runs[q])
    ensures Inv(output, v)
  {
    forall r, q | r in v.runs && q in v.runs && r != q
      ensures Apart(v.runs[r], v.runs[q])
    {
      if r != id && q != id {
        assert Apart(w.runs[r], w.runs[q]);
      }
    }
  }

  /** What run `id` has released stays released when it keeps file, name and link. */
  lemma DisturbedKept(w: World, v: World, id: RunId, r: RunId)
    requires id in v.runs && v.runs == w.runs[id := v.runs[id]] && r in w.runs && r != id
    requires id in w.runs && w.runs[id].linked && !w.runs[id].held ==>
      v.runs[id].linked && !v.runs[id].held && v.runs[id].temp == w.runs[id].temp
    ensures Disturbed(w, r) ==> Disturbed(v, r)
  {
    if Disturbed(w, r) {
      var q :| Released(w, r, q);
      DisturbedFrom(w, v, r, q);
    }
  }

  // ---------- Every step keeps the invariant ----------

  lemma CreateFileKeeps(output: Path, w: World, path: Path, inode: Inode, content: bytes)
    requires Inv(output, w) && Enabled(w, CreateFile(path, inode, content))
    ensures Inv(output, Apply(output, w, CreateFile(path, inode, content)))
  {
    hide StageFits;
    var v := Apply(output, w, CreateFile(path, inode, content));
    forall r | r in v.runs
      ensures RunFits(output, v, r)
    {
      assert RunFits(output, w, r);
      if Disturbed(w, r) {
        var q :| Released(w, r, q);
        DisturbedFrom(w, v, r, q);
      }
      OtherRunKept(output, w, v, r);
    }
    forall r, q | r in v.runs && q in v.runs && r != q
      ensures Apart(v.runs[r], v.runs[q])
    {
      assert Apart(w.runs[r], w.runs[q]);
    }
  }

  /** A step that changes at most the stage of the run and the content behind its inode. */
  lemma RunStepKeeps(output: Path, w: World, v: World, id: RunId)
    requires Inv(output, w) && id in v.runs && v.runs == w.runs[id := v.runs[id]]
    requires v.names == w.names && w.files.Keys == v.files.Keys
    requires id in w.runs ==>
      && v.runs[id].inode == w.runs[id].inode && v.runs[id].temp == w.runs[id].temp
      && v.runs[id].linked == w.runs[id].linked && v.runs[id].held == w.runs[id].held
    requires id !in w.runs ==> v.runs[id].inode.None? && v.files == w.files
    requires forall i :: i in w.files && (id in w.runs ==> w.runs[id].inode != Some(i)) ==> v.files[i] == w.files[i]
    requires RunFits(output, v, id)
    ensures Inv(output, v)
  {
    hide StageFits, Disturbed;
    forall q | q in w.runs && q != id
      ensures RunFits(output, v, q) && Apart(v.runs[id], w.runs[q])
    {
      if id in w.runs {
        assert Apart(w.runs[id], w.runs[q]);
      }
      assert RunFits(output, w, q);
      DisturbedKept(w, v, id, q);
      OtherRunKept(output, w, v, q);
    }
    InvAfter(output, w, v, id);
  }

  /** Run `id` stays disturbed while it keeps its name. */
  lemma SelfDisturbedKept(w: World, v: World, id: RunId)
    requires id in w.runs && id in v.runs && v.runs == w.runs[id := v.runs[id]]
    requires v.runs[id].temp == w.runs[id].temp
    ensures Disturbed(w, id) ==> Disturbed(v, id)
  {
    if Disturbed(w, id) {
      var q :| Released(w, id, q);
      DisturbedFrom(w, v, id, q);
    }
  }

  /** The world in which run `id` has become `next`, and its file `f` if that changes too. */
  function Became(w: World, id: RunId, next: Run, f: Option<File>): World
  {
    var files := if f.Some? && next.inode.Some? then w.files[next.inode.value := f.value] else w.files;
    World(w.names, files, w.runs[id := next])
  }

  /** A step that changes at most the stage of a run, the count of taken names, its luck, and its own file. */
  lemma OwnStepKeeps(output: Path, w: World, id: RunId, next: Run, f: Option<File>)
    requires Inv(output, w) && id in w.runs
    requires next == w.runs[id].(stage := next.stage, taken := next.taken, unlucky := next.unlucky)
    requires next.taken <= 32 && (next.taken == 32 ==> next.stage == Failed(BackendFailure))
    requires next.inode.None? ==> f.None? && (next.stage.Starting? || next.stage.Creating? || next.stage.Failed?)
    requires next.inode.Some? ==> next.inode.value in w.files
    requires next.inode.Some? ==> StageFits(next, if f.Some? then f.value else w.files[next.inode.value])
    requires HasError(next.stage) ==> Justified(output, Became(w, id, next, f), id, next.stage.error)
    ensures Inv(output, Became(w, id, next, f))
  {
    hide StageFits, Disturbed, Justified;
    var v := Became(w, id, next, f);
    RunFitsIn(output, w, id);
    SelfDisturbedKept(w, v, id);
    assert RunFits(output, v, id);
    hide Became;
    RunStepKeeps(output, w, v, id);
  }

  lemma RunFitsIn(output: Path, w: World, id: RunId)
    requires Inv(output, w) && id in w.runs
    ensures RunFits(output, w, id)
  {
    hide RunFits;
  }

  /** A new file under a free name is nobody else's. */
  lemma CreatedKeeps(output: Path, w: World, v: World, id: RunId, token: Token, inode: Inode)
    requires Inv(output, w) && id in w.runs && w.runs[id].inode.None? && inode !in w.files
    requires TempPath(output, token) !in w.names && v.names == w.names[TempPath(output, token) := inode]
    requires inode in v.files && v.files == w.files[inode := v.files[inode]]
    requires id in v.runs && v.runs == w.runs[id := v.runs[id]]
    requires var run := v.runs[id];
             && run.early.None? && run.taken < 32
             && (HasError(run.stage) ==> run.unlucky && run.stage.error == BackendFailure)
             && run.inode == Some(inode) && run.temp == TempPath(output, token) && run.held && !run.linked
             && StageFits(run, v.files[inode])
    ensures Inv(output, v)
  {
    hide Disturbed, StageFits;
    assert RunFits(output, w, id);
    assert v.runs[id].temp == TempPath(output, token);
    assert RunFits(output, v, id);
    forall q | q in w.runs && q != id
      ensures RunFits(output, v, q) && Apart(v.runs[id], w.runs[q])
    {
      assert RunFits(output, w, q);
      DisturbedKept(w, v, id, q);
      OtherRunKept(output, w, v, q);
    }
    InvAfter(output, w, v, id);
  }

  lemma CreateTempKeeps(output: Path, w: World, id: RunId, token: Token, inode: Inode, how: OpenResult)
    requires Inv(output, w) && Enabled(w, CreateTemp(id, token, inode, how))
    ensures Inv(output, Apply(output, w, CreateTemp(id, token, inode, how)))
  {
    hide Disturbed, Inv, TempPath;
    var v := ApplyCreate(output, w, id, token, inode, how);
    assert v == Apply(output, w, CreateTemp(id, token, inode, how));
    hide Apply;
    RunFitsIn(output, w, id);
    if how == OpenFails || TempPath(output, token) in w.names {
      assert v == Became(w, id, v.runs[id], None);
      OwnStepKeeps(output, w, id, v.runs[id], None);
    } else {
      CreatedKeeps(output, w, v, id, token, inode);
    }
  }

  /** Once a run has linked its file the output path exists, so a run that may still link has its name. */
  lemma NameBeforeLink(output: Path, w: World, id: RunId)
    requires Inv(output, w) && id in w.runs && w.runs[id].inode.Some? && w.runs[id].held
    requires output !in w.names || w.runs[id].linked
    ensures HasName(w, w.runs[id])
  {
    hide StageFits;
    assert RunFits(output, w, id);
    forall q
      ensures !Released(w, id, q)
    {
      if q in w.runs && q != id {
        assert RunFits(output, w, q) && Apart(w.runs[id], w.runs[q]);
      }
    }
  }

  lemma LinkedKeeps(output: Path, w: World, v: World, id: RunId)
    requires Inv(output, w) && AtStage(w, id, Closed) && output !in w.names && w.runs[id].temp in w.names
    requires v == SetRun(w.(names := w.names[output := w.names[w.runs[id].temp]]), id,
                         w.runs[id].(stage := Linked, linked := true))
    ensures Inv(output, v)
  {
    hide Disturbed;
    assert RunFits(output, w, id);
    SelfDisturbedKept(w, v, id);
    NameBeforeLink(output, w, id);
    TempIsNotOutput(output, w, id);
    forall q | q in w.runs && q != id
      ensures RunFits(output, v, q) && Apart(v.runs[id], w.runs[q])
    {
      assert Apart(w.runs[id], w.runs[q]) && RunFits(output, w, q);
      DisturbedKept(w, v, id, q);
      OtherRunKept(output, w, v, q);
    }
    InvAfter(output, w, v, id);
  }

  lemma LinkKeeps(output: Path, w: World, id: RunId, ok: bool)
    requires Inv(output, w) && Enabled(w, Link(id, ok))
    ensures Inv(output, Apply(output, w, Link(id, ok)))
  {
    hide Disturbed, Inv;
    var v := ApplyLink(output, w, id, ok);
    assert v == Apply(output, w, Link(id, ok));
    hide Apply;
    RunFitsIn(output, w, id);
    if !ok || w.runs[id].temp !in w.names || output in w.names {
      assert v == Became(w, id, v.runs[id], None);
      SelfDisturbedKept(w, v, id);
      OwnStepKeeps(output, w, id, v.runs[id], None);
    } else {
      hide RunFits;
      LinkedKeeps(output, w, v, id);
    }
  }

  /** When run `id` removes the name it shares with run `q`, that run is disturbed, or was already. */
  lemma RemoveDisturbs(output: Path, w: World, v: World, id: RunId, q: RunId)
    requires Inv(output, w) && id in w.runs && q in w.runs && q != id
    requires w.runs[id].inode.Some? && (w.runs[id].held || w.runs[id].linked)
    requires w.runs[q].inode.Some? && HasName(w, w.runs[q]) && w.runs[q].temp == w.runs[id].temp
    requires id in v.runs && v.runs == w.runs[id := v.runs[id]]
    requires v.runs[id].temp == w.runs[id].temp && v.runs[id].linked == w.runs[id].linked && !v.runs[id].held
    ensures Disturbed(v, q)
  {
    assert RunFits(output, w, id) && Apart(w.runs[id], w.runs[q]);
    if w.runs[id].linked {
      assert Released(v, q, id);
    } else {
      var r :| Released(w, id, r);
      assert RunFits(output, w, q);
      TempIsNotOutput(output, w, q);
      assert Released(v, q, r);
    }
  }

  lemma RemoveFits(output: Path, w: World, id: RunId, ok: bool, stage: Stage)
    requires id in w.runs && RunFits(output, w, id) && w.runs[id].inode.Some? && w.runs[id].temp != output
    requires var v := SetStage(Remove(w, id, ok), id, stage);
             && StageFits(v.runs[id], w.files[w.runs[id].inode.value])
             && (HasError(stage) ==> w.runs[id].stage == Discarded(stage.error))
    requires !w.runs[id].stage.Failed?
    ensures RunFits(output, SetStage(Remove(w, id, ok), id, stage), id)
  {
    hide Disturbed, StageFits;
    SelfDisturbedKept(w, SetStage(Remove(w, id, ok), id, stage), id);
  }

  /** Removing the temporary name, which may be that of another run by now. */
  lemma RemoveKeeps(output: Path, w: World, id: RunId, ok: bool, stage: Stage)
    requires Inv(output, w) && id in w.runs && w.runs[id].inode.Some? && (w.runs[id].held || w.runs[id].linked)
    requires var v := SetStage(Remove(w, id, ok), id, stage);
             && StageFits(v.runs[id], w.files[w.runs[id].inode.value])
             && (HasError(stage) ==> w.runs[id].stage == Discarded(stage.error))
    requires !w.runs[id].stage.Failed?
    ensures Inv(output, SetStage(Remove(w, id, ok), id, stage))
  {
    hide Disturbed, StageFits;
    var v := SetStage(Remove(w, id, ok), id, stage);
    RunFitsIn(output, w, id);
    TempIsNotOutput(output, w, id);
    RemoveFits(output, w, id, ok, stage);
    forall q | q in w.runs && q != id
      ensures RunFits(output, v, q) && Apart(v.runs[id], w.runs[q])
    {
      assert Apart(w.runs[id], w.runs[q]) && RunFits(output, w, q);
      DisturbedKept(w, v, id, q);
      if ok && w.runs[q].inode.Some? && HasName(w, w.runs[q]) && w.runs[q].temp == w.runs[id].temp {
        RemoveDisturbs(output, w, v, id, q);
      }
      OtherRunKept(output, w, v, q);
    }
    InvAfter(output, w, v, id);
  }

  lemma BeginKeeps(output: Path, w: World, a: Action)
    requires Inv(output, w) && Enabled(w, a) && a.Begin?
    ensures Inv(output, Apply(output, w, a))
  {
    hide StageFits, Disturbed;
    RunStepKeeps(output, w, Apply(output, w, a), a.id);
  }

  /** Up to the temporary file. */
  lemma EarlyStepKeeps(output: Path, w: World, a: Action)
    requires Inv(output, w) && Enabled(w, a) && (a.CheckAbsent? || a.FailEarly? || a.RandomFails?)
    ensures Inv(output, Apply(output, w, a))
  {
    hide Inv, Disturbed, HasName;
    RunFitsIn(output, w, a.id);
    var v := Apply(output, w, a);
    var next := v.runs[a.id];
    assert v == Became(w, a.id, next, None);
    hide Apply;
    OwnStepKeeps(output, w, a.id, next, None);
  }

  /** While the file is written, and behind the link. */
  lemma StageStepKeeps(output: Path, w: World, a: Action)
    requires Inv(output, w) && Enabled(w, a) && (a.IoFails? || a.PayloadThrows? || a.SyncDirectory?)
    ensures Inv(output, Apply(output, w, a))
  {
    hide Inv, Disturbed, HasName;
    RunFitsIn(output, w, a.id);
    var v := Apply(output, w, a);
    var next := v.runs[a.id];
    assert v == Became(w, a.id, next, None);
    hide Apply;
    OwnStepKeeps(output, w, a.id, next, None);
  }

  lemma WriteKeeps(output: Path, w: World, a: Action)
    requires Inv(output, w) && Enabled(w, a) && (a.Write? || a.Discard?)
    ensures Inv(output, Apply(output, w, a))
  {
    hide Inv, Disturbed, HasName;
    RunFitsIn(output, w, a.id);
    var v := Apply(output, w, a);
    var next := v.runs[a.id];
    var f := Some(v.files[next.inode.value]);
    assert v == Became(w, a.id, next, f);
    SelfDisturbedKept(w, v, a.id);
    hide Apply;
    OwnStepKeeps(output, w, a.id, next, f);
  }

  lemma FlushKeeps(output: Path, w: World, a: Action)
    requires Inv(output, w) && Enabled(w, a) && (a.Flush? || a.Close?)
    ensures Inv(output, Apply(output, w, a))
  {
    hide Inv, Disturbed, HasName;
    RunFitsIn(output, w, a.id);
    var v := Apply(output, w, a);
    var next := v.runs[a.id];
    var f := Some(v.files[next.inode.value]);
    assert v == Became(w, a.id, next, f);
    hide Apply;
    OwnStepKeeps(output, w, a.id, next, f);
  }

  lemma UnlinkKeeps(output: Path, w: World, a: Action)
    requires Inv(output, w) && Enabled(w, a) && (a.UnlinkTemp? || a.RemoveTemp?)
    ensures Inv(output, Apply(output, w, a))
  {
    hide Inv, Disturbed, HasName;
    assert RunFits(output, w, a.id) by { RunFitsIn(output, w, a.id); }
    var stage := if a.UnlinkTemp? then Unlinked else Failed(w.runs[a.id].stage.error);
    RemoveKeeps(output, w, a.id, a.ok, stage);
  }

  lemma StepKeepsInv(output: Path, w: World, a: Action)
    requires Inv(output, w) && Enabled(w, a)
    ensures Inv(output, Apply(output, w, a))
  {
    hide Inv, Apply, Enabled;
    match a
    case CreateFile(path, inode, content) => CreateFileKeeps(output, w, path, inode, content);
    case CreateTemp(id, token, inode, how) => CreateTempKeeps(output, w, id, token, inode, how);
    case Link(id, ok) => LinkKeeps(output, w, id, ok);
    case UnlinkTemp(_, _) | RemoveTemp(_, _) => UnlinkKeeps(output, w, a);
    case Write(_, _) | Discard(_) => WriteKeeps(output, w, a);
    case Flush(_, _) | Close(_, _) => FlushKeeps(output, w, a);
    case CheckAbsent(_, _) | FailEarly(_) | RandomFails(_) => EarlyStepKeeps(output, w, a);
    case Begin(_, _, _, _) => BeginKeeps(output, w, a);
    case _ => StageStepKeeps(output, w, a);
  }
}
