/** Placing a file: the protocol of internal/atomicfile/atomicfile.go, as the
steps of any number of writers and readers of one path. Every step of a writer
can fail, and a writer can be killed between any two steps. Files are inodes, so
a reader that has opened the path keeps what it opened. */
module AtomicFile {
  import opened GoText

  /** Where a call of Write is. */
  datatype Pc =
    | Start
    | Made      // the temporary file exists
    | Filling   // its mode is set; fill is writing to it
    | Filled    // fill has returned nil
    | Synced
    | Closed
    | Renamed   // the rename happened; Write has not returned yet
    | Failing   // an error is set; the deferred cleanup runs
    | Removing
    | Done                     // Write returned nil
    | Refused                  // Write returned an error; there was no temporary file
    | Failed(removed: bool)    // Write returned an error after its cleanup
    | Killed

  datatype Writer = Writer(pc: Pc, tmp: nat, ino: nat)

  /** A reader: the inode it has opened, and what it has read of it. */
  datatype Reader = Reader(file: Option<nat>, got: string)

  datatype Placement = Placement(writer: nat, content: string)

  /** The directory and the processes. placed is the history of the renames. */
  datatype State = State(
    initial: Option<string>,
    dst: Option<nat>,
    temps: map<nat, nat>,
    inodes: map<nat, string>,
    writers: seq<Writer>,
    readers: seq<Reader>,
    placed: seq<Placement>)

  datatype Action =
    | Create(w: nat, name: nat, ino: nat) | CreateFails(w: nat)
    | Chmod(w: nat)
    | Append(w: nat, chunk: string)
    | Accept(w: nat)
    | Sync(w: nat)
    | Close(w: nat)
    | Rename(w: nat)
    | StepFails(w: nat)
    | CleanupClose(w: nat)
    | Remove(w: nat) | RemoveFails(w: nat)
    | Return(w: nat)
    | Kill(w: nat)
    | Open(r: nat)
    | Read(r: nat, n: nat)

  /** The temporary file of the writer is in the directory. */
  predicate Holds(pc: Pc) {
    pc in {Made, Filling, Filled, Synced, Closed, Failing, Removing}
  }

  /** fill has accepted the content. */
  predicate IsAccepted(pc: Pc) {
    pc in {Filled, Synced, Closed}
  }

  /** Write has returned. */
  predicate Returned(pc: Pc) {
    pc == Done || pc == Refused || pc.Failed?
  }

  function At(s: State, w: nat, pc: Pc): State
    requires w < |s.writers|
  {
    s.(writers := s.writers[w := s.writers[w].(pc := pc)])
  }

  /** The state after a step of a writer, or None when the step is not possible.
  accepts is the verdict of the fill function of each writer. */
  function WriterStep(accepts: (nat, string) -> bool, s: State, a: Action, w: nat): Option<State>
    requires w < |s.writers|
  {
    var me := s.writers[w];
    match a
    case Create(_, name, ino) =>
      // os.CreateTemp picks a name that is not in the directory
      if me.pc == Start && name !in s.temps && ino !in s.inodes then
        Some(s.(temps := s.temps[name := ino], inodes := s.inodes[ino := ""],
                writers := s.writers[w := Writer(Made, name, ino)]))
      else None
    case CreateFails(_) => if me.pc == Start then Some(At(s, w, Refused)) else None
    case Chmod(_) => if me.pc == Made then Some(At(s, w, Filling)) else None
    case Append(_, chunk) =>
      if me.pc == Filling && me.ino in s.inodes then
        Some(s.(inodes := s.inodes[me.ino := s.inodes[me.ino] + chunk]))
      else None
    case Accept(_) =>
      if me.pc == Filling && me.ino in s.inodes && accepts(w, s.inodes[me.ino]) then Some(At(s, w, Filled)) else None
    case Sync(_) => if me.pc == Filled then Some(At(s, w, Synced)) else None
    case Close(_) => if me.pc == Synced then Some(At(s, w, Closed)) else None
    case Rename(_) =>
      if me.pc == Closed && me.tmp in s.temps && s.temps[me.tmp] in s.inodes then
        var ino := s.temps[me.tmp];
        Some(At(s, w, Renamed).(dst := Some(ino), temps := s.temps - {me.tmp},
                                placed := s.placed + [Placement(w, s.inodes[ino])]))
      else None
    case StepFails(_) =>
      // chmod, fill, sync, close or rename returns an error
      if me.pc in {Made, Filling, Filled, Synced, Closed} then Some(At(s, w, Failing)) else None
    case CleanupClose(_) => if me.pc == Failing then Some(At(s, w, Removing)) else None
    case Remove(_) =>
      if me.pc == Removing then Some(At(s, w, Failed(true)).(temps := s.temps - {me.tmp})) else None
    case RemoveFails(_) => if me.pc == Removing then Some(At(s, w, Failed(false))) else None
    case Return(_) => if me.pc == Renamed then Some(At(s, w, Done)) else None
    case Kill(_) => if !Returned(me.pc) then Some(At(s, w, Killed)) else None
    case _ => None
  }

  /** The state after a step of a reader. */
  function ReaderStep(s: State, a: Action, r: nat): Option<State>
    requires r < |s.readers|
  {
    var me := s.readers[r];
    match a
    case Open(_) =>
      if s.dst.Some? then Some(s.(readers := s.readers[r := Reader(s.dst, "")])) else None
    case Read(_, n) =>
      if me.file.Some? && me.file.value in s.inodes && |me.got| + n <= |s.inodes[me.file.value]| then
        Some(s.(readers := s.readers[r := me.(got := s.inodes[me.file.value][..|me.got| + n])]))
      else None
    case _ => None
  }

  function Next(accepts: (nat, string) -> bool, s: State, a: Action): Option<State> {
    match a
    case Open(r) => if r < |s.readers| then ReaderStep(s, a, r) else None
    case Read(r, _) => if r < |s.readers| then ReaderStep(s, a, r) else None
    case _ => if a.w < |s.writers| then WriterStep(accepts, s, a, a.w) else None
  }

  /** n calls of Write and m readers of a path that may have a file. */
  function Init(initial: Option<string>, n: nat, m: nat): State {
    State(initial,
          if initial.Some? then Some(0) else None,
          map[],
          if initial.Some? then map[0 := initial.value] else map[],
          seq(n, _ => Writer(Start, 0, 0)),
          seq(m, _ => Reader(None, "")),
          [])
  }

  /** The state after a run, or None when a step of it is not possible. */
  function Run(accepts: (nat, string) -> bool, s: State, actions: seq<Action>): Option<State>
    decreases |actions|
  {
    if actions == [] then Some(s)
    else
      var next := Next(accepts, s, actions[0]);
      if next.None? then None else Run(accepts, next.value, actions[1..])
  }

  // ----- the invariant -----

  /** A whole file: the initial one, or one that a writer placed. */
  ghost predicate Whole(s: State, content: string) {
    s.initial == Some(content) || exists k :: 0 <= k < |s.placed| && s.placed[k].content == content
  }

  ghost predicate Placed(s: State, w: nat) {
    exists k :: 0 <= k < |s.placed| && s.placed[k].writer == w
  }

  /** No temporary name leads to the inode. */
  ghost predicate NotTemp(s: State, ino: nat) {
    forall n :: n in s.temps ==> s.temps[n] != ino
  }

  ghost predicate TempsOk(s: State) {
    && (forall n :: n in s.temps ==> s.temps[n] in s.inodes)
    && (forall m, n :: m in s.temps && n in s.temps && m != n ==> s.temps[m] != s.temps[n])
  }

  /** dst is the last file placed, or as it was at the start. */
  ghost predicate DstOk(s: State) {
    && (s.dst.Some? ==> s.dst.value in s.inodes && NotTemp(s, s.dst.value))
    && DstContent(s) == if s.placed == [] then s.initial else Some(s.placed[|s.placed| - 1].content)
  }

  /** What another program reads at the path. */
  function DstContent(s: State): Option<string> {
    if s.dst.Some? && s.dst.value in s.inodes then Some(s.inodes[s.dst.value]) else None
  }

  ghost predicate WriterOk(accepts: (nat, string) -> bool, s: State, w: nat)
    requires w < |s.writers|
  {
    var me := s.writers[w];
    && (Holds(me.pc) ==> me.tmp in s.temps && s.temps[me.tmp] == me.ino)
    && (IsAccepted(me.pc) ==> me.ino in s.inodes && accepts(w, s.inodes[me.ino]))
    && (me.pc in {Renamed, Done, Failed(true)} ==> me.ino in s.inodes && NotTemp(s, me.ino))
    && (me.pc in {Renamed, Done} ==> Placed(s, w))
    && (Placed(s, w) ==> me.pc in {Renamed, Done, Killed})
  }

  ghost predicate WritersOk(accepts: (nat, string) -> bool, s: State) {
    && (forall w :: 0 <= w < |s.writers| ==> WriterOk(accepts, s, w))
    && (forall v, w | 0 <= v < w < |s.writers| ::
          Holds(s.writers[v].pc) && Holds(s.writers[w].pc) ==> s.writers[v].tmp != s.writers[w].tmp)
  }

  /** Every placement is one accepted content of one writer, which places once. */
  ghost predicate PlacedOk(accepts: (nat, string) -> bool, s: State) {
    && (forall k :: 0 <= k < |s.placed| ==>
          s.placed[k].writer < |s.writers| && accepts(s.placed[k].writer, s.placed[k].content))
    && (forall j, k :: 0 <= j < k < |s.placed| ==> s.placed[j].writer != s.placed[k].writer)
  }

  /** What a reader has read is the start of one whole file. */
  ghost predicate ReaderOk(s: State, r: nat)
    requires r < |s.readers|
  {
    var me := s.readers[r];
    me.file.Some? ==>
      && me.file.value in s.inodes && NotTemp(s, me.file.value)
      && Whole(s, s.inodes[me.file.value]) && me.got <= s.inodes[me.file.value]
  }

  ghost predicate ReadersOk(s: State) {
    forall r :: 0 <= r < |s.readers| ==> ReaderOk(s, r)
  }

  ghost predicate Inv(accepts: (nat, string) -> bool, s: State) {
    TempsOk(s) && DstOk(s) && WritersOk(accepts, s) && PlacedOk(accepts, s) && ReadersOk(s)
  }

  // ----- every step keeps the invariant -----

  /** A writer that only moves on touches no file. */
  lemma KeepsMove(accepts: (nat, string) -> bool, s: State, w: nat, pc: Pc)
    requires Inv(accepts, s) && w < |s.writers|
    requires var me := s.writers[w];
      && (Holds(pc) ==> Holds(me.pc))
      && (IsAccepted(pc) ==> me.ino in s.inodes && accepts(w, s.inodes[me.ino]))
      && (pc == Done ==> me.pc == Renamed) && pc != Renamed && pc != Failed(true)
      && (me.pc in {Renamed, Done, Killed} ==> pc in {Done, Killed})
    ensures Inv(accepts, At(s, w, pc))
  {
    var t := At(s, w, pc);
    assert forall v :: Placed(t, v) <==> Placed(s, v);
    forall v | 0 <= v < |t.writers| ensures WriterOk(accepts, t, v) {
      assert WriterOk(accepts, s, v);
    }
    forall r | 0 <= r < |t.readers| ensures ReaderOk(t, r) {
      assert ReaderOk(s, r);
    }
  }

  lemma KeepsCreate(accepts: (nat, string) -> bool, s: State, w: nat, name: nat, ino: nat)
    requires Inv(accepts, s) && w < |s.writers| && s.writers[w].pc == Start && name !in s.temps && ino !in s.inodes
    ensures Inv(accepts, s.(temps := s.temps[name := ino], inodes := s.inodes[ino := ""],
                            writers := s.writers[w := Writer(Made, name, ino)]))
  {
    var t := s.(temps := s.temps[name := ino], inodes := s.inodes[ino := ""],
                writers := s.writers[w := Writer(Made, name, ino)]);
    assert forall v :: Placed(t, v) <==> Placed(s, v);
    forall v | 0 <= v < |t.writers| ensures WriterOk(accepts, t, v) {
      assert WriterOk(accepts, s, v);
    }
    forall u, v | 0 <= u < v < |t.writers| && Holds(t.writers[u].pc) && Holds(t.writers[v].pc)
      ensures t.writers[u].tmp != t.writers[v].tmp
    {
      assert WriterOk(accepts, s, u) && WriterOk(accepts, s, v);
    }
    forall r | 0 <= r < |t.readers| ensures ReaderOk(t, r) {
      assert ReaderOk(s, r);
    }
  }

  lemma KeepsAppend(accepts: (nat, string) -> bool, s: State, w: nat, chunk: string)
    requires Inv(accepts, s) && w < |s.writers| && s.writers[w].pc == Filling && s.writers[w].ino in s.inodes
    ensures Inv(accepts, s.(inodes := s.inodes[s.writers[w].ino := s.inodes[s.writers[w].ino] + chunk]))
  {
    var me := s.writers[w];
    var t := s.(inodes := s.inodes[me.ino := s.inodes[me.ino] + chunk]);
    assert WriterOk(accepts, s, w);
    assert forall v :: Placed(t, v) <==> Placed(s, v);
    forall v | 0 <= v < |t.writers| ensures WriterOk(accepts, t, v) {
      assert WriterOk(accepts, s, v);
    }
    forall r | 0 <= r < |t.readers| ensures ReaderOk(t, r) {
      assert ReaderOk(s, r);
    }
  }

  lemma KeepsRename(accepts: (nat, string) -> bool, s: State, w: nat)
    requires Inv(accepts, s) && w < |s.writers| && s.writers[w].pc == Closed
    requires s.writers[w].tmp in s.temps && s.temps[s.writers[w].tmp] in s.inodes
    ensures WriterStep(accepts, s, Rename(w), w).Some? && Inv(accepts, WriterStep(accepts, s, Rename(w), w).value)
  {
    var me := s.writers[w];
    var t := WriterStep(accepts, s, Rename(w), w).value;
    assert WriterOk(accepts, s, w);
    assert t.placed[|s.placed|].writer == w;
    assert Placed(t, w);
    forall v | v != w ensures Placed(t, v) <==> Placed(s, v) {
      assert forall k :: 0 <= k < |s.placed| ==> t.placed[k] == s.placed[k];
    }
    forall v | 0 <= v < |t.writers| ensures WriterOk(accepts, t, v) {
      assert WriterOk(accepts, s, v);
    }
    forall r | 0 <= r < |t.readers| ensures ReaderOk(t, r) {
      assert ReaderOk(s, r);
      assert forall k :: 0 <= k < |s.placed| ==> t.placed[k] == s.placed[k];
    }
    forall k | 0 <= k < |s.placed| ensures s.placed[k].writer != w {
      assert !Placed(s, w);
    }
  }

  lemma KeepsRemove(accepts: (nat, string) -> bool, s: State, w: nat)
    requires Inv(accepts, s) && w < |s.writers| && s.writers[w].pc == Removing
    ensures Inv(accepts, At(s, w, Failed(true)).(temps := s.temps - {s.writers[w].tmp}))
  {
    var t := At(s, w, Failed(true)).(temps := s.temps - {s.writers[w].tmp});
    assert WriterOk(accepts, s, w);
    assert forall v :: Placed(t, v) <==> Placed(s, v);
    forall v | 0 <= v < |t.writers| ensures WriterOk(accepts, t, v) {
      assert WriterOk(accepts, s, v);
    }
    forall r | 0 <= r < |t.readers| ensures ReaderOk(t, r) {
      assert ReaderOk(s, r);
    }
  }

  lemma DstIsWhole(s: State)
    requires DstOk(s) && s.dst.Some?
    ensures Whole(s, s.inodes[s.dst.value])
  {
    if s.placed != [] {
      assert s.placed[|s.placed| - 1].content == s.inodes[s.dst.value];
    }
  }

  lemma KeepsReader(accepts: (nat, string) -> bool, s: State, a: Action, r: nat)
    requires Inv(accepts, s) && r < |s.readers| && ReaderStep(s, a, r).Some?
    ensures Inv(accepts, ReaderStep(s, a, r).value)
  {
    var t := ReaderStep(s, a, r).value;
    if a.Open? {
      DstIsWhole(s);
    }
    assert ReaderOk(s, r);
    assert forall v :: Placed(t, v) <==> Placed(s, v);
    forall v | 0 <= v < |t.writers| ensures WriterOk(accepts, t, v) {
      assert WriterOk(accepts, s, v);
    }
    forall q | 0 <= q < |t.readers| ensures ReaderOk(t, q) {
      assert ReaderOk(s, q);
    }
  }

  lemma KeepsWriter(accepts: (nat, string) -> bool, s: State, a: Action, w: nat)
    requires Inv(accepts, s) && w < |s.writers| && WriterStep(accepts, s, a, w).Some?
    ensures Inv(accepts, WriterStep(accepts, s, a, w).value)
  {
    hide Inv;
    var pc := s.writers[w].pc;
    InvWriter(accepts, s, w);
    match a {
      case Create(_, name, ino) => KeepsCreate(accepts, s, w, name, ino);
      case Append(_, chunk) => KeepsAppend(accepts, s, w, chunk);
      case Rename(_) => KeepsRename(accepts, s, w);
      case Remove(_) => KeepsRemove(accepts, s, w);
      case CreateFails(_) => KeepsMove(accepts, s, w, Refused);
      case Chmod(_) => KeepsMove(accepts, s, w, Filling);
      case Accept(_) => KeepsMove(accepts, s, w, Filled);
      case Sync(_) => KeepsMove(accepts, s, w, Synced);
      case Close(_) => KeepsMove(accepts, s, w, Closed);
      case StepFails(_) => KeepsMove(accepts, s, w, Failing);
      case CleanupClose(_) => KeepsMove(accepts, s, w, Removing);
      case RemoveFails(_) => KeepsMove(accepts, s, w, Failed(false));
      case Return(_) => KeepsMove(accepts, s, w, Done);
      case Kill(_) => KeepsMove(accepts, s, w, Killed);
    }
  }

  lemma InvWriter(accepts: (nat, string) -> bool, s: State, w: nat)
    requires Inv(accepts, s) && w < |s.writers|
    ensures WriterOk(accepts, s, w)
  {
  }

  lemma InitHolds(accepts: (nat, string) -> bool, initial: Option<string>, n: nat, m: nat)
    ensures Inv(accepts, Init(initial, n, m))
  {
  }

  lemma NextKeepsShape(accepts: (nat, string) -> bool, s: State, a: Action)
    requires Next(accepts, s, a).Some?
    ensures var t := Next(accepts, s, a).value;
      t.initial == s.initial && |t.writers| == |s.writers| && |t.readers| == |s.readers|
  {
  }

  lemma NextKeeps(accepts: (nat, string) -> bool, s: State, a: Action)
    requires Inv(accepts, s) && Next(accepts, s, a).Some?
    ensures Inv(accepts, Next(accepts, s, a).value)
  {
    hide Inv, WriterStep, ReaderStep;
    match a {
      case Open(r) => KeepsReader(accepts, s, a, r);
      case Read(r, _) => KeepsReader(accepts, s, a, r);
      case _ => KeepsWriter(accepts, s, a, a.w);
    }
  }

  lemma {:induction false} RunKeeps(accepts: (nat, string) -> bool, s: State, actions: seq<Action>)
    requires Inv(accepts, s) && Run(accepts, s, actions).Some?
    ensures Inv(accepts, Run(accepts, s, actions).value)
    ensures Run(accepts, s, actions).value.initial == s.initial
    ensures |Run(accepts, s, actions).value.writers| == |s.writers|
    decreases |actions|
  {
    hide Inv, Next;
    if actions != [] {
      NextKeeps(accepts, s, actions[0]);
      NextKeepsShape(accepts, s, actions[0]);
      RunKeeps(accepts, Next(accepts, s, actions[0]).value, actions[1..]);
    }
  }

  // ----- what Write promises -----

  /** Over every run of any number of writers and readers, with every step able to
  fail and every writer able to be killed: the path has its initial content until
  the first placement and then the last placement; every placement is one whole
  content that its writer's fill accepted, and a writer places at most once; nil
  means that the writer placed; an error means that it did not and, when Remove
  worked, that it left no temporary file. */
  lemma WriteIsAtomic(accepts: (nat, string) -> bool, initial: Option<string>, n: nat, m: nat, actions: seq<Action>)
    requires Run(accepts, Init(initial, n, m), actions).Some?
    ensures var s := Run(accepts, Init(initial, n, m), actions).value;
      && |s.writers| == n
      && DstContent(s) == (if s.placed == [] then initial else Some(s.placed[|s.placed| - 1].content))
      && PlacedOk(accepts, s)
      && forall w :: 0 <= w < n ==> ResultOk(s, w)
  {
    InitHolds(accepts, initial, n, m);
    RunKeeps(accepts, Init(initial, n, m), actions);
    hide Run;
    var s := Run(accepts, Init(initial, n, m), actions).value;
    forall w | 0 <= w < n ensures ResultOk(s, w) {
      assert WriterOk(accepts, s, w);
    }
  }

  /** What the result of the call of Write says, when it has returned. */
  ghost predicate ResultOk(s: State, w: nat)
    requires w < |s.writers|
  {
    var me := s.writers[w];
    && (me.pc == Done ==> Placed(s, w))
    && (Returned(me.pc) && me.pc != Done ==> !Placed(s, w))
    && (me.pc == Failed(true) || me.pc == Done ==> NotTemp(s, me.ino))
  }

  /** A reader that has opened the path reads one whole file, however the path
  changes meanwhile: what it has read is a start of it. */
  lemma ReadersSeeWholeFiles(accepts: (nat, string) -> bool, initial: Option<string>, n: nat, m: nat, actions: seq<Action>, r: nat)
    requires Run(accepts, Init(initial, n, m), actions).Some?
    requires var s := Run(accepts, Init(initial, n, m), actions).value;
      r < |s.readers| && s.readers[r].file.Some?
    ensures var s := Run(accepts, Init(initial, n, m), actions).value;
      var me := s.readers[r];
      && me.file.value in s.inodes && me.got <= s.inodes[me.file.value]
      && Whole(s, s.inodes[me.file.value])
  {
    InitHolds(accepts, initial, n, m);
    RunKeeps(accepts, Init(initial, n, m), actions);
    var s := Run(accepts, Init(initial, n, m), actions).value;
    hide Run;
    assert ReaderOk(s, r);
  }

  /** A file that a reader has opened does not change any more. */
  lemma OpenedFilesStay(accepts: (nat, string) -> bool, s: State, a: Action, r: nat)
    requires Inv(accepts, s) && Next(accepts, s, a).Some? && r < |s.readers| && s.readers[r].file.Some?
    ensures var t := Next(accepts, s, a).value; var ino := s.readers[r].file.value;
      ino in s.inodes && ino in t.inodes && t.inodes[ino] == s.inodes[ino]
  {
    assert ReaderOk(s, r);
    if a.Append? {
      assert WriterOk(accepts, s, a.w);
    }
  }

  // ----- one call of Write, undisturbed -----

  class Directory {
    var s: State

    constructor (s: State)
      ensures this.s == s
    {
      this.s := s;
    }
  }

  /** Which steps of a call fail. */
  datatype Faults = Faults(create: bool, chmod: bool, fill: bool, sync: bool, close: bool, rename: bool, remove: bool)

  lemma {:induction false} RunAppend(accepts: (nat, string) -> bool, s: State, actions: seq<Action>, a: Action)
    requires Run(accepts, s, actions).Some?
    ensures Run(accepts, s, actions + [a]) == Next(accepts, Run(accepts, s, actions).value, a)
    decreases |actions|
  {
    hide Next;
    if actions == [] {
      assert ([] + [a])[0] == a && ([] + [a])[1..] == [];
    } else {
      assert (actions + [a])[0] == actions[0] && (actions + [a])[1..] == actions[1..] + [a];
      RunAppend(accepts, Next(accepts, s, actions[0]).value, actions[1..], a);
    }
  }

  /** A call can be killed at any time before it returns, and every step of it can fail. */
  lemma FaultsAreAllowed(accepts: (nat, string) -> bool, s: State, w: nat)
    requires w < |s.writers|
    ensures var pc := s.writers[w].pc;
      && (Next(accepts, s, Kill(w)).Some? <==> pc !in {Done, Refused, Failed(true), Failed(false)})
      && (Next(accepts, s, CreateFails(w)).Some? <==> pc == Start)
      && (Next(accepts, s, StepFails(w)).Some? <==> pc in {Made, Filling, Filled, Synced, Closed})
      && (Next(accepts, s, RemoveFails(w)).Some? <==> pc == Removing)
  {
  }

  // ----- the order of the steps -----

  /** The steps of a call before its rename, in their order. */
  function StepOf(stage: nat, w: nat): Action
    requires 1 <= stage <= 4
  {
    if stage == 1 then Chmod(w) else if stage == 2 then Accept(w) else if stage == 3 then Sync(w) else Close(w)
  }

  /** The first n actions have the first steps of w, up to this stage, in their order. */
  ghost predicate WentThrough(actions: seq<Action>, n: nat, w: nat, stage: nat)
    requires n <= |actions| && stage <= 4
    decreases stage
  {
    stage == 0 || exists i :: 0 <= i < n && actions[i] == StepOf(stage, w) && WentThrough(actions, i, w, stage - 1)
  }

  function StageOf(pc: Pc): (stage: nat)
    ensures stage <= 4
  {
    match pc
    case Filling => 1
    case Filled => 2
    case Synced => 3
    case Closed => 4
    case _ => 0
  }

  lemma {:induction false} WentThroughMore(actions: seq<Action>, n: nat, a: Action, m: nat, w: nat, stage: nat)
    requires n <= |actions| && n <= m <= |actions| + 1 && stage <= 4 && WentThrough(actions, n, w, stage)
    ensures WentThrough(actions + [a], m, w, stage)
    decreases stage
  {
    if stage > 0 {
      var i :| 0 <= i < n && actions[i] == StepOf(stage, w) && WentThrough(actions, i, w, stage - 1);
      WentThroughMore(actions, i, a, i, w, stage - 1);
      assert (actions + [a])[i] == actions[i];
    }
  }

  /** How a step changes the stage of a call. */
  lemma StepStage(accepts: (nat, string) -> bool, s: State, a: Action, w: nat)
    requires w < |s.writers| && Next(accepts, s, a).Some?
    ensures var t := Next(accepts, s, a).value;
      && |t.writers| == |s.writers|
      && var stage, before := StageOf(t.writers[w].pc), StageOf(s.writers[w].pc);
         stage == 0 || stage == before || (stage == before + 1 && a == StepOf(stage, w))
  {
  }

  lemma {:induction false} RunStages(accepts: (nat, string) -> bool, s: State, actions: seq<Action>, w: nat)
    requires w < |s.writers| && s.writers[w].pc == Start && Run(accepts, s, actions).Some?
    ensures var t := Run(accepts, s, actions).value;
      w < |t.writers| && WentThrough(actions, |actions|, w, StageOf(t.writers[w].pc))
    decreases |actions|
  {
    hide Run, Next, StageOf, StepOf;
    if actions == [] {
      RunNothing(accepts, s);
      StartStage();
    } else {
      var prefix, a := actions[..|actions| - 1], actions[|actions| - 1];
      assert actions == prefix + [a];
      RunPrefix(accepts, s, prefix, a);
      RunStages(accepts, s, prefix, w);
      RunAppend(accepts, s, prefix, a);
      var before := Run(accepts, s, prefix).value;
      StepStage(accepts, before, a, w);
      var stage, was := StageOf(Next(accepts, before, a).value.writers[w].pc), StageOf(before.writers[w].pc);
      StagesMore(prefix, a, w, was, stage);
    }
  }

  lemma StagesMore(prefix: seq<Action>, a: Action, w: nat, was: nat, stage: nat)
    requires was <= 4 && stage <= 4 && WentThrough(prefix, |prefix|, w, was)
    requires stage == 0 || stage == was || (stage == was + 1 && a == StepOf(stage, w))
    ensures WentThrough(prefix + [a], |prefix + [a]|, w, stage)
  {
    hide StepOf;
    if stage == was {
      WentThroughMore(prefix, |prefix|, a, |prefix| + 1, w, stage);
    } else if stage > 0 {
      WentThroughMore(prefix, |prefix|, a, |prefix|, w, was);
      assert (prefix + [a])[|prefix|] == a;
    }
  }

  lemma StartStage()
    ensures StageOf(Start) == 0
  {
  }

  lemma RunNothing(accepts: (nat, string) -> bool, s: State)
    ensures Run(accepts, s, []) == Some(s)
  {
  }

  lemma {:induction false} RunPrefix(accepts: (nat, string) -> bool, s: State, actions: seq<Action>, a: Action)
    requires Run(accepts, s, actions + [a]).Some?
    ensures Run(accepts, s, actions).Some?
    decreases |actions|
  {
    hide Next;
    if actions != [] {
      assert (actions + [a])[0] == actions[0] && (actions + [a])[1..] == actions[1..] + [a];
      RunPrefix(accepts, Next(accepts, s, actions[0]).value, actions[1..], a);
    }
  }

  /** The mode, the acceptance by fill, the sync and the close of w are at these places. */
  predicate StepsAt(actions: seq<Action>, w: nat, c: nat, i: nat, j: nat, k: nat) {
    && c < i < j < k < |actions|
    && actions[c] == Chmod(w) && actions[i] == Accept(w) && actions[j] == Sync(w) && actions[k] == Close(w)
  }

  lemma AllSteps(actions: seq<Action>, w: nat)
    requires WentThrough(actions, |actions|, w, 4)
    ensures exists c, i, j, k :: StepsAt(actions, w, c, i, j, k)
  {
    var k: nat :| k < |actions| && actions[k] == StepOf(4, w) && WentThrough(actions, k, w, 3);
    var j: nat :| j < k && actions[j] == StepOf(3, w) && WentThrough(actions, j, w, 2);
    var i: nat :| i < j && actions[i] == StepOf(2, w) && WentThrough(actions, i, w, 1);
    var c: nat :| c < i && actions[c] == StepOf(1, w) && WentThrough(actions, c, w, 0);
    assert StepsAt(actions, w, c, i, j, k);
  }

  /** A file comes to the path only after its mode was set, fill accepted it, and it
  was synced and closed, in this order. */
  lemma RenameComesLast(accepts: (nat, string) -> bool, initial: Option<string>, n: nat, m: nat,
                        actions: seq<Action>, w: nat)
    requires Run(accepts, Init(initial, n, m), actions + [Rename(w)]).Some?
    ensures exists c, i, j, k :: StepsAt(actions, w, c, i, j, k)
  {
    hide Run, Next, StageOf, WentThrough, StepsAt;
    var s := Init(initial, n, m);
    RunPrefix(accepts, s, actions, Rename(w));
    RunAppend(accepts, s, actions, Rename(w));
    RenameIsFromClosed(accepts, Run(accepts, s, actions).value, w);
    RunWriters(accepts, s, actions);
    RunStages(accepts, s, actions, w);
    AllSteps(actions, w);
  }

  lemma RenameIsFromClosed(accepts: (nat, string) -> bool, s: State, w: nat)
    requires Next(accepts, s, Rename(w)).Some?
    ensures w < |s.writers| && StageOf(s.writers[w].pc) == 4
  {
  }

  lemma {:induction false} RunWriters(accepts: (nat, string) -> bool, s: State, actions: seq<Action>)
    requires Run(accepts, s, actions).Some?
    ensures |Run(accepts, s, actions).value.writers| == |s.writers|
    decreases |actions|
  {
    hide Next;
    if actions != [] {
      NextKeepsShape(accepts, s, actions[0]);
      RunWriters(accepts, Next(accepts, s, actions[0]).value, actions[1..]);
    }
  }

  /** One step of the protocol, recorded. */
  method Take(accepts: (nat, string) -> bool, d: Directory, a: Action, ghost start: State, ghost trace: seq<Action>)
    returns (ghost longer: seq<Action>)
    requires Run(accepts, start, trace) == Some(d.s) && Next(accepts, d.s, a).Some?
    modifies d
    ensures Some(d.s) == Next(accepts, old(d.s), a) && Run(accepts, start, longer) == Some(d.s)
  {
    RunAppend(accepts, start, trace, a);
    d.s := Next(accepts, d.s, a).value;
    longer := trace + [a];
  }

  /** The call of writer w has its temporary file and has changed nothing else. */
  ghost predicate Owns(start: State, s: State, w: nat, name: nat, ino: nat, pc: Pc) {
    && w < |start.writers| == |s.writers| && s.writers[w] == Writer(pc, name, ino)
    && s.temps == start.temps[name := ino] && ino in s.inodes && ino !in start.inodes && name !in start.temps
    && s.dst == start.dst && s.placed == start.placed && SameFiles(start, s)
  }

  ghost predicate SameFiles(start: State, s: State) {
    forall i :: i in start.inodes ==> i in s.inodes && s.inodes[i] == start.inodes[i]
  }

  /** The actions that only move a call on, from one place to the next. */
  predicate Moves(a: Action, w: nat, from: Pc, to: Pc) {
    || (a == Chmod(w) && from == Made && to == Filling)
    || (a == Accept(w) && from == Filling && to == Filled)
    || (a == Sync(w) && from == Filled && to == Synced)
    || (a == Close(w) && from == Synced && to == Closed)
    || (a == StepFails(w) && from in {Made, Filling, Filled, Synced, Closed} && to == Failing)
    || (a == CleanupClose(w) && from == Failing && to == Removing)
  }

  method Move(accepts: (nat, string) -> bool, d: Directory, a: Action, w: nat, name: nat, ino: nat,
              ghost from: Pc, ghost to: Pc, ghost start: State, ghost trace: seq<Action>)
    returns (ghost longer: seq<Action>)
    requires Run(accepts, start, trace) == Some(d.s) && Owns(start, d.s, w, name, ino, from) && Moves(a, w, from, to)
    requires a.Accept? ==> ino in d.s.inodes && accepts(w, d.s.inodes[ino])
    modifies d
    ensures Run(accepts, start, longer) == Some(d.s) && Owns(start, d.s, w, name, ino, to)
    ensures d.s.inodes == old(d.s.inodes)
  {
    hide Run;
    longer := Take(accepts, d, a, start, trace);
  }

  /** The writes of fill. */
  method AppendAll(accepts: (nat, string) -> bool, d: Directory, w: nat, name: nat, ino: nat, chunks: seq<string>,
                   ghost start: State, ghost trace: seq<Action>)
    returns (ghost longer: seq<Action>)
    requires Run(accepts, start, trace) == Some(d.s) && Owns(start, d.s, w, name, ino, Filling)
    requires ino in d.s.inodes && d.s.inodes[ino] == ""
    modifies d
    ensures Run(accepts, start, longer) == Some(d.s) && Owns(start, d.s, w, name, ino, Filling)
    ensures ino in d.s.inodes && d.s.inodes[ino] == Concat(chunks)
  {
    hide Run;
    longer := trace;
    var k := 0;
    while k < |chunks|
      invariant 0 <= k <= |chunks|
      invariant Run(accepts, start, longer) == Some(d.s)
      invariant Owns(start, d.s, w, name, ino, Filling)
      invariant d.s.inodes[ino] + Concat(chunks[k..]) == Concat(chunks)
    {
      assert chunks[k..][1..] == chunks[k + 1..];
      assert d.s.inodes[ino] + (chunks[k] + Concat(chunks[k + 1..])) == d.s.inodes[ino] + chunks[k] + Concat(chunks[k + 1..]);
      longer := Take(accepts, d, Append(w, chunks[k]), start, longer);
      k := k + 1;
    }
  }

  /** The deferred cleanup of a call whose error is set. */
  method Cleanup(accepts: (nat, string) -> bool, d: Directory, w: nat, name: nat, ino: nat, removeFails: bool,
                 ghost pc: Pc, ghost start: State, ghost trace: seq<Action>)
    returns (ghost longer: seq<Action>)
    requires Run(accepts, start, trace) == Some(d.s) && Owns(start, d.s, w, name, ino, pc)
    requires pc in {Made, Filling, Filled, Synced, Closed}
    modifies d
    ensures Run(accepts, start, longer) == Some(d.s) && |d.s.writers| == |start.writers|
    ensures w < |start.writers| && d.s.writers[w].pc == Failed(!removeFails)
    ensures d.s.dst == start.dst && d.s.placed == start.placed && SameFiles(start, d.s)
    ensures !removeFails ==> d.s.temps == start.temps
  {
    hide Run, Owns;
    longer := Move(accepts, d, StepFails(w), w, name, ino, pc, Failing, start, trace);
    longer := Move(accepts, d, CleanupClose(w), w, name, ino, Failing, Removing, start, longer);
    longer := RemoveTemp(accepts, d, w, name, ino, removeFails, start, longer);
  }

  method RemoveTemp(accepts: (nat, string) -> bool, d: Directory, w: nat, name: nat, ino: nat, removeFails: bool,
                    ghost start: State, ghost trace: seq<Action>)
    returns (ghost longer: seq<Action>)
    requires Run(accepts, start, trace) == Some(d.s) && Owns(start, d.s, w, name, ino, Removing)
    modifies d
    ensures Run(accepts, start, longer) == Some(d.s) && |d.s.writers| == |start.writers|
    ensures w < |start.writers| && d.s.writers[w].pc == Failed(!removeFails)
    ensures d.s.dst == start.dst && d.s.placed == start.placed && SameFiles(start, d.s)
    ensures !removeFails ==> d.s.temps == start.temps
  {
    hide Run;
    if removeFails {
      longer := Take(accepts, d, RemoveFails(w), start, trace);
    } else {
      longer := Take(accepts, d, Remove(w), start, trace);
      assert start.temps[name := ino] - {name} == start.temps;
    }
  }

  method MakeTemp(accepts: (nat, string) -> bool, d: Directory, w: nat, name: nat, ino: nat, fails: bool)
    returns (made: bool, ghost trace: seq<Action>)
    requires w < |d.s.writers| && d.s.writers[w].pc == Start && name !in d.s.temps && ino !in d.s.inodes
    modifies d
    ensures made == !fails && Run(accepts, old(d.s), trace) == Some(d.s) && |d.s.writers| == |old(d.s.writers)|
    ensures made ==> Owns(old(d.s), d.s, w, name, ino, Made) && ino in d.s.inodes && d.s.inodes[ino] == ""
    ensures !made ==> d.s == old(d.s).(writers := old(d.s).writers[w := old(d.s).writers[w].(pc := Refused)])
    ensures !made ==> SameFiles(old(d.s), d.s)
  {
    ghost var start := d.s;
    if fails {
      trace := Take(accepts, d, CreateFails(w), start, []);
      return false, trace;
    }
    trace := Take(accepts, d, Create(w, name, ino), start, []);
    return true, trace;
  }

  /** From the temporary file to its close. */
  method FillAndClose(accepts: (nat, string) -> bool, d: Directory, w: nat, name: nat, ino: nat, chunks: seq<string>,
                      f: Faults, ghost start: State, ghost trace: seq<Action>)
    returns (ok: bool, ghost pc: Pc, ghost longer: seq<Action>)
    requires Run(accepts, start, trace) == Some(d.s) && Owns(start, d.s, w, name, ino, Made)
    requires ino in d.s.inodes && d.s.inodes[ino] == ""
    modifies d
    ensures Run(accepts, start, longer) == Some(d.s) && Owns(start, d.s, w, name, ino, pc)
    ensures pc in {Made, Filling, Filled, Synced, Closed}
    ensures ok <==> !(f.chmod || f.fill || f.sync || f.close) && accepts(w, Concat(chunks))
    ensures ok ==> pc == Closed && ino in d.s.inodes && d.s.inodes[ino] == Concat(chunks)
  {
    hide Run, Owns, Concat;
    if f.chmod {
      return false, Made, trace;
    }
    longer := Move(accepts, d, Chmod(w), w, name, ino, Made, Filling, start, trace);
    longer := AppendAll(accepts, d, w, name, ino, chunks, start, longer);
    if f.fill || !accepts(w, Concat(chunks)) {
      return false, Filling, longer;
    }
    longer := Move(accepts, d, Accept(w), w, name, ino, Filling, Filled, start, longer);
    if f.sync {
      return false, Filled, longer;
    }
    longer := Move(accepts, d, Sync(w), w, name, ino, Filled, Synced, start, longer);
    if f.close {
      return false, Synced, longer;
    }
    longer := Move(accepts, d, Close(w), w, name, ino, Synced, Closed, start, longer);
    return true, Closed, longer;
  }

  method Place(accepts: (nat, string) -> bool, d: Directory, w: nat, name: nat, ino: nat,
               ghost start: State, ghost trace: seq<Action>)
    returns (ghost longer: seq<Action>)
    requires Run(accepts, start, trace) == Some(d.s) && Owns(start, d.s, w, name, ino, Closed)
    modifies d
    ensures Run(accepts, start, longer) == Some(d.s) && |d.s.writers| == |start.writers|
    ensures w < |start.writers| && d.s.writers[w].pc == Done
    ensures ino in old(d.s.inodes) && DstContent(d.s) == Some(old(d.s.inodes[ino]))
    ensures d.s.temps == start.temps && SameFiles(start, d.s)
  {
    hide Run;
    longer := Take(accepts, d, Rename(w), start, trace);
    longer := Take(accepts, d, Return(w), start, longer);
    assert start.temps[name := ino] - {name} == start.temps;
  }

  /** The body of Write: its steps are steps of the protocol. Without a fault and
  with content that fill accepts, the content is placed; otherwise the directory
  is as before, but for the temporary file when Remove fails too. */
  method Write(accepts: (nat, string) -> bool, d: Directory, w: nat, name: nat, ino: nat, chunks: seq<string>, f: Faults)
    returns (ok: bool, ghost trace: seq<Action>)
    requires w < |d.s.writers| && d.s.writers[w].pc == Start && name !in d.s.temps && ino !in d.s.inodes
    modifies d
    ensures Run(accepts, old(d.s), trace) == Some(d.s) && |d.s.writers| == |old(d.s.writers)|
    ensures ok <==> !(f.create || f.chmod || f.fill || f.sync || f.close || f.rename) && accepts(w, Concat(chunks))
    ensures ok ==> d.s.writers[w].pc == Done && DstContent(d.s) == Some(Concat(chunks)) && d.s.temps == old(d.s.temps)
    ensures !ok ==> Returned(d.s.writers[w].pc) && d.s.dst == old(d.s.dst) && d.s.placed == old(d.s.placed)
    ensures !ok && !f.remove ==> d.s.temps == old(d.s.temps)
    ensures SameFiles(old(d.s), d.s)
  {
    hide Run, Next, Owns, SameFiles, Concat, DstContent;
    ghost var start := d.s;
    var made;
    made, trace := MakeTemp(accepts, d, w, name, ino, f.create);
    if !made {
      return false, trace;
    }
    ghost var pc;
    ok, pc, trace := FillAndClose(accepts, d, w, name, ino, chunks, f, start, trace);
    ok := ok && !f.rename;
    if ok {
      trace := Place(accepts, d, w, name, ino, start, trace);
    } else {
      trace := Cleanup(accepts, d, w, name, ino, f.remove, pc, start, trace);
    }
  }
}
