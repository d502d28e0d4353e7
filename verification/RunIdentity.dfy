/** Publish-once run identities (`persist_run_identity` in openpine/run_identity.py) as a state
    machine: any number of calls for one run_id interleave their system calls over a directory whose
    entries and file bytes reach the disk only when fsynced, and the machine may crash anywhere. */
module RunIdentity {
  import opened Prelude

  /** The identity mapping a caller wants published. */
  type Payload(==, !new)

  // ----- the file system

  /** File bytes. The canonical JSON text of a payload reads back as that payload and no other;
      every other byte string, such as a partly written body, is torn. */
  datatype Contents = Json(payload: Payload) | Torn

  datatype Inode = Initial | Of(call: nat)

  /** `{run_id}.json`, and the temporary name with the UUID of one call. */
  datatype Name = Target | Temp(call: nat)

  datatype File = File(contents: Contents, synced: bool)

  // ----- the calls

  datatype Outcome = Returned | Conflict | Failed | Died

  /** What the call does next. */
  datatype Phase =
    | Reading            // read_existing
    | Matched            // require_existing_match found equality: fsync the directory, return
    | Opening            // create the temporary file, O_EXCL
    | Writing            // write the body
    | Syncing            // fsync the file
    | Linking            // link the temporary name to the target
    | Publishing         // fsync the directory after the link
    | Rereading          // the link found the target taken: read it
    | LateMatched        // it matches: fsync the directory
    | Cleanup(next: Outcome) // the finally block: unlink the temporary name
    | Done(outcome: Outcome)

  datatype Call = Call(payload: Payload, phase: Phase)

  datatype State = State(
    calls: map<nat, Call>,
    files: map<Inode, File>,
    dir: map<Name, Inode>,   // what running processes see
    disk: map<Name, Inode>)  // what a crash leaves

  datatype Event =
    | Arrive(id: nat, payload: Payload)       // a new call; its UUID has not been used before
    | Act(id: nat)                            // the call's next system call succeeds
    | Fault(id: nat)                          // ... or fails with an OSError
    | Writeback(name: Name)                   // the kernel flushes one directory entry early
    | Crash(garbage: map<Inode, Contents>)    // power loss; unsynced bytes become arbitrary

  /** Most system calls the call can still make; every one of them lowers it. */
  function Remaining(phase: Phase): nat {
    match phase
    case Reading => 9
    case Matched => 1
    case Opening => 8
    case Writing => 7
    case Syncing => 6
    case Linking => 5
    case Publishing => 2
    case Rereading => 4
    case LateMatched => 3
    case Cleanup(_) => 1
    case Done(_) => 0
  }

  function SetPhase(s: State, id: nat, phase: Phase): State
    requires id in s.calls
  {
    s.(calls := s.calls[id := s.calls[id].(phase := phase)])
  }

  function SyncDirectory(s: State): State {
    s.(disk := s.dir)
  }

  function ReadTarget(s: State): Option<Contents> {
    if Target in s.dir && s.dir[Target] in s.files then Some(s.files[s.dir[Target]].contents) else None
  }

  function SetEntry(entries: map<Name, Inode>, from: map<Name, Inode>, name: Name): map<Name, Inode> {
    if name in from then entries[name := from[name]] else entries - {name}
  }

  function Perform(s: State, id: nat): (s': State)
    requires id in s.calls
    ensures s'.calls.Keys == s.calls.Keys && s'.calls[id].payload == s.calls[id].payload
    ensures s'.calls[id].phase.Done? || Remaining(s'.calls[id].phase) < Remaining(s.calls[id].phase)
  {
    var payload := s.calls[id].payload;
    match s.calls[id].phase
    case Reading =>
      SetPhase(s, id, match ReadTarget(s)
                      case None => Opening
                      case Some(c) => if c == Json(payload) then Matched else Done(Conflict))
    case Matched => SetPhase(SyncDirectory(s), id, Done(Returned))
    case Opening =>
      if Temp(id) in s.dir then SetPhase(s, id, Cleanup(Failed))
      else SetPhase(s.(files := s.files[Of(id) := File(Torn, false)], dir := s.dir[Temp(id) := Of(id)]),
                    id, Writing)
    case Writing =>
      SetPhase(s.(files := s.files[Of(id) := File(Json(payload), false)]), id, Syncing)
    case Syncing =>
      SetPhase(s.(files := map i | i in s.files :: if i == Of(id) then s.files[i].(synced := true) else s.files[i]),
               id, Linking)
    case Linking =>
      if Temp(id) !in s.dir then SetPhase(s, id, Cleanup(Failed))
      else if Target in s.dir then SetPhase(s, id, Rereading)
      else SetPhase(s.(dir := s.dir[Target := s.dir[Temp(id)]]), id, Publishing)
    case Publishing => SetPhase(SyncDirectory(s), id, Cleanup(Returned))
    case Rereading =>
      SetPhase(s, id, if ReadTarget(s) == Some(Json(payload)) then LateMatched else Cleanup(Conflict))
    case LateMatched => SetPhase(SyncDirectory(s), id, Cleanup(Returned))
    case Cleanup(outcome) => SetPhase(s.(dir := s.dir - {Temp(id)}), id, Done(outcome))
    case Done(_) => s
  }

  function Abort(phase: Phase): Phase {
    match phase
    case Reading => Done(Failed)
    case Matched => Done(Failed)
    case Cleanup(_) => Done(Failed)
    case Done(_) => phase
    case _ => Cleanup(Failed)
  }

  function Next(s: State, e: Event): State {
    match e
    case Arrive(id, payload) =>
      if id in s.calls then s else s.(calls := s.calls[id := Call(payload, Reading)])
    case Act(id) => if id in s.calls then Perform(s, id) else s
    case Fault(id) => if id in s.calls then SetPhase(s, id, Abort(s.calls[id].phase)) else s
    case Writeback(name) => s.(disk := SetEntry(s.disk, s.dir, name))
    case Crash(garbage) =>
      State(map i | i in s.calls :: if s.calls[i].phase.Done? then s.calls[i] else s.calls[i].(phase := Done(Died)),
            map i | i in s.files ::
              if s.files[i].synced || i !in garbage then s.files[i] else File(garbage[i], false),
            s.disk,
            s.disk)
  }

  function Run(s: State, events: seq<Event>): State {
    if events == [] then s else Next(Run(s, events[..|events| - 1]), events[|events| - 1])
  }

  /** The run-identities directory is durable, and holds no name but perhaps an older target. */
  ghost predicate Init(s: State) {
    && s.calls == map[]
    && s.disk == s.dir
    && s.dir.Keys <= {Target}
    && s.files.Keys <= {Initial}
    && (Target in s.dir ==> s.dir[Target] == Initial && Initial in s.files && s.files[Initial].synced)
  }

  // ----- the invariant

  /** Names and inodes belong to the calls that made them. */
  ghost predicate Owned(s: State) {
    && (forall k :: Temp(k) in s.dir ==> k in s.calls && s.dir[Temp(k)] == Of(k))
    && (forall k :: Temp(k) in s.disk ==> k in s.calls && s.disk[Temp(k)] == Of(k))
    && (forall k :: Of(k) in s.files ==> k in s.calls && !s.calls[k].phase.Reading? && !s.calls[k].phase.Opening?)
  }

  /** The target is complete and its bytes are durable: they are the untouched older target or the
      whole body of one call. The disk never names anything else. */
  ghost predicate TargetComplete(s: State, s0: State) {
    && (Target in s.disk ==> Target in s.dir && s.disk[Target] == s.dir[Target])
    && (Target in s0.dir ==> Target in s.disk && s.disk[Target] == Initial)
    && (Target in s.dir ==>
          var i := s.dir[Target];
          && i in s.files && s.files[i].synced
          && match i
             case Initial => Target in s0.dir && Initial in s0.files && s.files[i] == s0.files[Initial]
             case Of(k) => k in s.calls && s.files[i].contents == Json(s.calls[k].payload))
  }

  ghost predicate TempReady(s: State, id: nat) {
    Temp(id) in s.dir && s.dir[Temp(id)] == Of(id) && Of(id) in s.files
  }

  /** What each phase has already established. */
  ghost predicate PhaseHolds(s: State, id: nat)
    requires id in s.calls
  {
    var body := Json(s.calls[id].payload);
    match s.calls[id].phase
    case Reading => Temp(id) !in s.dir
    case Opening => Temp(id) !in s.dir
    case Writing => TempReady(s, id) && !Is(s, Target, Of(id))
    case Syncing => TempReady(s, id) && s.files[Of(id)].contents == body && !Is(s, Target, Of(id))
    case Linking => TempReady(s, id) && s.files[Of(id)] == File(body, true)
    case Publishing => ReadTarget(s) == Some(body)
    case Matched => ReadTarget(s) == Some(body)
    case LateMatched => ReadTarget(s) == Some(body)
    case Rereading => Target in s.dir
    case Cleanup(o) => o == Returned ==> Target in s.disk && ReadTarget(s) == Some(body)
    case Done(o) => o == Returned ==> Target in s.disk && ReadTarget(s) == Some(body)
  }

  ghost predicate Is(s: State, name: Name, inode: Inode) {
    name in s.dir && s.dir[name] == inode
  }

  ghost predicate Inv(s: State, s0: State) {
    && Owned(s)
    && TargetComplete(s, s0)
    && forall id :: id in s.calls ==> PhaseHolds(s, id)
  }

  /** What no event undoes: a durable target always, a visible one while there is no crash. */
  ghost predicate TargetKept(s: State, s': State, crashed: bool) {
    (Target in if crashed then s.disk else s.dir) ==>
      && Target in s.dir && Target in s'.dir && s'.dir[Target] == s.dir[Target]
      && ReadTarget(s') == ReadTarget(s)
      && (Target in s.disk ==> Target in s'.disk)
  }

  lemma InitInv(s0: State)
    requires Init(s0)
    ensures Inv(s0, s0)
  {
  }

  /** A step of `id` that leaves every other call's names, files and phase alone. */
  ghost predicate Frames(s: State, s': State, id: nat) {
    && s'.calls.Keys == s.calls.Keys
    && (forall k :: k in s.calls && k != id ==>
          && s'.calls[k] == s.calls[k]
          && (Temp(k) in s'.dir <==> Temp(k) in s.dir)
          && (Of(k) in s'.files <==> Of(k) in s.files)
          && (Of(k) in s.files ==> s'.files[Of(k)] == s.files[Of(k)])
          && (Is(s', Target, Of(k)) ==> Is(s, Target, Of(k))))
  }

  lemma OtherCallsUndisturbed(s: State, s': State, id: nat, k: nat)
    requires Owned(s) && Owned(s') && Frames(s, s', id) && TargetKept(s, s', false)
    requires k in s.calls && k != id && PhaseHolds(s, k)
    requires Target in s.disk ==> Target in s.dir
    ensures PhaseHolds(s', k)
  {
  }

  lemma ActFrames(s: State, s0: State, id: nat)
    requires Inv(s, s0) && id in s.calls
    ensures Frames(s, Perform(s, id), id)
  {
    assert PhaseHolds(s, id);
  }

  lemma ActKeepsOwned(s: State, s0: State, id: nat)
    requires Inv(s, s0) && id in s.calls
    ensures Owned(Perform(s, id))
  {
    assert PhaseHolds(s, id);
  }

  lemma ActKeepsTarget(s: State, s0: State, id: nat)
    requires Inv(s, s0) && id in s.calls
    ensures TargetComplete(Perform(s, id), s0) && TargetKept(s, Perform(s, id), false)
  {
    assert PhaseHolds(s, id);
  }

  lemma ActReachesPhase(s: State, s0: State, id: nat)
    requires Inv(s, s0) && id in s.calls
    ensures id in Perform(s, id).calls && PhaseHolds(Perform(s, id), id)
  {
    assert PhaseHolds(s, id);
  }

  lemma ActKeepsInv(s: State, s0: State, id: nat)
    requires Inv(s, s0) && id in s.calls
    ensures Inv(Perform(s, id), s0) && TargetKept(s, Perform(s, id), false)
  {
    var s' := Perform(s, id);
    ActFrames(s, s0, id);
    ActKeepsOwned(s, s0, id);
    ActKeepsTarget(s, s0, id);
    ActReachesPhase(s, s0, id);
    forall k | k in s'.calls
      ensures PhaseHolds(s', k)
    {
      if k != id {
        OtherCallsUndisturbed(s, s', id, k);
      }
    }
  }

  lemma CrashKeepsInv(s: State, s0: State, garbage: map<Inode, Contents>)
    requires Inv(s, s0)
    ensures Inv(Next(s, Crash(garbage)), s0) && TargetKept(s, Next(s, Crash(garbage)), true)
  {
  }

  lemma FaultKeepsInv(s: State, s0: State, id: nat)
    requires Inv(s, s0) && id in s.calls
    ensures Inv(Next(s, Fault(id)), s0) && TargetKept(s, Next(s, Fault(id)), false)
  {
  }

  lemma WritebackKeepsInv(s: State, s0: State, name: Name)
    requires Inv(s, s0)
    ensures Inv(Next(s, Writeback(name)), s0) && TargetKept(s, Next(s, Writeback(name)), false)
  {
  }

  lemma ArriveKeepsInv(s: State, s0: State, id: nat, payload: Payload)
    requires Inv(s, s0) && id !in s.calls
    ensures Inv(Next(s, Arrive(id, payload)), s0) && TargetKept(s, Next(s, Arrive(id, payload)), false)
  {
  }

  lemma NextKeepsInv(s: State, s0: State, e: Event)
    requires Inv(s, s0)
    ensures Inv(Next(s, e), s0) && TargetKept(s, Next(s, e), e.Crash?)
  {
    match e
    case Arrive(id, payload) =>
      if id !in s.calls {
        ArriveKeepsInv(s, s0, id, payload);
      }
    case Act(id) =>
      if id in s.calls {
        ActKeepsInv(s, s0, id);
      }
    case Fault(id) =>
      if id in s.calls {
        FaultKeepsInv(s, s0, id);
      }
    case Writeback(name) => WritebackKeepsInv(s, s0, name);
    case Crash(garbage) => CrashKeepsInv(s, s0, garbage);
  }

  lemma {:induction false} RunKeepsInv(s0: State, events: seq<Event>)
    requires Init(s0)
    ensures Inv(Run(s0, events), s0)
  {
    if events == [] {
      InitInv(s0);
    } else {
      var front := events[..|events| - 1];
      RunKeepsInv(s0, front);
      NextKeepsInv(Run(s0, front), s0, events[|events| - 1]);
    }
  }

  ghost predicate CrashFree(events: seq<Event>) {
    forall i :: 0 <= i < |events| ==> !events[i].Crash?
  }

  lemma {:induction false} ContinuationKeepsTarget(s0: State, before: seq<Event>, after: seq<Event>)
    requires Init(s0)
    ensures TargetKept(Run(s0, before), Run(s0, before + after), !CrashFree(after))
  {
    if after == [] {
      RunKeepsInv(s0, before);
      assert before + after == before;
    } else {
      var front, last := after[..|after| - 1], after[|after| - 1];
      var all := before + after;
      assert all[..|all| - 1] == before + front && all[|all| - 1] == last;
      ContinuationKeepsTarget(s0, before, front);
      RunKeepsInv(s0, before);
      RunKeepsInv(s0, before + front);
      NextKeepsInv(Run(s0, before + front), s0, last);
      assert CrashFree(after) ==> CrashFree(front) && !last.Crash?;
    }
  }

  // ----- the theorems

  ghost predicate Finished(s: State, id: nat, outcome: Outcome) {
    id in s.calls && s.calls[id].phase == Done(outcome)
  }

  /** Whatever the interleaving, the faults and the crashes, a visible target is the whole body of
      one call or the older target's unchanged bytes. */
  lemma TargetIsOneCompleteBody(s0: State, events: seq<Event>)
    requires Init(s0)
    ensures var s := Run(s0, events);
            Target in s.dir ==>
              || (Target in s0.dir && ReadTarget(s) == ReadTarget(s0))
              || exists k :: k in s.calls && ReadTarget(s) == Some(Json(s.calls[k].payload))
  {
    RunKeepsInv(s0, events);
    var s := Run(s0, events);
    if Target in s.dir && s.dir[Target].Of? {
      var k := s.dir[Target].call;
      assert k in s.calls && ReadTarget(s) == Some(Json(s.calls[k].payload));
    }
  }

  /** Without a crash the target name is never rebound and never changes its bytes. */
  lemma TargetNeverRebound(s0: State, before: seq<Event>, after: seq<Event>)
    requires Init(s0) && CrashFree(after) && Target in Run(s0, before).dir
    ensures var s, s' := Run(s0, before), Run(s0, before + after);
            Target in s'.dir && s'.dir[Target] == s.dir[Target] && ReadTarget(s') == ReadTarget(s)
  {
    ContinuationKeepsTarget(s0, before, after);
  }

  /** All calls that ever return normally, in whatever boot, carried equal payloads. */
  lemma NormalReturnsAgree(s0: State, events: seq<Event>, i: nat, j: nat)
    requires Init(s0)
    requires Finished(Run(s0, events), i, Returned) && Finished(Run(s0, events), j, Returned)
    ensures Run(s0, events).calls[i].payload == Run(s0, events).calls[j].payload
  {
    RunKeepsInv(s0, events);
    assert PhaseHolds(Run(s0, events), i) && PhaseHolds(Run(s0, events), j);
  }

  /** Once a call has returned normally, its identity is on disk and survives everything later,
      crashes included. */
  lemma ReturnedIdentitySurvives(s0: State, before: seq<Event>, after: seq<Event>, id: nat)
    requires Init(s0) && Finished(Run(s0, before), id, Returned)
    ensures var s' := Run(s0, before + after);
            Target in s'.disk && ReadTarget(s') == Some(Json(Run(s0, before).calls[id].payload))
  {
    RunKeepsInv(s0, before);
    assert PhaseHolds(Run(s0, before), id);
    ContinuationKeepsTarget(s0, before, after);
  }

  /** The system calls of this call all succeed and the machine stays up. */
  ghost predicate Undisturbed(events: seq<Event>, id: nat) {
    forall i :: 0 <= i < |events| ==> !events[i].Crash? && events[i] != Fault(id)
  }

  ghost predicate NotFailed(phase: Phase) {
    match phase
    case Cleanup(o) => o == Returned || o == Conflict
    case Done(o) => o == Returned || o == Conflict
    case _ => true
  }

  /** A conflict was decided against a visible target that differs. */
  ghost predicate ConflictJustified(s: State, id: nat)
    requires id in s.calls
  {
    s.calls[id].phase in {Cleanup(Conflict), Done(Conflict)} ==>
      Target in s.dir && ReadTarget(s) != Some(Json(s.calls[id].payload))
  }

  lemma {:induction false} UndisturbedOutcome(s0: State, before: seq<Event>, events: seq<Event>, id: nat)
    requires Init(s0) && id !in Run(s0, before).calls && Undisturbed(events, id)
    ensures var s := Run(s0, before + events);
            OnCourse(s, id)
  {
    if events == [] {
      assert before + events == before;
    } else {
      var front, last := events[..|events| - 1], events[|events| - 1];
      var all := before + events;
      assert all[..|all| - 1] == before + front && all[|all| - 1] == last;
      UndisturbedOutcome(s0, before, front, id);
      RunKeepsInv(s0, before + front);
      UndisturbedStep(Run(s0, before + front), s0, last, id);
    }
  }

  ghost predicate OnCourse(s: State, id: nat) {
    id in s.calls ==> NotFailed(s.calls[id].phase) && ConflictJustified(s, id)
  }

  lemma UndisturbedStep(s: State, s0: State, e: Event, id: nat)
    requires Inv(s, s0) && OnCourse(s, id) && !e.Crash? && e != Fault(id)
    ensures OnCourse(Next(s, e), id)
  {
    NextKeepsInv(s, s0, e);
    if e == Act(id) && id in s.calls {
      assert PhaseHolds(s, id);
    } else if e.Act? && e.id in s.calls {
      ActFrames(s, s0, e.id);
    }
  }

  /** A call that arrives after `before`, is not disturbed, and has finished: it returned normally
      exactly when its payload is the published one, and a differing payload ended in conflict. */
  lemma UndisturbedCallIsExact(s0: State, before: seq<Event>, events: seq<Event>, id: nat)
    requires Init(s0) && id !in Run(s0, before).calls && Undisturbed(events, id)
    requires id in Run(s0, before + events).calls && Run(s0, before + events).calls[id].phase.Done?
    ensures var s := Run(s0, before + events);
            && Target in s.dir
            && Finished(s, id, if ReadTarget(s) == Some(Json(s.calls[id].payload)) then Returned else Conflict)
  {
    UndisturbedOutcome(s0, before, events, id);
    RunKeepsInv(s0, before + events);
    assert PhaseHolds(Run(s0, before + events), id);
  }

  // ----- temporary names are removed

  /** A call has its temporary name in the directory only while it is at work on it. */
  ghost predicate Tidy(s: State, id: nat) {
    id in s.calls && (s.calls[id].phase.Reading? || s.calls[id].phase.Opening? || s.calls[id].phase.Matched?
                      || s.calls[id].phase.Done?) ==>
      Temp(id) !in s.dir
  }

  /** The call's unlink does not fail, whatever else of it does. */
  ghost predicate UnlinkSucceeds(s0: State, before: seq<Event>, events: seq<Event>, id: nat) {
    forall i :: 0 <= i < |events| && events[i] == Fault(id) ==>
      var s := Run(s0, before + events[..i]);
      id in s.calls ==> !s.calls[id].phase.Cleanup?
  }

  lemma StepKeepsTidy(s: State, s0: State, e: Event, id: nat)
    requires Inv(s, s0) && Tidy(s, id) && !e.Crash?
    requires e == Fault(id) && id in s.calls ==> !s.calls[id].phase.Cleanup?
    ensures Tidy(Next(s, e), id)
  {
    if e.Act? && e.id in s.calls && e.id != id {
      ActFrames(s, s0, e.id);
      OtherTempKept(s, e.id, id);
    }
  }

  lemma OtherTempKept(s: State, id: nat, other: nat)
    requires id in s.calls && id != other
    ensures Temp(other) in Perform(s, id).dir <==> Temp(other) in s.dir
  {
  }

  /** While the machine stays up and its unlink does not fail, a call that is over, however it ended,
      has left no temporary name behind. */
  lemma {:induction false} TemporaryNameRemoved(s0: State, before: seq<Event>, events: seq<Event>, id: nat)
    requires Init(s0) && id !in Run(s0, before).calls
    requires CrashFree(events) && UnlinkSucceeds(s0, before, events, id)
    ensures Tidy(Run(s0, before + events), id)
  {
    if events == [] {
      assert before + events == before;
    } else {
      var front, last := events[..|events| - 1], events[|events| - 1];
      var all := before + events;
      assert all[..|all| - 1] == before + front && all[|all| - 1] == last;
      assert forall i :: 0 <= i < |front| ==> front[..i] == events[..i];
      TemporaryNameRemoved(s0, before, front, id);
      RunKeepsInv(s0, before + front);
      StepKeepsTidy(Run(s0, before + front), s0, last, id);
    }
  }

  lemma UndisturbedIsTidy(s0: State, before: seq<Event>, events: seq<Event>, id: nat)
    requires Init(s0) && id !in Run(s0, before).calls && Undisturbed(events, id)
    ensures Tidy(Run(s0, before + events), id)
  {
    TemporaryNameRemoved(s0, before, events, id);
  }

  /** Names that no step of the call touches. */
  ghost predicate OthersKept(s: State, s': State, id: nat) {
    forall name :: name != Target && name != Temp(id) ==>
      (name in s'.dir <==> name in s.dir) && (name in s.dir ==> s'.dir[name] == s.dir[name])
  }

  lemma {:induction false} ActsKeepOthers(s: State, id: nat, n: nat)
    requires id in s.calls
    ensures OthersKept(s, Run(s, seq(n, _ => Act(id))), id)
    decreases n
  {
    if n > 0 {
      var acts := seq(n, _ => Act(id));
      FirstEvent(s, acts);
      assert acts[1..] == seq(n - 1, _ => Act(id));
      ActKeepsOthers(s, id);
      ActsKeepOthers(Perform(s, id), id, n - 1);
    }
  }

  lemma ActKeepsOthers(s: State, id: nat)
    requires id in s.calls
    ensures OthersKept(s, Perform(s, id), id)
  {
  }

  /** What an undisturbed call leaves in the directory: at most the target is new. */
  lemma CallLeaves(s0: State, before: seq<Event>, id: nat, payload: Payload, n: nat)
    requires Init(s0) && id !in Run(s0, before).calls && n >= 9
    ensures var s, s' := Run(s0, before), Run(s0, before + ([Arrive(id, payload)] + seq(n, _ => Act(id))));
            s'.dir - {Target} == s.dir - {Target}
  {
    var s := Run(s0, before);
    var call := [Arrive(id, payload)] + seq(n, _ => Act(id));
    var s' := Run(s0, before + call);
    CallRun(s0, before, id, payload, n);
    ActsKeepOthers(Next(s, Arrive(id, payload)), id, n);
    ActsFinish(Next(s, Arrive(id, payload)), id, n);
    UndisturbedIsTidy(s0, before, call, id);
    RunKeepsInv(s0, before);
    assert Temp(id) !in s.dir && Temp(id) !in s'.dir;
    assert s'.dir - {Target} == s.dir - {Target};
  }

  lemma {:induction false} ActsFinish(s: State, id: nat, n: nat)
    requires id in s.calls && n >= Remaining(s.calls[id].phase)
    ensures var s' := Run(s, seq(n, _ => Act(id)));
            id in s'.calls && s'.calls[id].phase.Done? && s'.calls[id].payload == s.calls[id].payload
    decreases n
  {
    var acts := seq(n, _ => Act(id));
    if n > 0 {
      FirstEvent(s, acts);
      assert acts[1..] == seq(n - 1, _ => Act(id));
      ActsFinish(Next(s, Act(id)), id, n - 1);
    }
  }

  lemma {:induction false} FirstEvent(s: State, events: seq<Event>)
    requires events != []
    ensures Run(s, events) == Run(Next(s, events[0]), events[1..])
  {
    if |events| > 1 {
      var front := events[..|events| - 1];
      FirstEvent(s, front);
      assert front[1..] == events[1..][..|events[1..]| - 1];
    } else {
      assert events[..0] == [] && events[1..] == [];
    }
  }

  lemma {:induction false} RunAppend(s: State, before: seq<Event>, after: seq<Event>)
    ensures Run(s, before + after) == Run(Run(s, before), after)
  {
    if after == [] {
      assert before + after == before;
    } else {
      var all := before + after;
      assert all[..|all| - 1] == before + after[..|after| - 1];
      RunAppend(s, before, after[..|after| - 1]);
    }
  }

  /** What a caller leaves behind that finds the target there: a normal return with the directory made
      durable if the bodies are equal, a conflict if they differ, and no other change. */
  ghost function Settled(s: State, id: nat): State
    requires id in s.calls && Target in s.dir && s.dir[Target] in s.files
  {
    var payload := s.calls[id].payload;
    var equal := s.files[s.dir[Target]].contents == Json(payload);
    State(s.calls[id := Call(payload, Done(if equal then Returned else Conflict))], s.files, s.dir,
          if equal then s.dir else s.disk)
  }

  lemma {:induction false} TwoActsSettle(s: State, id: nat, n: nat)
    requires id in s.calls && s.calls[id].phase == Reading && Target in s.dir && s.dir[Target] in s.files && n >= 2
    ensures Run(s, seq(n, _ => Act(id))) == Settled(s, id)
    decreases n
  {
    var acts := seq(n, _ => Act(id));
    assert acts[..n - 1] == seq(n - 1, _ => Act(id));
    if n > 2 {
      TwoActsSettle(s, id, n - 1);
    } else {
      var first := Next(s, Act(id));
      assert acts[..1] == [Act(id)] && Run(s, [Act(id)]) == first;
      assert Next(first, Act(id)) == Settled(s, id);
    }
  }

  /** Two successful system calls decide a caller that finds a published identity: it returns if its
      payload is equal, and ends in the conflict if it differs, and changes nothing but its own call. */
  lemma LateCallerDecided(s0: State, before: seq<Event>, id: nat, payload: Payload, n: nat)
    requires Init(s0) && id !in Run(s0, before).calls
    requires Target in Run(s0, before).dir && n >= 2
    ensures var published := ReadTarget(Run(s0, before));
            var s := Run(s0, before + ([Arrive(id, payload)] + seq(n, _ => Act(id))));
            && Finished(s, id, if published == Some(Json(payload)) then Returned else Conflict)
            && s.dir == Run(s0, before).dir && s.files == Run(s0, before).files
            && s.calls == Run(s0, before).calls[id := s.calls[id]]
  {
    RunKeepsInv(s0, before);
    CallRun(s0, before, id, payload, n);
    var arrived := Next(Run(s0, before), Arrive(id, payload));
    TwoActsSettle(arrived, id, n);
  }

  lemma OnlyTarget(a: map<Name, Inode>, b: map<Name, Inode>)
    requires Target in a && a - {Target} == b - {Target}
    ensures a == b[Target := a[Target]]
  {
    forall name
      ensures name != Target ==> (name in a <==> name in b) && (name in a ==> a[name] == b[name])
    {
      assert name != Target ==> (name in a <==> name in a - {Target}) && (name in b <==> name in b - {Target});
      assert name != Target && name in a ==> (a - {Target})[name] == a[name];
    }
  }

  lemma CallRun(s0: State, before: seq<Event>, id: nat, payload: Payload, n: nat)
    ensures Run(s0, before + ([Arrive(id, payload)] + seq(n, _ => Act(id)))) ==
            Run(Next(Run(s0, before), Arrive(id, payload)), seq(n, _ => Act(id)))
  {
    var call := [Arrive(id, payload)] + seq(n, _ => Act(id));
    RunAppend(s0, before, call);
    FirstEvent(Run(s0, before), call);
    assert call[1..] == seq(n, _ => Act(id));
  }

  lemma {:induction false} ActsBindOnlyOwnBody(s: State, s0: State, id: nat, n: nat)
    requires Inv(s, s0) && id in s.calls
    requires Target in s.dir ==> s.dir[Target] == Of(id)
    ensures var s' := Run(s, seq(n, _ => Act(id)));
            Inv(s', s0) && id in s'.calls && (Target in s'.dir ==> s'.dir[Target] == Of(id))
    decreases n
  {
    if n > 0 {
      var acts := seq(n, _ => Act(id));
      FirstEvent(s, acts);
      assert acts[1..] == seq(n - 1, _ => Act(id));
      ActKeepsInv(s, s0, id);
      assert PhaseHolds(s, id);
      ActsBindOnlyOwnBody(Perform(s, id), s0, id, n - 1);
    }
  }

  /** A caller that finds no identity and is left alone publishes its own and returns. */
  lemma FirstCallerPublishes(s0: State, before: seq<Event>, id: nat, payload: Payload, n: nat)
    requires Init(s0) && id !in Run(s0, before).calls
    requires Target !in Run(s0, before).dir && n >= 9
    ensures var s := Run(s0, before + ([Arrive(id, payload)] + seq(n, _ => Act(id))));
            && Finished(s, id, Returned) && ReadTarget(s) == Some(Json(payload))
            && s.dir == Run(s0, before).dir[Target := Of(id)]
  {
    FirstCallerOutcome(s0, before, id, payload, n);
    CallLeaves(s0, before, id, payload, n);
    OnlyTarget(Run(s0, before + ([Arrive(id, payload)] + seq(n, _ => Act(id)))).dir, Run(s0, before).dir);
  }

  lemma FirstCallerOutcome(s0: State, before: seq<Event>, id: nat, payload: Payload, n: nat)
    requires Init(s0) && id !in Run(s0, before).calls
    requires Target !in Run(s0, before).dir && n >= 9
    ensures var s := Run(s0, before + ([Arrive(id, payload)] + seq(n, _ => Act(id))));
            && Finished(s, id, Returned) && ReadTarget(s) == Some(Json(payload))
            && Target in s.dir && s.dir[Target] == Of(id)
  {
    var call := [Arrive(id, payload)] + seq(n, _ => Act(id));
    var s1 := Next(Run(s0, before), Arrive(id, payload));
    CallRun(s0, before, id, payload, n);
    RunKeepsInv(s0, before);
    ArriveKeepsInv(Run(s0, before), s0, id, payload);
    ActsFinish(s1, id, n);
    ActsBindOnlyOwnBody(s1, s0, id, n);
    UndisturbedCallIsExact(s0, before, call, id);
  }
}
