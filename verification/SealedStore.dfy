/** Sealed artifacts of openpine/artifacts/store.py: savers write a temporary directory file by file
    and rename it into place; readers verify every digest. Any number of savers interleave. */
module SealedStore {
  import opened Prelude

  type Json(==, !new)

  type SourceMap(==, !new)

  // ----- digests and contracts

  /** A collision-free digest is its input; `Recorded` is the content hash of another sealed document. */
  datatype Digest = OfText(text: string) | OfEntries(entries: SourceMap) | OfJson(json: Json) | Recorded(hash: string)

  datatype Envelope = Envelope(
    sourceHash: Digest, moduleHash: Digest, mapHash: Digest, astHash: Digest,
    frontendHash: Digest, supportHash: Digest, rest: Json)

  datatype Artifact = Artifact(contentHash: Digest, body: Json)

  /** The contract library: schema and content-hash checks, the artifact id derived from the content
      hash, and `json.loads`. */
  datatype Checks = Checks(
    validEnvelope: Envelope -> bool,
    idOf: Envelope -> string,
    validAst: Artifact -> bool,
    validFrontend: Artifact -> bool,
    validSupport: Artifact -> bool,
    parse: string -> Option<Json>)

  /** What a caller asks to be saved. */
  datatype Payload = Payload(
    code: string, source: string, astJson: string, sourceMap: SourceMap, envelope: Envelope,
    frontend: Option<Artifact>, support: Option<Artifact>, astArtifact: Option<Artifact>,
    requirements: Option<Json>, meta: Json, diagnostics: string)

  /** `_verify_sealed_payload` */
  predicate Verified(c: Checks, id: string, p: Payload) {
    && c.validEnvelope(p.envelope) && id == c.idOf(p.envelope)
    && p.envelope.sourceHash == OfText(p.source)
    && p.envelope.moduleHash == OfText(p.code)
    && p.envelope.mapHash == OfEntries(p.sourceMap)
    && c.parse(p.astJson).Some?
    && (match p.astArtifact
        case None => p.envelope.astHash == OfJson(c.parse(p.astJson).value)
        case Some(a) => c.validAst(a) && p.envelope.astHash == a.contentHash)
    && (p.frontend.Some? ==> c.validFrontend(p.frontend.value) && p.envelope.frontendHash == p.frontend.value.contentHash)
    && (p.support.Some? ==> c.validSupport(p.support.value) && p.envelope.supportHash == p.support.value.contentHash)
  }

  /** What the envelope vouches for: the artifact's name, its three texts and its source map by digest, and
      the recorded hash of every document that comes with it. */
  ghost predicate Vouched(c: Checks, id: string, e: Envelope, code: string, source: string, ast: string, map_: SourceMap,
                          frontend: Option<Artifact>, support: Option<Artifact>, tree: Option<Artifact>) {
    && c.validEnvelope(e) && c.idOf(e) == id
    && e.sourceHash == OfText(source) && e.moduleHash == OfText(code) && e.mapHash == OfEntries(map_)
    && (exists json :: c.parse(ast) == Some(json) && (tree.None? ==> e.astHash == OfJson(json)))
    && (forall a :: tree == Some(a) ==> c.validAst(a) && e.astHash == a.contentHash)
    && (forall a :: frontend == Some(a) ==> c.validFrontend(a) && e.frontendHash == a.contentHash)
    && (forall a :: support == Some(a) ==> c.validSupport(a) && e.supportHash == a.contentHash)
  }

  lemma VerifiedExactly(c: Checks, id: string, p: Payload)
    ensures Verified(c, id, p) <==>
            Vouched(c, id, p.envelope, p.code, p.source, p.astJson, p.sourceMap, p.frontend, p.support, p.astArtifact)
  {
  }

  // ----- one artifact directory

  /** The files of a directory; `None` where a file does not exist. */
  datatype Files = Files(
    code: Option<string>, source: Option<string>, ast: Option<string>, sourceMap: Option<SourceMap>,
    envelope: Option<Envelope>, frontend: Option<Artifact>, support: Option<Artifact>, astArtifact: Option<Artifact>,
    requirements: Option<Json>, meta: Option<Json>, diagnostics: Option<string>)

  const EMPTY: Files := Files(None, None, None, None, None, None, None, None, None, None, None)

  const FILE_COUNT: nat := 11

  /** The directory after the first `k` of the eleven writes. */
  function Written(p: Payload, k: nat): Files {
    Files(if k >= 1 then Some(p.code) else None,
          if k >= 2 then Some(p.source) else None,
          if k >= 3 then Some(p.astJson) else None,
          if k >= 4 then Some(p.sourceMap) else None,
          if k >= 5 then Some(p.envelope) else None,
          if k >= 6 then p.frontend else None,
          if k >= 7 then p.support else None,
          if k >= 8 then p.astArtifact else None,
          if k >= 9 then p.requirements else None,
          if k >= 10 then Some(p.meta) else None,
          if k >= 11 then Some(p.diagnostics) else None)
  }

  function Complete(p: Payload): Files {
    Written(p, FILE_COUNT)
  }

  /** All that was asked to be saved, file by file. */
  ghost predicate HoldsAll(f: Files, p: Payload) {
    && f.code == Some(p.code) && f.source == Some(p.source) && f.ast == Some(p.astJson) && f.sourceMap == Some(p.sourceMap)
    && f.envelope == Some(p.envelope) && f.frontend == p.frontend && f.support == p.support
    && f.astArtifact == p.astArtifact && f.requirements == p.requirements
    && f.meta == Some(p.meta) && f.diagnostics == Some(p.diagnostics)
  }

  /** Reading text translates every line ending to a line feed. */
  function Universal(s: string): string {
    if s == "" then ""
    else if s[0] == '\r' then "\n" + Universal(if |s| > 1 && s[1] == '\n' then s[2..] else s[1..])
    else [s[0]] + Universal(s[1..])
  }

  lemma {:induction false} UniversalKeepsExactly(s: string)
    ensures Universal(s) == s <==> '\r' !in s
    ensures '\r' !in Universal(s)
  {
    if s != "" {
      if s[0] == '\r' {
        UniversalKeepsExactly(if |s| > 1 && s[1] == '\n' then s[2..] else s[1..]);
        assert s[0] in s && Universal(s)[0] == '\n';
      } else {
        UniversalKeepsExactly(s[1..]);
        assert s == [s[0]] + s[1..];
        assert Universal(s)[1..] == Universal(s[1..]);
      }
    }
  }

  /** The whole translation: text up to a first carriage return is kept, and that return, with a line feed
      right after it if there is one, becomes one line feed. */
  lemma {:induction false} UniversalExactly(line: string, rest: string)
    requires '\r' !in line
    ensures Universal(line) == line
    ensures Universal(line + "\r\n" + rest) == line + "\n" + Universal(rest)
    ensures rest == "" || rest[0] != '\n' ==> Universal(line + "\r" + rest) == line + "\n" + Universal(rest)
  {
    var both, bare := line + "\r\n" + rest, line + "\r" + rest;
    if line == "" {
      assert both == "\r\n" + rest && both[2..] == rest;
      assert bare == "\r" + rest && bare[1..] == rest;
    } else {
      assert both[1..] == line[1..] + "\r\n" + rest && bare[1..] == line[1..] + "\r" + rest;
      UniversalExactly(line[1..], rest);
      assert line == [line[0]] + line[1..];
    }
  }

  function ReadText(file: Option<string>): string {
    if file.None? then "" else Universal(file.value)
  }

  datatype Loaded = Loaded(
    code: string, ast: string, source: string, sourceMap: Option<SourceMap>, envelope: Option<Envelope>,
    frontend: Option<Artifact>, support: Option<Artifact>, astArtifact: Option<Artifact>, meta: Json)

  datatype Error = Malformed | Mismatch | NoMetadata

  /** `get_artifact` on an existing directory. */
  function GetArtifact(c: Checks, id: string, f: Files): Result<Loaded, Error> {
    if f.envelope.Some? && f.sourceMap.None? then Err(Malformed)
    else if f.envelope.Some? && !Verified(c, id, Reread(f)) then Err(Mismatch)
    else if f.meta.None? then Err(NoMetadata)
    else Ok(Loaded(ReadText(f.code), ReadText(f.ast), ReadText(f.source), f.sourceMap, f.envelope,
                   f.frontend, f.support, f.astArtifact, f.meta.value))
  }

  /** The payload as it reads back. */
  function Reread(f: Files): Payload
    requires f.envelope.Some? && f.sourceMap.Some?
  {
    Payload(ReadText(f.code), ReadText(f.source), ReadText(f.ast), f.sourceMap.value, f.envelope.value,
            f.frontend, f.support, f.astArtifact, f.requirements,
            if f.meta.Some? then f.meta.value else f.envelope.value.rest, ReadText(f.diagnostics))
  }

  /** A text file as it reads; a missing one reads as nothing. */
  ghost predicate Reads(file: Option<string>, text: string) {
    match file
    case None => text == ""
    case Some(s) => text == Universal(s) && ('\r' !in s ==> text == s)
  }

  /** Exactly which directories can be read, and what is read from them. */
  lemma ReadExactly(c: Checks, id: string, f: Files) returns (code: string, source: string, ast: string)
    ensures Reads(f.code, code) && Reads(f.source, source) && Reads(f.ast, ast)
    ensures GetArtifact(c, id, f).Ok? <==>
            && f.meta.Some?
            && (forall e :: f.envelope == Some(e) ==>
                  && f.sourceMap.Some?
                  && Vouched(c, id, e, code, source, ast, f.sourceMap.value, f.frontend, f.support, f.astArtifact))
    ensures GetArtifact(c, id, f) == Err(Malformed) <==> f.envelope.Some? && f.sourceMap.None?
    ensures GetArtifact(c, id, f) == Err(NoMetadata) ==> f.meta.None?
    ensures f.envelope.None? && f.meta.None? ==> GetArtifact(c, id, f) == Err(NoMetadata)
    ensures GetArtifact(c, id, f).Ok? ==>
              GetArtifact(c, id, f).value ==
              Loaded(code, ast, source, f.sourceMap, f.envelope, f.frontend, f.support, f.astArtifact, f.meta.value)
  {
    code, source, ast := ReadText(f.code), ReadText(f.source), ReadText(f.ast);
    TextReads(f.code);
    TextReads(f.source);
    TextReads(f.ast);
    if f.envelope.Some? && f.sourceMap.Some? {
      VerifiedExactly(c, id, Reread(f));
    }
  }

  lemma TextReads(file: Option<string>)
    ensures Reads(file, ReadText(file))
  {
    if file.Some? {
      UniversalKeepsExactly(file.value);
    }
  }

  function LoadedFrom(p: Payload): Loaded {
    Loaded(p.code, p.astJson, p.source, Some(p.sourceMap), Some(p.envelope), p.frontend, p.support, p.astArtifact, p.meta)
  }

  /** A saved artifact reads back as it was saved exactly when none of its three texts holds a
      carriage return: the reader's line-ending translation changes the text under the digest. */
  lemma ReadsBackExactly(c: Checks, id: string, p: Payload)
    requires Verified(c, id, p)
    ensures GetArtifact(c, id, Complete(p)) == Ok(LoadedFrom(p)) <==>
            '\r' !in p.code && '\r' !in p.source && '\r' !in p.astJson
    ensures '\r' in p.code || '\r' in p.source ==> GetArtifact(c, id, Complete(p)) == Err(Mismatch)
  {
    UniversalKeepsExactly(p.code);
    UniversalKeepsExactly(p.source);
    UniversalKeepsExactly(p.astJson);
  }

  // ----- the store

  /** `<source_id>/<artifact_id>`, or the temporary directory of one saver. */
  datatype DirName = Published(source: string, artifact: string) | Temp(saver: nat)

  datatype Outcome = Saved | AlreadyThere | Conflict | Invalid | Failed

  datatype Phase = Checking | Making | Writing(count: nat) | Renaming | Done(outcome: Outcome)

  datatype Saver = Saver(source: string, artifact: string, payload: Payload, phase: Phase)

  datatype State = State(savers: map<nat, Saver>, dirs: map<DirName, Files>)

  datatype Event =
    | Begin(id: nat, source: string, artifact: string, payload: Payload)
    | Act(id: nat)
    | Fault(id: nat)   // an exception: the temporary directory is removed

  function Goal(v: Saver): DirName {
    Published(v.source, v.artifact)
  }

  /** What a save asks of its payload before it looks at the store. */
  predicate Savable(c: Checks, v: Saver) {
    v.payload.code != "" && Verified(c, v.artifact, v.payload)
  }

  /** Saver `k` renamed its directory to `name`. */
  ghost predicate Publisher(s: State, k: nat, name: DirName) {
    k in s.savers && s.savers[k].phase == Done(Saved) && Goal(s.savers[k]) == name
  }

  function SetPhase(s: State, id: nat, phase: Phase): State
    requires id in s.savers
  {
    s.(savers := s.savers[id := s.savers[id].(phase := phase)])
  }

  function Discard(s: State, id: nat): State
    requires id in s.savers
  {
    SetPhase(s.(dirs := s.dirs - {Temp(id)}), id, Done(Failed))
  }

  function Perform(c: Checks, s: State, id: nat): (s': State)
    requires id in s.savers
  {
    var v := s.savers[id];
    match v.phase
    case Checking =>
      if !Savable(c, v) then SetPhase(s, id, Done(Invalid))
      else if Goal(v) in s.dirs then
        SetPhase(s, id, match GetArtifact(c, v.artifact, s.dirs[Goal(v)])
                        case Err(_) => Done(Failed)
                        case Ok(found) => if found.envelope == Some(v.payload.envelope) then Done(AlreadyThere) else Done(Conflict))
      else SetPhase(s, id, Making)
    case Making => SetPhase(s.(dirs := s.dirs[Temp(id) := EMPTY]), id, Writing(0))
    case Writing(k) =>
      if k >= FILE_COUNT then SetPhase(s, id, Renaming)
      else SetPhase(s.(dirs := s.dirs[Temp(id) := Written(v.payload, k + 1)]), id, Writing(k + 1))
    case Renaming =>
      // a rename onto a directory that is not empty fails
      if Temp(id) !in s.dirs || (Goal(v) in s.dirs && s.dirs[Goal(v)] != EMPTY) then Discard(s, id)
      else SetPhase(s.(dirs := s.dirs[Goal(v) := s.dirs[Temp(id)]] - {Temp(id)}), id, Done(Saved))
    case Done(_) => s
  }

  function Next(c: Checks, s: State, e: Event): State {
    match e
    case Begin(id, source, artifact, payload) =>
      if id in s.savers then s else s.(savers := s.savers[id := Saver(source, artifact, payload, Checking)])
    case Act(id) => if id in s.savers then Perform(c, s, id) else s
    case Fault(id) => if id in s.savers && !s.savers[id].phase.Done? then Discard(s, id) else s
  }

  function Run(c: Checks, events: seq<Event>): State {
    if events == [] then State(map[], map[])
    else Next(c, Run(c, events[..|events| - 1]), events[|events| - 1])
  }

  // ----- the invariant

  /** The directory is the complete, verified file set of one saver that asked for that name. */
  ghost predicate OneSaversFiles(c: Checks, s: State, name: DirName)
    requires name in s.dirs
  {
    exists k :: Publisher(s, k, name) && Savable(c, s.savers[k]) && s.dirs[name] == Complete(s.savers[k].payload)
  }

  ghost predicate PhaseHolds(c: Checks, s: State, id: nat)
    requires id in s.savers
  {
    var v := s.savers[id];
    match v.phase
    case Checking => Temp(id) !in s.dirs
    case Making => Temp(id) !in s.dirs && Savable(c, v)
    case Writing(k) => Temp(id) in s.dirs && s.dirs[Temp(id)] == Written(v.payload, k) && Savable(c, v) && k <= FILE_COUNT
    case Renaming => Temp(id) in s.dirs && s.dirs[Temp(id)] == Complete(v.payload) && Savable(c, v)
    case Done(o) =>
      && Temp(id) !in s.dirs
      && (o == Saved ==> Goal(v) in s.dirs && s.dirs[Goal(v)] == Complete(v.payload) && Savable(c, v))
      && (o == AlreadyThere ==>
            && Goal(v) in s.dirs && Savable(c, v)
            && s.dirs[Goal(v)].envelope == Some(v.payload.envelope)
            && GetArtifact(c, v.artifact, s.dirs[Goal(v)]).Ok?)
  }

  ghost predicate Inv(c: Checks, s: State) {
    && (forall k :: Temp(k) in s.dirs ==> k in s.savers)
    && (forall id :: id in s.savers ==> PhaseHolds(c, s, id))
    && (forall name :: name in s.dirs && name.Published? ==> OneSaversFiles(c, s, name))
  }

  /** Published directories are never changed or removed. */
  ghost predicate PublishedKept(s: State, s': State) {
    forall name :: name in s.dirs && name.Published? ==> name in s'.dirs && s'.dirs[name] == s.dirs[name]
  }

  /** A step touches no other saver and no other temporary directory. */
  ghost predicate Frames(s: State, s': State, id: nat) {
    && s'.savers.Keys == s.savers.Keys
    && forall k :: k in s.savers && k != id ==>
         && s'.savers[k] == s.savers[k]
         && (Temp(k) in s'.dirs <==> Temp(k) in s.dirs)
         && (Temp(k) in s.dirs ==> s'.dirs[Temp(k)] == s.dirs[Temp(k)])
  }

  lemma OthersUndisturbed(c: Checks, s: State, s': State, id: nat, k: nat)
    requires Frames(s, s', id) && PublishedKept(s, s') && k in s.savers && k != id && PhaseHolds(c, s, k)
    ensures PhaseHolds(c, s', k)
  {
  }

  /** A step changes at most the saver's temporary directory and its goal. */
  lemma ActTouches(c: Checks, s: State, id: nat, name: DirName)
    requires id in s.savers && name != Temp(id) && name != Goal(s.savers[id])
    ensures var s' := Perform(c, s, id);
            (name in s'.dirs <==> name in s.dirs) && (name in s.dirs ==> s'.dirs[name] == s.dirs[name])
  {
  }

  lemma ActFrames(c: Checks, s: State, id: nat)
    requires id in s.savers
    ensures Frames(s, Perform(c, s, id), id)
    ensures forall k :: Temp(k) in Perform(c, s, id).dirs ==> Temp(k) in s.dirs || k == id
  {
    var s' := Perform(c, s, id);
    assert s'.savers == s.savers[id := s'.savers[id]];
    forall k | k != id
      ensures (Temp(k) in s'.dirs <==> Temp(k) in s.dirs) && (Temp(k) in s.dirs ==> s'.dirs[Temp(k)] == s.dirs[Temp(k)])
    {
      ActTouches(c, s, id, Temp(k));
    }
  }

  lemma ActKeepsPublished(c: Checks, s: State, id: nat)
    requires Inv(c, s) && id in s.savers
    ensures PublishedKept(s, Perform(c, s, id))
  {
    var s' := Perform(c, s, id);
    forall name | name in s.dirs && name.Published?
      ensures name in s'.dirs && s'.dirs[name] == s.dirs[name]
    {
      if name == Goal(s.savers[id]) {
        GoalKept(c, s, id);
      } else {
        ActTouches(c, s, id, name);
      }
    }
  }

  /** A published goal is not empty, so no rename replaces it. */
  lemma GoalKept(c: Checks, s: State, id: nat)
    requires id in s.savers && Goal(s.savers[id]) in s.dirs && OneSaversFiles(c, s, Goal(s.savers[id]))
    ensures var goal := Goal(s.savers[id]);
            goal in Perform(c, s, id).dirs && Perform(c, s, id).dirs[goal] == s.dirs[goal]
  {
    assert s.dirs[Goal(s.savers[id])].code.Some?;
  }

  lemma ActReachesPhase(c: Checks, s: State, id: nat)
    requires id in s.savers && PhaseHolds(c, s, id)
    ensures id in Perform(c, s, id).savers && PhaseHolds(c, Perform(c, s, id), id)
  {
  }

  lemma KeptDirectoryStillOwned(c: Checks, s: State, s': State, name: DirName)
    requires name in s.dirs && OneSaversFiles(c, s, name) && name in s'.dirs && s'.dirs[name] == s.dirs[name]
    requires forall k :: k in s.savers && s.savers[k].phase.Done? ==> k in s'.savers && s'.savers[k] == s.savers[k]
    ensures OneSaversFiles(c, s', name)
  {
  }

  lemma DoneSaversStay(c: Checks, s: State, e: Event)
    ensures forall k :: k in s.savers && s.savers[k].phase.Done? ==>
              k in Next(c, s, e).savers && Next(c, s, e).savers[k] == s.savers[k]
  {
  }

  lemma NextKeepsPublished(c: Checks, s: State, e: Event)
    requires Inv(c, s)
    ensures PublishedKept(s, Next(c, s, e))
  {
    if e.Act? && e.id in s.savers {
      ActKeepsPublished(c, s, e.id);
    }
  }

  lemma NextKeepsPhases(c: Checks, s: State, e: Event, k: nat)
    requires Inv(c, s) && k in Next(c, s, e).savers
    ensures PhaseHolds(c, Next(c, s, e), k)
  {
    var s' := Next(c, s, e);
    NextKeepsPublished(c, s, e);
    assert k in s.savers ==> PhaseHolds(c, s, k);
    match e
    case Begin(id, _, _, _) =>
    case Act(id) =>
      if id in s.savers {
        ActFrames(c, s, id);
        if k == id {
          ActReachesPhase(c, s, id);
        } else {
          OthersUndisturbed(c, s, s', id, k);
        }
      }
    case Fault(id) =>
      if id in s.savers && k != id {
        OthersUndisturbed(c, s, s', id, k);
      }
  }

  lemma NextKeepsOwners(c: Checks, s: State, e: Event, name: DirName)
    requires Inv(c, s) && name in Next(c, s, e).dirs && name.Published?
    ensures OneSaversFiles(c, Next(c, s, e), name)
  {
    var s' := Next(c, s, e);
    DoneSaversStay(c, s, e);
    NextKeepsPublished(c, s, e);
    if name in s.dirs {
      KeptDirectoryStillOwned(c, s, s', name);
    } else {
      NextKeepsPhases(c, s, e, e.id);
      assert s'.savers[e.id].phase == Done(Saved);
    }
  }

  lemma NextKeepsInv(c: Checks, s: State, e: Event)
    requires Inv(c, s)
    ensures Inv(c, Next(c, s, e))
  {
    var s' := Next(c, s, e);
    if e.Act? && e.id in s.savers {
      ActFrames(c, s, e.id);
    }
    forall k | k in s'.savers
      ensures PhaseHolds(c, s', k)
    {
      NextKeepsPhases(c, s, e, k);
    }
    forall name | name in s'.dirs && name.Published?
      ensures OneSaversFiles(c, s', name)
    {
      NextKeepsOwners(c, s, e, name);
    }
  }

  lemma {:induction false} RunKeepsInv(c: Checks, events: seq<Event>)
    ensures Inv(c, Run(c, events))
  {
    if events != [] {
      RunKeepsInv(c, events[..|events| - 1]);
      NextKeepsInv(c, Run(c, events[..|events| - 1]), events[|events| - 1]);
    }
  }

  // ----- the theorems

  /** In every reachable store, a published directory is one saver's complete verified files. */
  lemma PublishedIsOneCompleteSave(c: Checks, events: seq<Event>, name: DirName)
    requires name in Run(c, events).dirs && name.Published?
    ensures var s := Run(c, events);
            exists k :: k in s.savers && s.savers[k].phase == Done(Saved) && SavedAs(c, s.savers[k], name, s.dirs[name])
  {
    RunKeepsInv(c, events);
    var s := Run(c, events);
    assert OneSaversFiles(c, s, name);
    var k :| Publisher(s, k, name) && Savable(c, s.savers[k]) && s.dirs[name] == Complete(s.savers[k].payload);
    VerifiedExactly(c, s.savers[k].artifact, s.savers[k].payload);
  }

  /** The directory holds all that the saver asked for under that name, vouched for by its envelope. */
  ghost predicate SavedAs(c: Checks, v: Saver, name: DirName, f: Files) {
    var p := v.payload;
    && name == Published(v.source, v.artifact) && HoldsAll(f, p) && p.code != ""
    && Vouched(c, v.artifact, p.envelope, p.code, p.source, p.astJson, p.sourceMap, p.frontend, p.support, p.astArtifact)
  }

  /** Once published, a directory never changes again. */
  lemma {:induction false} PublishedNeverChanges(c: Checks, before: seq<Event>, after: seq<Event>)
    ensures PublishedKept(Run(c, before), Run(c, before + after))
  {
    if after == [] {
      assert before + after == before;
    } else {
      var front := after[..|after| - 1];
      var all := before + after;
      assert all[..|all| - 1] == before + front;
      PublishedNeverChanges(c, before, front);
      LastEventKeepsPublished(c, all);
      KeptTransitive(Run(c, before), Run(c, before + front), Run(c, all));
    }
  }

  lemma LastEventKeepsPublished(c: Checks, events: seq<Event>)
    requires events != []
    ensures PublishedKept(Run(c, events[..|events| - 1]), Run(c, events))
  {
    RunKeepsInv(c, events[..|events| - 1]);
    NextKeepsPublished(c, Run(c, events[..|events| - 1]), events[|events| - 1]);
  }

  lemma KeptTransitive(s: State, t: State, u: State)
    requires PublishedKept(s, t) && PublishedKept(t, u)
    ensures PublishedKept(s, u)
  {
  }

  ghost predicate Finished(s: State, id: nat, outcome: Outcome) {
    id in s.savers && s.savers[id].phase == Done(outcome)
  }

  /** A saver that published reads its own artifact back, for ever after, exactly when its texts
      hold no carriage return. */
  lemma SavedReadsBack(c: Checks, before: seq<Event>, after: seq<Event>, id: nat)
    requires Finished(Run(c, before), id, Saved)
    ensures var v := Run(c, before).savers[id];
            var s := Run(c, before + after);
            && Goal(v) in s.dirs
            && (GetArtifact(c, v.artifact, s.dirs[Goal(v)]) == Ok(LoadedFrom(v.payload)) <==>
                '\r' !in v.payload.code && '\r' !in v.payload.source && '\r' !in v.payload.astJson)
  {
    var v := Run(c, before).savers[id];
    RunKeepsInv(c, before);
    assert PhaseHolds(c, Run(c, before), id);
    PublishedNeverChanges(c, before, after);
    assert Goal(v).Published?;
    ReadsBackExactly(c, v.artifact, v.payload);
  }

  /** A saver that found its envelope already there gets its own code, source and map from the
      store, and its own syntax tree when neither side carries a separate AST artifact. */
  lemma AlreadyThereReadsTheSame(c: Checks, events: seq<Event>, id: nat)
    requires Finished(Run(c, events), id, AlreadyThere)
    ensures var s := Run(c, events);
            var v := s.savers[id];
            && Goal(v) in s.dirs && GetArtifact(c, v.artifact, s.dirs[Goal(v)]).Ok?
            && var found := GetArtifact(c, v.artifact, s.dirs[Goal(v)]).value;
            && found.code == v.payload.code && found.source == v.payload.source
            && found.sourceMap == Some(v.payload.sourceMap) && found.envelope == Some(v.payload.envelope)
            && (v.payload.astArtifact.None? && found.astArtifact.None? ==>
                  c.parse(found.ast) == c.parse(v.payload.astJson))
  {
    RunKeepsInv(c, events);
    var s := Run(c, events);
    var v := s.savers[id];
    assert PhaseHolds(c, s, id);
    var f := s.dirs[Goal(v)];
    assert f.sourceMap.Some? && Verified(c, v.artifact, Reread(f));
  }

  // ----- what a stored artifact reads back as

  /** The stored tree still parses, and to the same tree where its digest is recorded. */
  predicate TreeReads(c: Checks, p: Payload) {
    && c.parse(Universal(p.astJson)).Some?
    && (p.astArtifact.None? ==> c.parse(Universal(p.astJson)) == c.parse(p.astJson))
  }

  predicate Readable(c: Checks, p: Payload) {
    '\r' !in p.code && '\r' !in p.source && TreeReads(c, p)
  }

  /** JSON allows a carriage return only between tokens, where a line feed means the same. */
  ghost predicate LineEndingsAreSpace(c: Checks) {
    forall text :: c.parse(text).Some? ==> c.parse(Universal(text)) == c.parse(text)
  }

  /** Exactly which saved artifacts can be read at all. */
  lemma ReadableExactly(c: Checks, id: string, p: Payload)
    requires Verified(c, id, p)
    ensures GetArtifact(c, id, Complete(p)).Ok? <==> Readable(c, p)
    ensures GetArtifact(c, id, Complete(p)).Ok? ==> GetArtifact(c, id, Complete(p)).value.envelope == Some(p.envelope)
    ensures LineEndingsAreSpace(c) ==> (Readable(c, p) <==> '\r' !in p.code && '\r' !in p.source)
  {
    UniversalKeepsExactly(p.code);
    UniversalKeepsExactly(p.source);
  }

  // ----- the exact outcome of a save

  lemma RunSnoc(c: Checks, events: seq<Event>, e: Event)
    ensures Run(c, events + [e]) == Next(c, Run(c, events), e)
  {
    assert (events + [e])[..|events|] == events;
  }

  /** A name has one publisher. */
  ghost predicate OnePublisher(s: State) {
    forall j, k, name :: Publisher(s, j, name) && Publisher(s, k, name) ==> j == k
  }

  lemma NextKeepsOnePublisher(c: Checks, s: State, e: Event)
    requires Inv(c, s) && OnePublisher(s)
    ensures OnePublisher(Next(c, s, e))
  {
    var s' := Next(c, s, e);
    forall j, k, name | Publisher(s', j, name) && Publisher(s', k, name)
      ensures j == k
    {
      NewPublisher(c, s, e, j, name);
      NewPublisher(c, s, e, k, name);
    }
  }

  /** A new publisher is the saver that acted, and the name was free. */
  lemma NewPublisher(c: Checks, s: State, e: Event, k: nat, name: DirName)
    requires Inv(c, s) && Publisher(Next(c, s, e), k, name)
    ensures Publisher(s, k, name) || (k == e.id && forall j :: !Publisher(s, j, name))
  {
    if !Publisher(s, k, name) {
      forall j
        ensures !Publisher(s, j, name)
      {
        assert j in s.savers ==> PhaseHolds(c, s, j);
      }
    }
  }

  lemma {:induction false} RunKeepsOnePublisher(c: Checks, events: seq<Event>)
    ensures OnePublisher(Run(c, events))
  {
    if events != [] {
      RunKeepsOnePublisher(c, events[..|events| - 1]);
      RunKeepsInv(c, events[..|events| - 1]);
      NextKeepsOnePublisher(c, Run(c, events[..|events| - 1]), events[|events| - 1]);
    }
  }

  /** No step of the saver raises on its own account. */
  ghost predicate Undisturbed(events: seq<Event>, id: nat) {
    Fault(id) !in events
  }

  ghost predicate SameRequest(v: Saver, w: Saver) {
    v.source == w.source && v.artifact == w.artifact && v.payload == w.payload
  }

  /** A saver that found its name free: still at work, or published, or beaten to it by another. */
  ghost predicate OnCourse(s: State, id: nat, v: Saver) {
    && id in s.savers && SameRequest(s.savers[id], v)
    && match s.savers[id].phase
       case Making => true
       case Writing(_) => true
       case Renaming => true
       case Done(o) => o == Saved || (o == Failed && exists k :: k != id && Publisher(s, k, Goal(v)))
       case Checking => false
  }

  lemma StaysOnCourse(c: Checks, s: State, e: Event, id: nat, v: Saver)
    requires Inv(c, s) && OnCourse(s, id, v) && e != Fault(id)
    ensures OnCourse(Next(c, s, e), id, v)
  {
    var s' := Next(c, s, e);
    if s.savers[id].phase.Done? {
      DoneSaversStay(c, s, e);
      if k :| k != id && Publisher(s, k, Goal(v)) {
        assert Publisher(s', k, Goal(v));
      }
    } else if e == Act(id) {
      ActStaysOnCourse(c, s, id, v);
    } else {
      OtherEventsLeave(c, s, e, id);
    }
  }

  lemma OtherEventsLeave(c: Checks, s: State, e: Event, id: nat)
    requires id in s.savers && e != Act(id) && e != Fault(id)
    ensures id in Next(c, s, e).savers && Next(c, s, e).savers[id] == s.savers[id]
  {
  }

  lemma ActStaysOnCourse(c: Checks, s: State, id: nat, v: Saver)
    requires Inv(c, s) && OnCourse(s, id, v) && !s.savers[id].phase.Done?
    ensures OnCourse(Perform(c, s, id), id, v)
  {
    assert PhaseHolds(c, s, id);
    if s.savers[id].phase.Renaming? && Goal(v) in s.dirs {
      assert OneSaversFiles(c, s, Goal(v));
      var k :| Publisher(s, k, Goal(v)) && s.dirs[Goal(v)] == Complete(s.savers[k].payload);
      assert k != id && s.dirs[Goal(v)] != EMPTY;
      assert Publisher(Perform(c, s, id), k, Goal(v));
    }
  }

  lemma {:induction false} RunOnCourse(c: Checks, before: seq<Event>, after: seq<Event>, id: nat, v: Saver)
    requires OnCourse(Run(c, before), id, v) && Undisturbed(after, id)
    ensures OnCourse(Run(c, before + after), id, v)
  {
    if after == [] {
      assert before + after == before;
    } else {
      var front, last := after[..|after| - 1], after[|after| - 1];
      assert before + after == before + front + [last];
      RunSnoc(c, before + front, last);
      RunOnCourse(c, before, front, id, v);
      RunKeepsInv(c, before + front);
      StaysOnCourse(c, Run(c, before + front), last, id, v);
    }
  }

  lemma {:induction false} DoneForEver(c: Checks, before: seq<Event>, after: seq<Event>, id: nat)
    requires id in Run(c, before).savers && Run(c, before).savers[id].phase.Done?
    ensures id in Run(c, before + after).savers && Run(c, before + after).savers[id] == Run(c, before).savers[id]
  {
    if after == [] {
      assert before + after == before;
    } else {
      var front, last := after[..|after| - 1], after[|after| - 1];
      assert before + after == before + front + [last];
      RunSnoc(c, before + front, last);
      DoneForEver(c, before, front, id);
      DoneSaversStay(c, Run(c, before + front), last);
    }
  }

  /** What the look at the store decides, given the published payload. */
  function Found(c: Checks, own: Payload, stored: Payload): Outcome {
    if !Readable(c, stored) then Failed else if stored.envelope == own.envelope then AlreadyThere else Conflict
  }

  /** The outcome of a save that raises nothing on its own account, from the state it first looks at,
      whatever else goes on: invalid exactly if its payload is; decided by the published payload if its
      name is taken; and if the name is free, saved exactly if no other saver publishes it, and failed
      otherwise, even when the other payload is the same. */
  lemma SaveOutcomeExactly(c: Checks, before: seq<Event>, after: seq<Event>, id: nat)
    requires id in Run(c, before).savers && Run(c, before).savers[id].phase == Checking
    requires Undisturbed(after, id)
    requires var s := Run(c, before + [Act(id)] + after); id in s.savers && s.savers[id].phase.Done?
    ensures var s0, s := Run(c, before), Run(c, before + [Act(id)] + after);
            var v := s0.savers[id];
            && SameRequest(s.savers[id], v)
            && (Finished(s, id, Invalid) <==> !Savable(c, v))
            && (Savable(c, v) && Goal(v) in s0.dirs ==>
                  exists k :: Publisher(s0, k, Goal(v)) && Finished(s, id, Found(c, v.payload, s0.savers[k].payload)))
            && (Savable(c, v) && Goal(v) !in s0.dirs ==>
                  && Goal(v) in s.dirs
                  && Finished(s, id, if exists k :: k != id && Publisher(s, k, Goal(v)) then Failed else Saved))
  {
    var s0, s := Run(c, before), Run(c, before + [Act(id)] + after);
    var v := s0.savers[id];
    assert (before + [Act(id)])[..|before|] == before;
    RunKeepsInv(c, before);
    RunKeepsInv(c, before + [Act(id)] + after);
    RunKeepsOnePublisher(c, before + [Act(id)] + after);
    if Savable(c, v) && Goal(v) !in s0.dirs {
      RunOnCourse(c, before + [Act(id)], after, id, v);
      FreeNameDecided(c, s, id, v);
    } else {
      DoneForEver(c, before + [Act(id)], after, id);
      if Savable(c, v) {
        TakenNameDecides(c, s0, id);
      }
    }
  }

  lemma FreeNameDecided(c: Checks, s: State, id: nat, v: Saver)
    requires Inv(c, s) && OnePublisher(s) && OnCourse(s, id, v) && s.savers[id].phase.Done?
    ensures Goal(v) in s.dirs
    ensures Finished(s, id, if exists k :: k != id && Publisher(s, k, Goal(v)) then Failed else Saved)
  {
    assert PhaseHolds(c, s, id);
    if k :| k != id && Publisher(s, k, Goal(v)) {
      assert PhaseHolds(c, s, k);
      assert !Publisher(s, id, Goal(v));
    }
  }

  lemma TakenNameDecides(c: Checks, s: State, id: nat)
    requires Inv(c, s) && id in s.savers && s.savers[id].phase == Checking
    requires Savable(c, s.savers[id]) && Goal(s.savers[id]) in s.dirs
    ensures var v := s.savers[id];
            exists k :: Publisher(s, k, Goal(v)) && Finished(Perform(c, s, id), id, Found(c, v.payload, s.savers[k].payload))
  {
    var v := s.savers[id];
    assert OneSaversFiles(c, s, Goal(v));
    var k :| Publisher(s, k, Goal(v)) && Savable(c, s.savers[k]) && s.dirs[Goal(v)] == Complete(s.savers[k].payload);
    ReadableExactly(c, v.artifact, s.savers[k].payload);
  }

  // ----- two savers racing for one name

  /** How many steps are left at most. */
  function Remaining(phase: Phase): nat {
    match phase
    case Checking => FILE_COUNT + 4
    case Making => FILE_COUNT + 3
    case Writing(k) => if k < FILE_COUNT then FILE_COUNT - k + 2 else 2
    case Renaming => 1
    case Done(_) => 0
  }

  function Acts(id: nat, n: nat): seq<Event> {
    seq(n, _ => Act(id))
  }

  lemma PerformAdvances(c: Checks, s: State, id: nat)
    requires id in s.savers
    ensures var s' := Perform(c, s, id);
            && s'.savers.Keys == s.savers.Keys
            && (forall k :: k in s.savers && k != id ==> s'.savers[k] == s.savers[k])
            && (Remaining(s'.savers[id].phase) < Remaining(s.savers[id].phase) || s'.savers[id].phase.Done?)
  {
    var s' := Perform(c, s, id);
    assert s'.savers == s.savers[id := s'.savers[id]];
  }

  lemma {:induction false} ActsFinish(c: Checks, events: seq<Event>, id: nat, n: nat)
    requires id in Run(c, events).savers
    ensures var s, s' := Run(c, events), Run(c, events + Acts(id, n));
            && s'.savers.Keys == s.savers.Keys
            && (forall k :: k in s.savers && k != id ==> s'.savers[k] == s.savers[k])
            && (Remaining(s'.savers[id].phase) + n <= Remaining(s.savers[id].phase) || s'.savers[id].phase.Done?)
  {
    if n == 0 {
      assert events + Acts(id, n) == events;
    } else {
      assert events + Acts(id, n) == events + Acts(id, n - 1) + [Act(id)];
      RunSnoc(c, events + Acts(id, n - 1), Act(id));
      ActsFinish(c, events, id, n - 1);
      PerformAdvances(c, Run(c, events + Acts(id, n - 1)), id);
    }
  }

  /** Two savers of one payload both find the name free, and then finish one after the other. */
  function Race(source: string, artifact: string, p: Payload): seq<Event> {
    BothChecked(source, artifact, p) + Acts(0, FILE_COUNT + 3) + Acts(1, FILE_COUNT + 3)
  }

  function BothChecked(source: string, artifact: string, p: Payload): seq<Event> {
    [Begin(0, source, artifact, p), Begin(1, source, artifact, p), Act(0), Act(1)]
  }

  lemma BothMaking(c: Checks, source: string, artifact: string, p: Payload)
    requires p.code != "" && Verified(c, artifact, p)
    ensures var v := Saver(source, artifact, p, Making);
            Run(c, BothChecked(source, artifact, p)) == State(map[0 := v, 1 := v], map[])
  {
    var e := BothChecked(source, artifact, p);
    var w, v := Saver(source, artifact, p, Checking), Saver(source, artifact, p, Making);
    assert e[..3][..2] == e[..2] && e[..2][..1] == e[..1] && e[..1][..0] == [];
    assert Run(c, e[..1]) == State(map[0 := w], map[]);
    assert Run(c, e[..2]) == State(map[0 := w, 1 := w], map[]);
    assert Run(c, e[..3]) == State(map[0 := v, 1 := w], map[]);
  }

  /** The loser of the race fails, although its own payload is what the store now holds. */
  lemma LosingTheRaceFails(c: Checks, source: string, artifact: string, p: Payload)
    requires p.code != "" && Verified(c, artifact, p)
    ensures var s := Run(c, Race(source, artifact, p));
            && Undisturbed(Race(source, artifact, p), 0) && Undisturbed(Race(source, artifact, p), 1)
            && Finished(s, 0, Saved) && Finished(s, 1, Failed) && s.savers[0] == s.savers[1].(phase := Done(Saved))
            && Published(source, artifact) in s.dirs && s.dirs[Published(source, artifact)] == Complete(p)
  {
    var e, v := BothChecked(source, artifact, p), Saver(source, artifact, p, Making);
    var first, second := Acts(0, FILE_COUNT + 3), Acts(1, FILE_COUNT + 3);
    BothMaking(c, source, artifact, p);
    FirstPublishes(c, e, first, v);
    DoneForEver(c, e + first, second, 0);
    ActsFinish(c, e + first, 1, FILE_COUNT + 3);
    RunOnCourse(c, e + first, second, 1, v);
    var s := Run(c, e + first + second);
    RunKeepsInv(c, e + first + second);
    RunKeepsOnePublisher(c, e + first + second);
    FreeNameDecided(c, s, 1, v);
    assert Publisher(s, 0, Goal(v));
    assert PhaseHolds(c, s, 0);
  }

  lemma FirstPublishes(c: Checks, e: seq<Event>, first: seq<Event>, v: Saver)
    requires Run(c, e) == State(map[0 := v, 1 := v], map[]) && v.phase == Making && first == Acts(0, FILE_COUNT + 3)
    ensures var s := Run(c, e + first);
            && s.savers.Keys == {0, 1} && s.savers[1] == v
            && Finished(s, 0, Saved) && SameRequest(s.savers[0], v)
  {
    ActsFinish(c, e, 0, FILE_COUNT + 3);
    RunOnCourse(c, e, first, 0, v);
    RunKeepsInv(c, e + first);
    RunKeepsOnePublisher(c, e + first);
    FreeNameDecided(c, Run(c, e + first), 0, v);
  }

  // ----- saving what is already there

  function Without(events: seq<Event>, id: nat): seq<Event> {
    if events == [] then []
    else
      var front, last := Without(events[..|events| - 1], id), events[|events| - 1];
      if last.id == id then front else front + [last]
  }

  /** `t` is `s` with saver `id` taken out, which so far left the directories alone. */
  ghost predicate Idle(s: State, t: State, id: nat) {
    && s.dirs == t.dirs && id in s.savers && id !in t.savers && s.savers == t.savers[id := s.savers[id]]
    && Temp(id) !in s.dirs && Goal(s.savers[id]) in s.dirs
    && (s.savers[id].phase == Checking || s.savers[id].phase.Done?)
  }

  lemma StaysIdle(c: Checks, s: State, t: State, e: Event, id: nat)
    requires Inv(c, s) && Idle(s, t, id)
    ensures Idle(Next(c, s, e), if e.id == id then t else Next(c, t, e), id)
  {
    if e.id == id {
      OwnStepIdle(c, s, e, id);
    } else {
      OtherStepSame(c, s, t, e, id);
      NextKeepsPublished(c, s, e);
      OtherEventsLeave(c, s, e, id);
      if e.Act? && e.id in s.savers {
        ActFrames(c, s, e.id);
      }
    }
  }

  lemma OwnStepIdle(c: Checks, s: State, e: Event, id: nat)
    requires id in s.savers && Temp(id) !in s.dirs && Goal(s.savers[id]) in s.dirs && e.id == id
    requires s.savers[id].phase == Checking || s.savers[id].phase.Done?
    ensures var s' := Next(c, s, e);
            && s'.dirs == s.dirs && id in s'.savers && s'.savers == s.savers[id := s'.savers[id]]
            && SameRequest(s'.savers[id], s.savers[id])
            && (s'.savers[id].phase == Checking || s'.savers[id].phase.Done?)
  {
    assert s.dirs - {Temp(id)} == s.dirs;
  }

  /** A step depends only on the saver's own record and the directories. */
  lemma PerformIsLocal(c: Checks, s: State, t: State, k: nat)
    requires k in s.savers && k in t.savers && s.savers[k] == t.savers[k] && s.dirs == t.dirs
    ensures var s', t' := Perform(c, s, k), Perform(c, t, k);
            && s'.dirs == t'.dirs && k in s'.savers && k in t'.savers && s'.savers[k] == t'.savers[k]
            && s'.savers == s.savers[k := s'.savers[k]] && t'.savers == t.savers[k := t'.savers[k]]
  {
  }

  lemma OtherStepSame(c: Checks, s: State, t: State, e: Event, id: nat)
    requires s.dirs == t.dirs && id in s.savers && id !in t.savers && s.savers == t.savers[id := s.savers[id]]
    requires e.id != id
    ensures var s', t' := Next(c, s, e), Next(c, t, e);
            && s'.dirs == t'.dirs && id in s'.savers && id !in t'.savers && s'.savers == t'.savers[id := s'.savers[id]]
  {
    if e.Act? && e.id in s.savers {
      PerformIsLocal(c, s, t, e.id);
    }
  }

  lemma BeginsIdle(c: Checks, s: State, begin: Event)
    requires Inv(c, s) && begin.Begin? && begin.id !in s.savers && Published(begin.source, begin.artifact) in s.dirs
    ensures Idle(Next(c, s, begin), s, begin.id)
  {
  }

  /** A saver whose name is already published changes nothing, faults included: without it the run has
      the same directories and does the same to every other saver. */
  lemma {:induction false} ResaveIsNoOp(c: Checks, before: seq<Event>, begin: Event, after: seq<Event>)
    requires begin.Begin? && begin.id !in Run(c, before).savers
    requires Published(begin.source, begin.artifact) in Run(c, before).dirs
    ensures Idle(Run(c, before + [begin] + after), Run(c, before + Without(after, begin.id)), begin.id)
  {
    if after == [] {
      assert before + [begin] + after == before + [begin] && before + Without(after, begin.id) == before;
      RunSnoc(c, before, begin);
      RunKeepsInv(c, before);
      BeginsIdle(c, Run(c, before), begin);
    } else {
      var front, last := after[..|after| - 1], after[|after| - 1];
      var with, without := before + [begin] + front, before + Without(front, begin.id);
      assert before + [begin] + after == with + [last];
      ResaveIsNoOp(c, before, begin, front);
      RunKeepsInv(c, with);
      StaysIdle(c, Run(c, with), Run(c, without), last, begin.id);
      RunSnoc(c, with, last);
      RunSnoc(c, without, last);
      assert before + Without(after, begin.id) == if last.id == begin.id then without else without + [last];
    }
  }

  lemma {:induction false} StillChecking(c: Checks, before: seq<Event>, wait: seq<Event>, id: nat)
    requires id in Run(c, before).savers && Act(id) !in wait && Fault(id) !in wait
    ensures id in Run(c, before + wait).savers && Run(c, before + wait).savers[id] == Run(c, before).savers[id]
  {
    if wait == [] {
      assert before + wait == before;
    } else {
      var front, last := wait[..|wait| - 1], wait[|wait| - 1];
      assert before + wait == before + front + [last];
      StillChecking(c, before, front, id);
      RunSnoc(c, before + front, last);
      OtherEventsLeave(c, Run(c, before + front), last, id);
    }
  }

  /** What comes of saving under a published name: it is taken for the published artifact exactly if
      that one can be read and has the same envelope. */
  lemma ResaveOutcomeExactly(c: Checks, before: seq<Event>, begin: Event, wait: seq<Event>, after: seq<Event>, k: nat)
    requires begin.Begin? && begin.id !in Run(c, before).savers
    requires Publisher(Run(c, before), k, Published(begin.source, begin.artifact))
    requires Act(begin.id) !in wait && Fault(begin.id) !in wait
    ensures var s := Run(c, before + [begin] + wait + [Act(begin.id)] + after);
            var stored := Run(c, before).savers[k].payload;
            && Finished(s, begin.id,
                        if begin.payload.code == "" || !Verified(c, begin.artifact, begin.payload) then Invalid
                        else Found(c, begin.payload, stored))
            && (LineEndingsAreSpace(c) ==>
                  (Found(c, begin.payload, stored) == AlreadyThere <==>
                   stored.envelope == begin.payload.envelope && '\r' !in stored.code && '\r' !in stored.source))
  {
    var id, prefix := begin.id, before + [begin] + wait;
    var s := Run(c, prefix);
    RunSnoc(c, before, begin);
    StillChecking(c, before + [begin], wait, id);
    assert prefix == before + ([begin] + wait);
    DoneForEver(c, before, [begin] + wait, k);
    RunKeepsInv(c, prefix);
    RunKeepsOnePublisher(c, prefix);
    assert Publisher(s, k, Goal(s.savers[id])) && PhaseHolds(c, s, k);
    if Savable(c, s.savers[id]) {
      TakenNameDecides(c, s, id);
    }
    RunSnoc(c, prefix, Act(id));
    DoneForEver(c, prefix + [Act(id)], after, id);
    ReadableExactly(c, s.savers[k].artifact, s.savers[k].payload);
  }

  /** A second save of a published payload with another tree text: rejected exactly if the text does
      not parse, or parses to another tree while no AST artifact is given. With an AST artifact no
      digest binds the tree text, so any tree is taken for the published one; and it is dropped. */
  lemma SecondTreeExactly(c: Checks, events: seq<Event>, first: nat, id: nat, other: string)
    requires Finished(Run(c, events), first, Saved) && id !in Run(c, events).savers
    ensures var v := Run(c, events).savers[first];
            var s := Run(c, events + [Begin(id, v.source, v.artifact, v.payload.(astJson := other)), Act(id)]);
            var bound := c.parse(other).Some? && (v.payload.astArtifact.Some? || c.parse(other) == c.parse(v.payload.astJson));
            && Finished(s, id, if !bound then Invalid else if Readable(c, v.payload) then AlreadyThere else Failed)
            && Goal(v) in s.dirs && s.dirs[Goal(v)] == Complete(v.payload)
  {
    var v := Run(c, events).savers[first];
    var begin := Begin(id, v.source, v.artifact, v.payload.(astJson := other));
    RunKeepsInv(c, events);
    assert PhaseHolds(c, Run(c, events), first);
    assert Publisher(Run(c, events), first, Goal(v));
    ResaveOutcomeExactly(c, events, begin, [], [], first);
    assert events + [begin] + [] + [Act(id)] + [] == events + [begin, Act(id)];
    PublishedNeverChanges(c, events, [begin, Act(id)]);
    assert Goal(v).Published?;
  }

  /** With an AST artifact no digest binds the stored tree text: a second save of the same envelope
      with another tree is taken for the first one, and its tree is dropped. */
  lemma SecondTreeIsDropped(c: Checks, events: seq<Event>, first: nat, id: nat, other: string)
    requires Finished(Run(c, events), first, Saved) && id !in Run(c, events).savers
    requires var p := Run(c, events).savers[first].payload;
             && p.astArtifact.Some? && c.parse(other).Some? && other != p.astJson
             && p.code != "" && '\r' !in p.code && '\r' !in p.source && '\r' !in p.astJson
    ensures var v := Run(c, events).savers[first];
            var s := Run(c, events + [Begin(id, v.source, v.artifact, v.payload.(astJson := other)), Act(id)]);
            && Finished(s, id, AlreadyThere) && Goal(v) in s.dirs
            && GetArtifact(c, v.artifact, s.dirs[Goal(v)]) == Ok(LoadedFrom(v.payload))
            && LoadedFrom(v.payload).ast != s.savers[id].payload.astJson
  {
    var v := Run(c, events).savers[first];
    SecondTreeExactly(c, events, first, id, other);
    RunKeepsInv(c, events);
    assert PhaseHolds(c, Run(c, events), first);
    ReadsBackExactly(c, v.artifact, v.payload);
    ReadableExactly(c, v.artifact, v.payload);
    SecondSaverRecorded(c, events, Begin(id, v.source, v.artifact, v.payload.(astJson := other)));
  }

  lemma SecondSaverRecorded(c: Checks, events: seq<Event>, begin: Event)
    requires begin.Begin? && begin.id !in Run(c, events).savers
    ensures var s := Run(c, events + [begin, Act(begin.id)]);
            begin.id in s.savers && s.savers[begin.id].payload == begin.payload
  {
    assert events + [begin, Act(begin.id)] == events + [begin] + [Act(begin.id)];
    RunSnoc(c, events, begin);
    RunSnoc(c, events + [begin], Act(begin.id));
    KeepsPayload(c, Run(c, events + [begin]), begin.id);
  }

  lemma KeepsPayload(c: Checks, s: State, id: nat)
    requires id in s.savers
    ensures id in Next(c, s, Act(id)).savers && Next(c, s, Act(id)).savers[id].payload == s.savers[id].payload
  {
  }
}
