/** Release candidate manifests and, for each script that makes or checks one, the rule it applies: the
    inputs it accepts and the manifest it produces, written out field by field. */
module StackRules {
  import opened Paths
  import opened Prelude
  import opened Requirements
  import opened Sorting

  // ----- JSON, formats and digests

  datatype Json =
    | Null
    | Bool(value: bool)
    | Number(number: int)
    | Str(text: string)
    | List(items: seq<Json>)
    | Obj(fields: map<Key, Json>)
    | Dict(entries: map<string, Json>)

  /** Field names of the manifest objects; `Other` is any further name. Objects whose keys are free
      text (components by name, schema hashes by id) are `Dict`s. */
  datatype Key =
    | Schema | Stage | Id | NotARelease | CreatedAt | Provenance | Admission | Components
    | WorkerPolicy | SchemaHashes | ManifestHash
    | Repo | Ref | Sha | Version | Wheel
    | Filename | Sha256
    | Builder | RunId
    | Capabilities | SemanticProfiles | FinalityPolicies | WarmupPolicies | ScorePolicies
    | Other(name: string)

  type Fields = map<Key, Json>

  type Rows = map<string, Json>

  type Bytes = seq<int>

  /** The regular expressions, the white-space test and the digests the scripts share. */
  datatype Env = Env(
    isSpace: char -> bool,
    isTimestamp: string -> bool,
    isRepository: string -> bool,
    isVersion: string -> bool,
    isSha40: string -> bool,
    isHash: string -> bool,           // ^sha256:[0-9a-f]{64}$
    isNonzeroHash: string -> bool,    // ^sha256:(?!0{64}$)[0-9a-f]{64}$
    manifestHash: Fields -> string,
    fileHash: Bytes -> string)

  /** The METADATA of a wheel. */
  datatype Metadata = Metadata(name: string, version: string, requires_: seq<string>)

  /** A file of the wheelhouse. An unreadable archive has no metadata; `schemas` lists the `$id` and
      the bytes of every contract schema, when all of them parse. */
  datatype WheelFile = WheelFile(bytes: Bytes, metadata: Option<Metadata>, schemas: Option<seq<(Json, Bytes)>>)

  type Directory = map<string, WheelFile>

  type WheelIdentity = (string, string, string)

  datatype Deployment = Deployment(
    stackId: string, manifestHash: string, wheels: seq<WheelIdentity>,
    schemaHashes: Rows, policies: map<Key, set<Json>>)

  // ----- fields

  ghost predicate Says(p: Fields, key: Key, text: string) {
    key in p && p[key] == Str(text)
  }

  ghost predicate SaysLike(p: Fields, key: Key, pattern: string -> bool) {
    key in p && p[key].Str? && pattern(p[key].text)
  }

  /** The field holds a character that is not white space. */
  ghost predicate SaysMore(env: Env, p: Fields, key: Key) {
    key in p && p[key].Str? && exists i :: 0 <= i < |p[key].text| && !env.isSpace(p[key].text[i])
  }

  ghost predicate SaysSomething(p: Fields, key: Key) {
    key in p && p[key].Str? && |p[key].text| > 0
  }

  ghost predicate HasRows(p: Fields, key: Key) {
    key in p && p[key].Dict? && exists n :: n in p[key].entries
  }

  /** The recorded hash is that of everything else. */
  ghost predicate SealHolds(env: Env, p: Fields) {
    Says(p, ManifestHash, env.manifestHash(map k | k in p && k != ManifestHash :: p[k]))
  }

  ghost predicate IsWheel(file: string) {
    |file| >= 4 && file[|file| - 4] == '.' && file[|file| - 3] == 'w' && file[|file| - 2] == 'h' && file[|file| - 1] == 'l'
  }

  /** Letters, digits, hyphens and underscores. */
  ghost predicate IsComponent(name: string) {
    |name| > 0 && forall i :: 0 <= i < |name| ==> InName(name[i]) && name[i] != '.'
  }

  ghost predicate HasProvenance(env: Env, j: Json) {
    j.Obj? && SaysMore(env, j.fields, Builder) && SaysMore(env, j.fields, RunId)
  }

  ghost predicate PolicyList(j: Json) {
    j.List? && |j.items| > 0 && forall i :: 0 <= i < |j.items| ==> j.items[i].Str? && |j.items[i].text| > 0
  }

  // ----- materialize_candidate

  ghost predicate TemplateRow(env: Env, name: string, row: Json, openpineSha: string) {
    && IsComponent(name) && row.Obj?
    && SaysLike(row.fields, Repo, env.isRepository) && SaysMore(env, row.fields, Ref)
    && SaysMore(env, row.fields, Version) && SaysLike(row.fields, Version, env.isVersion)
    && (if name == "openpine" then env.isSha40(openpineSha) else SaysLike(row.fields, Sha, env.isSha40))
  }

  ghost predicate TemplatePolicy(j: Json) {
    && j.Obj? && j.fields.Keys == {Capabilities, SemanticProfiles, FinalityPolicies, WarmupPolicies, ScorePolicies}
    && forall k :: k in j.fields ==>
         && PolicyList(j.fields[k])
         && forall a, b :: 0 <= a < b < |j.fields[k].items| ==> j.fields[k].items[a] != j.fields[k].items[b]
  }

  /** The templates that are materialized. */
  ghost predicate MaterializeRule(env: Env, template: Fields, openpineSha: string, createdAt: string, provenance: Json) {
    && Says(template, Schema, "openpine.stack-candidate-template.v1")
    && NotARelease in template && template[NotARelease] == Bool(true)
    && SaysMore(env, template, Id) && env.isTimestamp(createdAt) && HasProvenance(env, provenance)
    && Components in template && template[Components].Dict? && "openpine" in template[Components].entries
    && Admission in template && TemplatePolicy(template[Admission])
    && (forall n :: n in template[Components].entries ==> TemplateRow(env, n, template[Components].entries[n], openpineSha))
    && (WorkerPolicy in template ==> template[WorkerPolicy].Null? || template[WorkerPolicy].Obj?)
  }

  ghost predicate SourceRow(name: string, row: Fields, openpineSha: string, made: Json) {
    && made.Obj? && made.fields.Keys == {Repo, Ref, Sha, Version}
    && Repo in row && made.fields[Repo] == row[Repo] && Ref in row && made.fields[Ref] == row[Ref]
    && Version in row && made.fields[Version] == row[Version]
    && (if name == "openpine" then made.fields[Sha] == Str(openpineSha) else Sha in row && made.fields[Sha] == row[Sha])
  }

  ghost predicate SourceRowsFrom(template: Fields, openpineSha: string, made: Rows) {
    && Components in template && template[Components].Dict? && made.Keys == template[Components].entries.Keys
    && forall n :: n in made ==>
         template[Components].entries[n].Obj? && SourceRow(n, template[Components].entries[n].fields, openpineSha, made[n])
  }

  /** The fields of a source-stage manifest, and no others. */
  ghost predicate SourceFields(template: Fields, createdAt: string, provenance: Json, p: Fields) {
    && p.Keys == {Schema, Stage, Id, NotARelease, CreatedAt, Provenance, Admission, Components, ManifestHash}
                 + (if WorkerPolicy in template && !template[WorkerPolicy].Null? then {WorkerPolicy} else {})
    && Says(p, Schema, "openpine.stack-candidate.v2") && Says(p, Stage, "source") && p[NotARelease] == Bool(true)
    && Says(p, CreatedAt, createdAt) && p[Provenance] == provenance
    && Id in template && p[Id] == template[Id] && Admission in template && p[Admission] == template[Admission]
    && (WorkerPolicy in p ==> p[WorkerPolicy] == template[WorkerPolicy])
  }

  /** What is made of a template. */
  ghost predicate MaterializeResult(env: Env, template: Fields, openpineSha: string, createdAt: string, provenance: Json, p: Fields) {
    && SourceFields(template, createdAt, provenance, p)
    && p[Components].Dict? && SourceRowsFrom(template, openpineSha, p[Components].entries)
    && SealHolds(env, p)
  }

  // ----- finalize_candidate

  ghost predicate SourceRule(env: Env, p: Fields) {
    && Says(p, Schema, "openpine.stack-candidate.v2") && Says(p, Stage, "source")
    && NotARelease in p && p[NotARelease] == Bool(true)
    && SaysLike(p, ManifestHash, env.isHash) && SealHolds(env, p) && HasRows(p, Components)
  }

  ghost predicate Carries(row: Json, version: string) {
    row.Obj? && Says(row.fields, Version, version) && |version| > 0
  }

  ghost predicate NamesComponent(env: Env, raw: string, r: Reading, d: string) {
    ReadsAs(env.isSpace, raw, r) && r.name != "" && '\n' !in r.gap && '\n' !in r.spec && SameDistribution(r.name, d)
  }

  /** A requirement that names a component of the stack, in any spelling, pins its version. */
  ghost predicate StackPinned(env: Env, raw: string, components: Rows) {
    forall r, d, v :: NamesComponent(env, raw, r, d) && d in components && Carries(components[d], v) ==> Pins(r, v)
  }

  /** The wheel is the component's: its name and version, and every pin on the stack exact. */
  ghost predicate Suits(env: Env, components: Rows, c: string, file: WheelFile)
    requires c in components
  {
    && file.metadata.Some? && |file.metadata.value.name| > 0
    && SameDistribution(file.metadata.value.name, c)
    && Carries(components[c], file.metadata.value.version)
    && forall i :: 0 <= i < |file.metadata.value.requires_| ==> StackPinned(env, file.metadata.value.requires_[i], components)
  }

  /** No two components are one distribution, and wheels and components correspond one to one. */
  ghost predicate BindRule(env: Env, components: Rows, dir: Directory, wheelOf: map<string, string>) {
    && (forall a, b :: a in components && b in components && SameDistribution(a, b) ==> a == b)
    && wheelOf.Keys == components.Keys
    && (forall c :: c in components ==> wheelOf[c] in dir && IsWheel(wheelOf[c]) && Suits(env, components, c, dir[wheelOf[c]]))
    && (forall w :: w in dir && IsWheel(w) ==> exists c :: c in components && wheelOf[c] == w)
  }

  /** Schema ids are non-empty and all different, and the two required ones are among them. */
  ghost predicate SchemasRule(schemas: Option<seq<(Json, Bytes)>>) {
    && schemas.Some?
    && (forall i :: 0 <= i < |schemas.value| ==> schemas.value[i].0.Str? && |schemas.value[i].0.text| > 0)
    && (forall i, j :: 0 <= i < j < |schemas.value| ==> schemas.value[i].0 != schemas.value[j].0)
    && (exists i :: 0 <= i < |schemas.value| && schemas.value[i].0 == Str("openpine.run.v2"))
    && (exists i :: 0 <= i < |schemas.value| && schemas.value[i].0 == Str("openpine.worker.protocol.v2"))
  }

  ghost predicate ContractsWheel(dir: Directory, w: string) {
    && w in dir && IsWheel(w) && dir[w].metadata.Some? && SameDistribution(dir[w].metadata.value.name, "openpine-contracts")
    && SchemasRule(dir[w].schemas)
  }

  /** The manifests and wheelhouses that are finalized. */
  ghost predicate FinalizeRule(env: Env, source: Fields, dir: Directory) {
    && SourceRule(env, source)
    && SomeBinding(env, source[Components].entries, dir) && SomeContracts(dir)
  }

  ghost predicate SomeBinding(env: Env, components: Rows, dir: Directory) {
    exists wheelOf :: BindRule(env, components, dir, wheelOf)
  }

  ghost predicate SomeContracts(dir: Directory) {
    exists w :: ContractsWheel(dir, w)
  }

  /** The row as it was, with the name and the digest of its wheel. */
  ghost predicate BoundTo(env: Env, row: Json, dir: Directory, wheel: string, bound: Json) {
    && row.Obj? && bound.Obj? && bound.fields.Keys == row.fields.Keys + {Wheel}
    && (forall k :: k in row.fields && k != Wheel ==> bound.fields[k] == row.fields[k])
    && wheel in dir && bound.fields[Wheel].Obj? && bound.fields[Wheel].fields.Keys == {Filename, Sha256}
    && Says(bound.fields[Wheel].fields, Filename, wheel)
    && Says(bound.fields[Wheel].fields, Sha256, env.fileHash(dir[wheel].bytes))
  }

  ghost predicate HashesRecorded(env: Env, schemas: seq<(Json, Bytes)>, hashes: Rows) {
    && (forall i :: 0 <= i < |schemas| && schemas[i].0.Str? ==>
          schemas[i].0.text in hashes && hashes[schemas[i].0.text] == Str(env.fileHash(schemas[i].1)))
    && (forall id :: id in hashes ==> exists i :: 0 <= i < |schemas| && schemas[i].0 == Str(id))
  }

  ghost predicate RowsBound(env: Env, components: Rows, dir: Directory, wheelOf: map<string, string>, rows: Rows) {
    && rows.Keys == components.Keys == wheelOf.Keys
    && forall c :: c in rows ==> BoundTo(env, components[c], dir, wheelOf[c], rows[c])
  }

  /** What is made of a manifest and a wheelhouse. */
  ghost predicate FinalizeResult(env: Env, source: Fields, dir: Directory, wheelOf: map<string, string>, p: Fields) {
    && p.Keys == source.Keys + {Stage, Components, SchemaHashes, ManifestHash}
    && (forall k :: k in source && k !in {Stage, Components, SchemaHashes, ManifestHash} ==> p[k] == source[k])
    && Says(p, Stage, "wheel-bound") && SealHolds(env, p)
    && Components in source && source[Components].Dict? && p[Components].Dict?
    && RowsBound(env, source[Components].entries, dir, wheelOf, p[Components].entries)
    && p[SchemaHashes].Dict?
    && exists w :: ContractsWheel(dir, w) && HashesRecorded(env, dir[w].schemas.value, p[SchemaHashes].entries)
  }

  // ----- load_candidate

  /** The row's wheel, by a file name that is a wheel's and a digest. */
  ghost predicate WheelIs(row: Json, file: string, digest: string) {
    && row.Obj? && Wheel in row.fields && row.fields[Wheel].Obj?
    && Says(row.fields[Wheel].fields, Filename, file) && IsWheel(file)
    && Says(row.fields[Wheel].fields, Sha256, digest)
  }

  ghost predicate LoadRow(env: Env, name: string, row: Json, wheelBound: bool) {
    && IsComponent(name) && row.Obj?
    && SaysLike(row.fields, Repo, env.isRepository) && SaysMore(env, row.fields, Ref)
    && SaysLike(row.fields, Version, env.isVersion) && SaysLike(row.fields, Sha, env.isSha40)
    && (wheelBound ==> exists file, digest :: WheelIs(row, file, digest) && env.isHash(digest))
  }

  /** Equal but for hyphens and underscores. */
  ghost predicate SameOutput(a: string, b: string) {
    |a| == |b| && forall i :: 0 <= i < |a| ==> a[i] == b[i] || (a[i] == '-' && b[i] == '_') || (a[i] == '_' && b[i] == '-')
  }

  ghost predicate DistinctOutputs(names: set<string>) {
    forall a, b :: a in names && b in names && SameOutput(a, b) ==> a == b
  }

  ghost predicate LoadTitle(env: Env, p: Fields) {
    && Says(p, Schema, "openpine.stack-candidate.v2") && NotARelease in p && p[NotARelease] == Bool(true)
    && (Says(p, Stage, "source") || Says(p, Stage, "wheel-bound"))
    && SaysMore(env, p, Id) && SaysLike(p, CreatedAt, env.isTimestamp)
    && Provenance in p && HasProvenance(env, p[Provenance])
  }

  ghost predicate LoadHeader(env: Env, p: Fields) {
    && LoadTitle(env, p)
    && SaysLike(p, ManifestHash, env.isHash) && SealHolds(env, p) && HasRows(p, Components)
  }

  ghost predicate LoadRows(env: Env, rows: Rows, wheelBound: bool) {
    && (forall n :: n in rows ==> LoadRow(env, n, rows[n], wheelBound))
    && DistinctOutputs(rows.Keys)
  }

  ghost predicate LoadRule(env: Env, p: Fields) {
    LoadHeader(env, p) && LoadRows(env, p[Components].entries, Says(p, Stage, "wheel-bound"))
  }

  // ----- wheel_hashes_from_candidate and verify_local_hashes

  ghost predicate Installs(row: Json, file: string, digest: string) {
    WheelIs(row, file, digest) && |digest| == 71 && digest[..7] == "sha256:"
  }

  /** Every row names a wheel with its digest, no two the same file. */
  ghost predicate InstallRows(rows: Rows) {
    && (forall n :: n in rows ==> exists file, digest :: Installs(rows[n], file, digest))
    && (forall a, b, file, d, e :: a in rows && b in rows && Installs(rows[a], file, d) && Installs(rows[b], file, e) ==> a == b)
  }

  ghost predicate InstallRule(p: Fields) {
    Says(p, Stage, "wheel-bound") && HasRows(p, Components) && InstallRows(p[Components].entries)
  }

  /** File names to digests: what the rows say, and nothing else. */
  ghost predicate InstallResult(rows: Rows, hashes: map<string, string>) {
    && (forall n, file, digest :: n in rows && Installs(rows[n], file, digest) ==> file in hashes && hashes[file] == digest)
    && (forall file :: file in hashes ==> exists n :: n in rows && Installs(rows[n], file, hashes[file]))
  }

  ghost predicate LocalRule(env: Env, dir: Directory, hashes: map<string, string>) {
    && (exists w :: w in dir && IsWheel(w))
    && (forall w :: w in hashes <==> w in dir && IsWheel(w))
    && (forall w :: w in hashes ==> w in dir && |hashes[w]| > 0 && env.fileHash(dir[w].bytes) == hashes[w])
  }

  // ----- deployment_identity_from_candidate

  ghost predicate AdmitRow(env: Env, row: Json) {
    && row.Obj? && SaysSomething(row.fields, Version)
    && Wheel in row.fields && row.fields[Wheel].Obj? && SaysLike(row.fields[Wheel].fields, Sha256, env.isNonzeroHash)
  }

  ghost predicate AdmitHeader(env: Env, p: Fields) {
    && Says(p, Schema, "openpine.stack-candidate.v2") && Says(p, Stage, "wheel-bound") && SaysSomething(p, Id)
    && SaysLike(p, ManifestHash, env.isNonzeroHash) && SealHolds(env, p)
    && HasRows(p, Components) && HasRows(p, SchemaHashes) && Admission in p && p[Admission].Obj?
  }

  ghost predicate AdmitRows(env: Env, rows: Rows) {
    forall n :: n in rows ==> AdmitRow(env, rows[n])
  }

  ghost predicate AdmitSchemas(env: Env, hashes: Rows) {
    forall id :: id in hashes ==> |id| > 0 && hashes[id].Str? && env.isNonzeroHash(hashes[id].text)
  }

  ghost predicate AdmitPolicies(policy: Fields) {
    forall k :: k in {Capabilities, SemanticProfiles, FinalityPolicies, WarmupPolicies, ScorePolicies} ==>
      k in policy && PolicyList(policy[k])
  }

  ghost predicate AdmitRule(env: Env, p: Fields) {
    && AdmitHeader(env, p) && AdmitRows(env, p[Components].entries) && AdmitSchemas(env, p[SchemaHashes].entries)
    && AdmitPolicies(p[Admission].fields)
  }

  /** A name with the version and the wheel digest of its row. */
  ghost predicate Identity(components: Rows, w: WheelIdentity) {
    && w.0 in components && components[w.0].Obj? && Says(components[w.0].fields, Version, w.1)
    && Wheel in components[w.0].fields && components[w.0].fields[Wheel].Obj?
    && Says(components[w.0].fields[Wheel].fields, Sha256, w.2)
  }

  ghost predicate AdmitResult(p: Fields, d: Deployment) {
    && Says(p, Id, d.stackId) && Says(p, ManifestHash, d.manifestHash)
    && Components in p && p[Components].Dict?
    && (forall w :: w in d.wheels <==> Identity(p[Components].entries, w))
    && (forall i, j :: 0 <= i < j < |d.wheels| ==> d.wheels[i].0 != d.wheels[j].0 && LexLe(d.wheels[i].0, d.wheels[j].0))
    && SchemaHashes in p && p[SchemaHashes] == Dict(d.schemaHashes)
    && d.policies.Keys == {Capabilities, SemanticProfiles, FinalityPolicies, WarmupPolicies, ScorePolicies}
    && Admission in p && p[Admission].Obj?
    && forall k :: k in d.policies ==>
         k in p[Admission].fields && p[Admission].fields[k].List?
         && forall item :: item in d.policies[k] <==> item in p[Admission].fields[k].items
  }
}
