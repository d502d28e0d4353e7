/** The release candidate pipeline: scripts/materialize_stack_candidate.py and
    scripts/finalize_stack_candidate.py produce a manifest; scripts/resolve_stack_candidate.py,
    scripts/install_candidate_wheelhouse.py and openpine/admission.py each check it on their own. */
module StackCandidate {
  import opened Paths
  import opened Prelude
  import opened Requirements
  import opened Sorting
  import opened StackRules

  /** What matters of the patterns: a version is never empty, names hold no white space, and a nonzero digest is a digest, which
      has the prefix and length that the installer asks for. SHA-256 digests match and are never zero. */
  ghost predicate Sound(env: Env) {
    && !env.isVersion("") && NamesAreSolid(env.isSpace)
    && (forall s :: env.isNonzeroHash(s) ==> env.isHash(s))
    && (forall s :: env.isHash(s) ==> PrefixedDigest(s))
    && (forall f :: env.isNonzeroHash(env.manifestHash(f)))
    && (forall b :: env.isNonzeroHash(env.fileHash(b)))
  }

  /** `digest.startswith("sha256:") and len(digest) == 71` */
  predicate PrefixedDigest(s: string) {
    |s| == 71 && s[..7] == "sha256:"
  }

  const SCHEMA := "openpine.stack-candidate.v2"
  const TEMPLATE_SCHEMA := "openpine.stack-candidate-template.v1"

  /** `^[A-Za-z0-9_-]+$` */
  predicate IsComponentName(s: string) {
    s != "" && forall i :: 0 <= i < |s| ==>
      'A' <= s[i] <= 'Z' || 'a' <= s[i] <= 'z' || '0' <= s[i] <= '9' || s[i] == '_' || s[i] == '-'
  }

  predicate EndsWith(s: string, suffix: string) {
    |s| >= |suffix| && s[|s| - |suffix|..] == suffix
  }

  /** `dict.get` */
  function Get(o: Fields, key: Key): Json {
    if key in o then o[key] else Null
  }

  predicate NonEmptyText(j: Json) {
    j.Str? && j.text != ""
  }

  /** A string that is not empty after `strip()`. */
  predicate NonBlank(env: Env, j: Json) {
    j.Str? && exists i :: 0 <= i < |j.text| && !env.isSpace(j.text[i])
  }

  predicate Matches(j: Json, pattern: string -> bool) {
    j.Str? && pattern(j.text)
  }

  /** `candidate_manifest_hash`: everything but the recorded hash itself. */
  function HashOf(env: Env, payload: Fields): string {
    env.manifestHash(payload - {ManifestHash})
  }

  function Sealed(env: Env, payload: Fields): Fields {
    payload[ManifestHash := Str(HashOf(env, payload))]
  }

  predicate SealIntact(env: Env, payload: Fields) {
    Get(payload, ManifestHash) == Str(HashOf(env, payload))
  }

  lemma SealedIsIntact(env: Env, payload: Fields)
    requires Sound(env)
    ensures SealIntact(env, Sealed(env, payload))
    ensures Matches(Get(Sealed(env, payload), ManifestHash), env.isNonzeroHash)
    ensures Matches(Get(Sealed(env, payload), ManifestHash), env.isHash)
    ensures forall k :: k != ManifestHash ==> Get(Sealed(env, payload), k) == Get(payload, k)
  {
    assert Sealed(env, payload) - {ManifestHash} == payload - {ManifestHash};
  }

  // ----- names

  /** `name.replace("-", "_")` */
  function OutputKey(s: string): (r: string)
    ensures |r| == |s| && forall i :: 0 <= i < |s| ==> r[i] == if s[i] == '-' then '_' else s[i]
  {
    seq(|s|, i requires 0 <= i < |s| => if s[i] == '-' then '_' else s[i])
  }

  /** Components with the same CI output key are the same distribution. */
  lemma OutputKeyClashIsDistributionClash(a: string, b: string)
    requires OutputKey(a) == OutputKey(b)
    ensures NormalizeName(a) == NormalizeName(b)
  {
  }

  // ----- materialize

  const ADMISSION_LISTS: set<Key> :=
    {Capabilities, SemanticProfiles, FinalityPolicies, WarmupPolicies, ScorePolicies}

  predicate TextList(j: Json) {
    j.List? && j.items != [] && forall i :: 0 <= i < |j.items| ==> NonEmptyText(j.items[i])
  }

  predicate UniqueTextList(j: Json) {
    TextList(j) && forall i, k :: 0 <= i < k < |j.items| ==> j.items[i] != j.items[k]
  }

  predicate AdmissionPolicy(j: Json) {
    && j.Obj? && j.fields.Keys == ADMISSION_LISTS
    && forall k :: k in ADMISSION_LISTS ==> UniqueTextList(Get(j.fields, k))
  }

  predicate ProvenanceOk(env: Env, j: Json) {
    && j.Obj? && j.fields != map[]
    && NonBlank(env, Get(j.fields, Builder)) && NonBlank(env, Get(j.fields, RunId))
  }

  /** What both the producer and the resolver ask of a component row, `sha` aside. */
  predicate RowBasics(env: Env, row: Json) {
    && row.Obj?
    && Matches(Get(row.fields, Repo), env.isRepository)
    && NonBlank(env, Get(row.fields, Ref))
    && Matches(Get(row.fields, Version), env.isVersion)
  }

  predicate RowHasSha(env: Env, row: Json) {
    row.Obj? && Matches(Get(row.fields, Sha), env.isSha40)
  }

  predicate TemplateRowOk(env: Env, name: string, row: Json, openpineSha: string) {
    && IsComponentName(name) && RowBasics(env, row)
    && NonBlank(env, Get(row.fields, Version))
    && if name == "openpine" then env.isSha40(openpineSha) else RowHasSha(env, row)
  }

  function MaterializedRow(name: string, row: Fields, openpineSha: string): Json {
    Obj(map[Repo := Get(row, Repo), Ref := Get(row, Ref),
            Sha := (if name == "openpine" then Str(openpineSha) else Get(row, Sha)),
            Version := Get(row, Version)])
  }

  ghost predicate Materializable(env: Env, template: Fields, openpineSha: string, createdAt: string, provenance: Json) {
    && Get(template, Schema) == Str(TEMPLATE_SCHEMA)
    && Get(template, NotARelease) == Bool(true)
    && NonBlank(env, Get(template, Id))
    && env.isTimestamp(createdAt)
    && ProvenanceOk(env, provenance)
    && var components := Get(template, Components);
    && components.Dict? && "openpine" in components.entries
    && AdmissionPolicy(Get(template, Admission))
    && (forall n :: n in components.entries ==> TemplateRowOk(env, n, components.entries[n], openpineSha))
    && (Get(template, WorkerPolicy).Null? || Get(template, WorkerPolicy).Obj?)
  }

  function SourcePayload(template: Fields, createdAt: string, provenance: Json, components: Rows): Fields {
    var base := map[
      Schema := Str(SCHEMA), Stage := Str("source"), Id := Get(template, Id),
      NotARelease := Bool(true), CreatedAt := Str(createdAt), Provenance := provenance,
      Admission := Get(template, Admission), Components := Dict(components)];
    if Get(template, WorkerPolicy).Null? then base
    else base[WorkerPolicy := Get(template, WorkerPolicy)]
  }

  ghost predicate RowsMaterialized(source: Rows, openpineSha: string, made: Rows) {
    && made.Keys == source.Keys
    && forall n :: n in source ==> source[n].Obj? && made[n] == MaterializedRow(n, source[n].fields, openpineSha)
  }

  /** The shape of the component loops: every item is checked and its row collected; the first
      item that fails ends the loop. The order of the items does not matter. */
  method CheckedRows(components: Rows, ok: (string, Json) -> bool, make: (string, Json) -> Json)
    returns (r: Option<Rows>)
    ensures r.Some? <==> forall n :: n in components ==> ok(n, components[n])
    ensures r.Some? ==> r.value.Keys == components.Keys
    ensures r.Some? ==> forall n :: n in components ==> r.value[n] == make(n, components[n])
  {
    var made: Rows := map[];
    var remaining := components.Keys;
    while remaining != {}
      invariant remaining <= components.Keys && made.Keys == components.Keys - remaining
      invariant forall n :: n in made ==> ok(n, components[n]) && made[n] == make(n, components[n])
      decreases |remaining|
    {
      assert (forall n :: n !in remaining) ==> remaining == {};
      var name :| name in remaining;
      remaining := remaining - {name};
      if !ok(name, components[name]) {
        return None;
      }
      made := made[name := make(name, components[name])];
    }
    r := Some(made);
  }

  lemma TemplateRowExactly(env: Env, name: string, row: Json, openpineSha: string)
    ensures TemplateRowOk(env, name, row, openpineSha) <==> TemplateRow(env, name, row, openpineSha)
  {
  }

  lemma PolicyExactly(j: Json)
    ensures AdmissionPolicy(j) <==> TemplatePolicy(j)
  {
  }

  lemma MaterializableExactly(env: Env, template: Fields, openpineSha: string, createdAt: string, provenance: Json)
    ensures Materializable(env, template, openpineSha, createdAt, provenance)
       <==> MaterializeRule(env, template, openpineSha, createdAt, provenance)
  {
    PolicyExactly(Get(template, Admission));
    if Get(template, Components).Dict? {
      var rows := Get(template, Components).entries;
      forall n | n in rows
        ensures TemplateRowOk(env, n, rows[n], openpineSha) <==> TemplateRow(env, n, rows[n], openpineSha)
      {
        TemplateRowExactly(env, n, rows[n], openpineSha);
      }
    }
  }

  lemma SealedHolds(env: Env, payload: Fields)
    ensures SealHolds(env, Sealed(env, payload))
  {
    var p := Sealed(env, payload);
    assert (map k | k in p && k != ManifestHash :: p[k]) == payload - {ManifestHash};
  }

  lemma SealIntactExactly(env: Env, p: Fields)
    ensures SealIntact(env, p) <==> SealHolds(env, p)
  {
    assert (map k | k in p && k != ManifestHash :: p[k]) == p - {ManifestHash};
  }

  lemma MaterializedRowsAre(env: Env, template: Fields, openpineSha: string, createdAt: string, provenance: Json, made: Rows)
    requires MaterializeRule(env, template, openpineSha, createdAt, provenance)
    requires RowsMaterialized(Get(template, Components).entries, openpineSha, made)
    ensures SourceRowsFrom(template, openpineSha, made)
  {
    forall n | n in made
      ensures template[Components].entries[n].Obj? && SourceRow(n, template[Components].entries[n].fields, openpineSha, made[n])
    {
      assert TemplateRow(env, n, template[Components].entries[n], openpineSha);
    }
  }

  lemma MaterializedIs(env: Env, template: Fields, openpineSha: string, createdAt: string, provenance: Json, made: Rows)
    requires MaterializeRule(env, template, openpineSha, createdAt, provenance)
    requires RowsMaterialized(Get(template, Components).entries, openpineSha, made)
    ensures MaterializeResult(env, template, openpineSha, createdAt, provenance,
                              Sealed(env, SourcePayload(template, createdAt, provenance, made)))
  {
    MaterializedRowsAre(env, template, openpineSha, createdAt, provenance, made);
    SealedHolds(env, SourcePayload(template, createdAt, provenance, made));
    SourceFieldsAre(template, createdAt, provenance, made, Str(HashOf(env, SourcePayload(template, createdAt, provenance, made))));
  }

  lemma SourceFieldsAre(template: Fields, createdAt: string, provenance: Json, made: Rows, seal: Json)
    requires Id in template && Admission in template
    ensures var p := SourcePayload(template, createdAt, provenance, made)[ManifestHash := seal];
            SourceFields(template, createdAt, provenance, p) && p[Components] == Dict(made)
  {
  }

  /** Succeeds exactly on a complete template; the payload is sealed and at source stage. */
  method MaterializeCandidate(env: Env, template: Fields, openpineSha: string, createdAt: string, provenance: Json)
    returns (r: Option<Fields>, ghost components: Rows)
    ensures r.Some? <==> MaterializeRule(env, template, openpineSha, createdAt, provenance)
    ensures r.Some? ==> MaterializeResult(env, template, openpineSha, createdAt, provenance, r.value)
    ensures r.Some? ==>
              && RowsMaterialized(Get(template, Components).entries, openpineSha, components)
              && r.value == Sealed(env, SourcePayload(template, createdAt, provenance, components))
  {
    components := map[];
    MaterializableExactly(env, template, openpineSha, createdAt, provenance);
    if Get(template, Schema) != Str(TEMPLATE_SCHEMA) || Get(template, NotARelease) != Bool(true)
       || !NonBlank(env, Get(template, Id)) || !env.isTimestamp(createdAt) || !ProvenanceOk(env, provenance) {
      return None, components;
    }
    var raw := Get(template, Components);
    if !raw.Dict? || "openpine" !in raw.entries || !AdmissionPolicy(Get(template, Admission)) {
      return None, components;
    }
    var made := CheckedRows(raw.entries,
                            (n: string, row: Json) => TemplateRowOk(env, n, row, openpineSha),
                            (n: string, row: Json) => if row.Obj? then MaterializedRow(n, row.fields, openpineSha) else row);
    if made.None? {
      return None, components;
    }
    components := made.value;
    if !Get(template, WorkerPolicy).Null? && !Get(template, WorkerPolicy).Obj? {
      return None, components;
    }
    MaterializedIs(env, template, openpineSha, createdAt, provenance, made.value);
    r := Some(Sealed(env, SourcePayload(template, createdAt, provenance, made.value)));
  }

  // ----- indexing with a duplicate check

  ghost predicate Injective(names: set<string>, key: string -> string) {
    forall a, b :: a in names && b in names && key(a) == key(b) ==> a == b
  }

  ghost predicate IndexOf(names: set<string>, key: string -> string, index: map<string, string>) {
    && (forall n :: n in names ==> key(n) in index && index[key(n)] == n)
    && (forall d :: d in index ==> index[d] in names && key(index[d]) == d)
  }

  /** The shape of the loops that fill a dictionary and reject a repeated key. */
  method IndexBy(names: set<string>, ok: string -> bool, key: string -> string) returns (r: Option<map<string, string>>)
    ensures r.Some? <==> (forall n :: n in names ==> ok(n)) && Injective(names, key)
    ensures r.Some? ==> IndexOf(names, key, r.value)
  {
    var index: map<string, string> := map[];
    var remaining := names;
    while remaining != {}
      invariant remaining <= names && IndexOf(names - remaining, key, index)
      invariant forall n :: n in names - remaining ==> ok(n)
      decreases |remaining|
    {
      assert (forall n :: n !in remaining) ==> remaining == {};
      var name :| name in remaining;
      if !ok(name) || key(name) in index {
        return None;
      }
      remaining, index := remaining - {name}, index[key(name) := name];
    }
    assert names - remaining == names;
    r := Some(index);
  }

  // ----- finalize

  /** `glob("*.whl")` */
  function WheelNames(dir: Directory): set<string> {
    set w | w in dir && EndsWith(w, ".whl")
  }

  function Distribution(dir: Directory): string -> string {
    (w: string) => if w in dir && dir[w].metadata.Some? then NormalizeName(dir[w].metadata.value.name) else ""
  }

  /** A requirement on another distribution of the stack pins exactly that distribution's version. */
  predicate RequirementExact(env: Env, raw: string, versions: map<string, string>) {
    (Dependency(env.isSpace, raw).Some? && Dependency(env.isSpace, raw).value in versions) ==>
      PinnedTo(env.isSpace, raw, versions[Dependency(env.isSpace, raw).value])
  }

  predicate RequirementsExact(env: Env, requirements: seq<string>, versions: map<string, string>) {
    forall i :: 0 <= i < |requirements| ==> RequirementExact(env, requirements[i], versions)
  }

  predicate HasVersion(row: Json) {
    row.Obj? && NonEmptyText(Get(row.fields, Version))
  }

  function VersionOf(components: Rows, name: string): string {
    if name in components && HasVersion(components[name]) then Get(components[name].fields, Version).text else ""
  }

  function Versions(components: Rows, index: map<string, string>): map<string, string> {
    map d | d in index :: VersionOf(components, index[d])
  }

  /** The wheel carries the component's version, and pins the stack exactly. */
  predicate WheelFits(env: Env, dir: Directory, wheel: string, version: string, versions: map<string, string>) {
    && wheel in dir && dir[wheel].metadata.Some?
    && dir[wheel].metadata.value.version == version
    && RequirementsExact(env, dir[wheel].metadata.value.requires_, versions)
  }

  function BoundRow(env: Env, row: Json, dir: Directory, wheel: string): Json {
    if row.Obj? && wheel in dir then
      Obj(row.fields[Wheel := Obj(map[Filename := Str(wheel), Sha256 := Str(env.fileHash(dir[wheel].bytes))])])
    else row
  }

  const REQUIRED_SCHEMAS: set<string> := {"openpine.run.v2", "openpine.worker.protocol.v2"}

  /** The first `n` schema ids are non-empty strings and all different. */
  ghost predicate GoodIds(schemas: seq<(Json, Bytes)>, n: nat)
    requires n <= |schemas|
  {
    && (forall i :: 0 <= i < n ==> NonEmptyText(schemas[i].0))
    && (forall i, j :: 0 <= i < j < n ==> schemas[i].0 != schemas[j].0)
  }

  ghost predicate ListsId(schemas: seq<(Json, Bytes)>, n: nat, id: string)
    requires n <= |schemas|
  {
    exists i :: 0 <= i < n && schemas[i].0 == Str(id)
  }

  ghost predicate SchemasOk(schemas: Option<seq<(Json, Bytes)>>) {
    && schemas.Some? && GoodIds(schemas.value, |schemas.value|)
    && forall id :: id in REQUIRED_SCHEMAS ==> ListsId(schemas.value, |schemas.value|, id)
  }

  ghost predicate SchemaHashesOf(env: Env, schemas: seq<(Json, Bytes)>, n: nat, hashes: Rows)
    requires n <= |schemas|
  {
    && (forall id :: id in hashes <==> ListsId(schemas, n, id))
    && (forall i :: 0 <= i < n ==>
          schemas[i].0.Str? && schemas[i].0.text in hashes
          && hashes[schemas[i].0.text] == Str(env.fileHash(schemas[i].1)))
  }

  lemma SchemaHashesStep(env: Env, schemas: seq<(Json, Bytes)>, n: nat, hashes: Rows)
    requires n < |schemas| && SchemaHashesOf(env, schemas, n, hashes) && GoodIds(schemas, n)
    ensures NonEmptyText(schemas[n].0) && schemas[n].0.text !in hashes <==> GoodIds(schemas, n + 1)
    ensures GoodIds(schemas, n + 1) ==>
              SchemaHashesOf(env, schemas, n + 1, hashes[schemas[n].0.text := Str(env.fileHash(schemas[n].1))])
  {
  }

  /** `_contract_schema_hashes` */
  method ContractSchemaHashes(env: Env, schemas: Option<seq<(Json, Bytes)>>) returns (r: Option<Rows>)
    ensures r.Some? <==> SchemasOk(schemas)
    ensures r.Some? ==> SchemaHashesOf(env, schemas.value, |schemas.value|, r.value)
  {
    if schemas.None? {
      return None;
    }
    var rows := schemas.value;
    var hashes: Rows := map[];
    for i := 0 to |rows|
      invariant SchemaHashesOf(env, rows, i, hashes) && GoodIds(rows, i)
    {
      SchemaHashesStep(env, rows, i, hashes);
      if !NonEmptyText(rows[i].0) || rows[i].0.text in hashes {
        return None;
      }
      hashes := hashes[rows[i].0.text := Str(env.fileHash(rows[i].1))];
    }
    if !(REQUIRED_SCHEMAS <= hashes.Keys) {
      return None;
    }
    r := Some(hashes);
  }

  predicate IsSourceStage(env: Env, source: Fields) {
    && Get(source, Schema) == Str(SCHEMA) && Get(source, Stage) == Str("source")
    && Get(source, NotARelease) == Bool(true)
    && Matches(Get(source, ManifestHash), env.isHash) && SealIntact(env, source)
    && Get(source, Components).Dict? && Get(source, Components).entries != map[]
  }

  /** A one-to-one correspondence of names and wheels with equal keys. */
  ghost predicate Pairing(names: set<string>, wheels: set<string>, nameKey: string -> string, wheelKey: string -> string,
                          wheelOf: map<string, string>) {
    && wheelOf.Keys == names
    && (forall c :: c in names ==> wheelOf[c] in wheels && wheelKey(wheelOf[c]) == nameKey(c))
    && (forall a, b :: a in names && b in names && wheelOf[a] == wheelOf[b] ==> a == b)
    && (forall w :: w in wheels ==> exists c :: c in names && wheelOf[c] == w)
  }

  /** Component and wheel names are sound and distinct up to their keys, the keys are the same on
      both sides, and the paired wheels fit. `byName` finds a component by its key. */
  ghost predicate CanBind(names: set<string>, wheels: set<string>, nameOk: string -> bool, wheelOk: string -> bool,
                          nameKey: string -> string, wheelKey: string -> string, fits: Fit,
                          byName: map<string, string>, wheelOf: map<string, string>) {
    && (forall n :: n in names ==> nameOk(n)) && (forall w :: w in wheels ==> wheelOk(w))
    && Injective(wheels, wheelKey)
    && IndexOf(names, nameKey, byName)
    && Pairing(names, wheels, nameKey, wheelKey, wheelOf)
    && forall c :: c in names ==> fits(byName, c, wheelOf[c])
  }

  type Fit = (map<string, string>, string, string) -> bool

  function HasVersionIn(components: Rows): string -> bool {
    (n: string) => n in components && HasVersion(components[n])
  }

  function HasMetadataIn(dir: Directory): string -> bool {
    (w: string) => w in dir && dir[w].metadata.Some? && dir[w].metadata.value.name != "" && dir[w].metadata.value.version != ""
  }

  /** The wheel has its component's version and pins the rest of the stack exactly. */
  function Fits(env: Env, components: Rows, dir: Directory): Fit {
    (byName: map<string, string>, c: string, w: string) =>
      WheelFits(env, dir, w, VersionOf(components, c), Versions(components, byName))
  }

  ghost predicate Binds(env: Env, components: Rows, dir: Directory, byName: map<string, string>, wheelOf: map<string, string>) {
    CanBind(components.Keys, WheelNames(dir), HasVersionIn(components), HasMetadataIn(dir),
            NormalizeName, Distribution(dir), Fits(env, components, dir), byName, wheelOf)
  }

  const CONTRACTS := "openpine-contracts"

  ghost predicate IsContracts(dir: Directory, w: string) {
    w in WheelNames(dir) && Distribution(dir)(w) == CONTRACTS
  }

  ghost predicate Bindable(env: Env, source: Fields, dir: Directory) {
    && IsSourceStage(env, source)
    && HasBinding(env, Get(source, Components).entries, dir)
    && HasContracts(dir)
  }

  ghost predicate HasBinding(env: Env, components: Rows, dir: Directory) {
    exists byName, wheelOf :: Binds(env, components, dir, byName, wheelOf)
  }

  ghost function BoundRows(components: Rows, bind: (Json, string) -> Json, wheelOf: map<string, string>): Rows
    requires components.Keys <= wheelOf.Keys
  {
    map c | c in components :: bind(components[c], wheelOf[c])
  }

  function Bind(env: Env, dir: Directory): (Json, string) -> Json {
    (row: Json, wheel: string) => BoundRow(env, row, dir, wheel)
  }

  /** The finalized manifest: the source manifest with its stage, wheels and schema hashes, resealed. */
  function FinalPayload(env: Env, source: Fields, bound: Rows, hashes: Rows): Fields {
    Sealed(env, BoundPayload(source, bound, hashes))
  }

  ghost predicate WheelBound(env: Env, source: Fields, dir: Directory, byName: map<string, string>,
                             wheelOf: map<string, string>, hashes: Rows, payload: Fields) {
    && Get(source, Components).Dict?
    && var components := Get(source, Components).entries;
    && Binds(env, components, dir, byName, wheelOf)
    && ContractHashes(env, dir, hashes)
    && payload == FinalPayload(env, source, BoundRows(components, Bind(env, dir), wheelOf), hashes)
  }

  lemma PairingUnique(names: set<string>, wheels: set<string>, nameKey: string -> string, wheelKey: string -> string,
                      a: map<string, string>, b: map<string, string>)
    requires Pairing(names, wheels, nameKey, wheelKey, a) && Pairing(names, wheels, nameKey, wheelKey, b)
    requires Injective(wheels, wheelKey)
    ensures a == b
  {
  }

  /** Two indexes with the same keys give the pairing, and without that there is none. */
  lemma IndexesPair(names: set<string>, wheels: set<string>, nameKey: string -> string, wheelKey: string -> string,
                    byName: map<string, string>, byWheel: map<string, string>)
    requires IndexOf(names, nameKey, byName) && IndexOf(wheels, wheelKey, byWheel)
    ensures byName.Keys == byWheel.Keys ==>
              Pairing(names, wheels, nameKey, wheelKey, map c | c in names :: byWheel[nameKey(c)])
    ensures (exists wheelOf :: Pairing(names, wheels, nameKey, wheelKey, wheelOf)) ==> byName.Keys == byWheel.Keys
  {
  }

  lemma IndexUnique(names: set<string>, key: string -> string, a: map<string, string>, b: map<string, string>)
    requires IndexOf(names, key, a) && IndexOf(names, key, b)
    ensures a == b
  {
  }

  /** The conditions of a binding other than the fit of its pairs. */
  ghost predicate Pairable(names: set<string>, wheels: set<string>, nameOk: string -> bool, wheelOk: string -> bool,
                           nameKey: string -> string, wheelKey: string -> string) {
    && (forall n :: n in names ==> nameOk(n)) && Injective(names, nameKey)
    && (forall w :: w in wheels ==> wheelOk(w)) && Injective(wheels, wheelKey)
    && exists wheelOf :: Pairing(names, wheels, nameKey, wheelKey, wheelOf)
  }

  /** Indexes components and wheels by distribution and compares the two key sets. */
  method PairUp(names: set<string>, wheels: set<string>, nameOk: string -> bool, wheelOk: string -> bool,
                nameKey: string -> string, wheelKey: string -> string)
    returns (paired: bool, byName: map<string, string>, byWheel: map<string, string>)
    ensures paired <==> Pairable(names, wheels, nameOk, wheelOk, nameKey, wheelKey)
    ensures paired ==> IndexOf(names, nameKey, byName) && IndexOf(wheels, wheelKey, byWheel)
    ensures paired ==> byName.Keys == byWheel.Keys
  {
    byName, byWheel := map[], map[];
    var nameIndex := IndexBy(names, nameOk, nameKey);
    if nameIndex.None? {
      return false, byName, byWheel;
    }
    var wheelIndex := IndexBy(wheels, wheelOk, wheelKey);
    if wheelIndex.None? {
      return false, byName, byWheel;
    }
    byName, byWheel := nameIndex.value, wheelIndex.value;
    IndexesPair(names, wheels, nameKey, wheelKey, byName, byWheel);
    paired := byName.Keys == byWheel.Keys;
  }

  lemma CanBindMeansPairable(names: set<string>, wheels: set<string>, nameOk: string -> bool, wheelOk: string -> bool,
                             nameKey: string -> string, wheelKey: string -> string, fits: Fit,
                             byName: map<string, string>, wheelOf: map<string, string>)
    requires CanBind(names, wheels, nameOk, wheelOk, nameKey, wheelKey, fits, byName, wheelOf)
    ensures Pairable(names, wheels, nameOk, wheelOk, nameKey, wheelKey)
  {
  }

  /** The index and the pairing are unique, so whether a binding exists is whether this one fits. */
  lemma OnlyBinding(names: set<string>, wheels: set<string>, nameOk: string -> bool, wheelOk: string -> bool,
                    nameKey: string -> string, wheelKey: string -> string, fits: Fit,
                    byName: map<string, string>, wheelOf: map<string, string>)
    requires Pairable(names, wheels, nameOk, wheelOk, nameKey, wheelKey)
    requires IndexOf(names, nameKey, byName) && Pairing(names, wheels, nameKey, wheelKey, wheelOf)
    ensures (exists n, w :: CanBind(names, wheels, nameOk, wheelOk, nameKey, wheelKey, fits, n, w))
            <==> forall c :: c in names ==> fits(byName, c, wheelOf[c])
  {
    if n, w :| CanBind(names, wheels, nameOk, wheelOk, nameKey, wheelKey, fits, n, w) {
      IndexUnique(names, nameKey, byName, n);
      PairingUnique(names, wheels, nameKey, wheelKey, wheelOf, w);
    }
    if forall c :: c in names ==> fits(byName, c, wheelOf[c]) {
      assert CanBind(names, wheels, nameOk, wheelOk, nameKey, wheelKey, fits, byName, wheelOf);
    }
  }

  /** The loop that checks each wheel and records its identity in the component row. */
  method BindRows(rows: Rows, byName: map<string, string>, byWheel: map<string, string>, nameKey: string -> string,
                  fits: Fit, bind: (Json, string) -> Json, ghost wheelOf: map<string, string>)
    returns (r: Option<Rows>)
    requires wheelOf.Keys == rows.Keys
    requires forall c :: c in rows ==> nameKey(c) in byWheel && wheelOf[c] == byWheel[nameKey(c)]
    ensures r.Some? <==> forall c :: c in rows ==> fits(byName, c, wheelOf[c])
    ensures r.Some? ==> r.value == BoundRows(rows, bind, wheelOf)
  {
    var wheelNamed := (c: string) => if nameKey(c) in byWheel then byWheel[nameKey(c)] else "";
    r := CheckedRows(rows, (c: string, row: Json) => fits(byName, c, wheelNamed(c)),
                     (c: string, row: Json) => bind(row, wheelNamed(c)));
  }

  method BindComponents(rows: Rows, wheels: set<string>, nameOk: string -> bool, wheelOk: string -> bool,
                        nameKey: string -> string, wheelKey: string -> string, fits: Fit, bind: (Json, string) -> Json)
    returns (r: Option<Rows>, byWheel: map<string, string>, ghost byName: map<string, string>, ghost wheelOf: map<string, string>)
    ensures r.Some? <==>
              exists n, w :: CanBind(rows.Keys, wheels, nameOk, wheelOk, nameKey, wheelKey, fits, n, w)
    ensures r.Some? ==>
              && CanBind(rows.Keys, wheels, nameOk, wheelOk, nameKey, wheelKey, fits, byName, wheelOf)
              && r.value == BoundRows(rows, bind, wheelOf)
              && IndexOf(wheels, wheelKey, byWheel)
  {
    var paired, index;
    paired, index, byWheel := PairUp(rows.Keys, wheels, nameOk, wheelOk, nameKey, wheelKey);
    byName, wheelOf := index, map[];
    if !paired {
      forall n, w | CanBind(rows.Keys, wheels, nameOk, wheelOk, nameKey, wheelKey, fits, n, w)
        ensures false
      {
        CanBindMeansPairable(rows.Keys, wheels, nameOk, wheelOk, nameKey, wheelKey, fits, n, w);
      }
      return None, byWheel, byName, wheelOf;
    }
    IndexesPair(rows.Keys, wheels, nameKey, wheelKey, index, byWheel);
    wheelOf := map c | c in rows.Keys :: byWheel[nameKey(c)];
    OnlyBinding(rows.Keys, wheels, nameOk, wheelOk, nameKey, wheelKey, fits, byName, wheelOf);
    r := BindRows(rows, index, byWheel, nameKey, fits, bind, wheelOf);
  }

  ghost predicate HasContracts(dir: Directory) {
    exists w :: IsContracts(dir, w) && SchemasOk(dir[w].schemas)
  }

  ghost predicate ContractHashes(env: Env, dir: Directory, hashes: Rows) {
    exists w :: IsContracts(dir, w) && SchemasOk(dir[w].schemas)
      && SchemaHashesOf(env, dir[w].schemas.value, |dir[w].schemas.value|, hashes)
  }

  /** The schema hashes of the contracts wheel found in the wheel index. */
  method HashContracts(env: Env, dir: Directory, wheels: map<string, string>) returns (r: Option<Rows>)
    requires IndexOf(WheelNames(dir), Distribution(dir), wheels)
    ensures r.Some? <==> HasContracts(dir)
    ensures r.Some? ==> ContractHashes(env, dir, r.value)
  {
    ContractsIndexed(dir, wheels);
    if CONTRACTS !in wheels {
      return None;
    }
    r := ContractSchemaHashes(env, dir[wheels[CONTRACTS]].schemas);
  }

  lemma RequirementExactly(env: Env, raw: string, components: Rows, byName: map<string, string>)
    requires NamesAreSolid(env.isSpace) && IndexOf(components.Keys, NormalizeName, byName)
    requires forall n :: n in components ==> HasVersion(components[n])
    ensures RequirementExact(env, raw, Versions(components, byName)) <==> StackPinned(env, raw, components)
  {
    var versions := Versions(components, byName);
    var read := EveryRequirementReads(env.isSpace, raw);
    if StackPinned(env, raw, components) && Dependency(env.isSpace, raw).Some? && Dependency(env.isSpace, raw).value in versions {
      var d := byName[Dependency(env.isSpace, raw).value];
      PinsRead(env, raw, read, d);
      assert Carries(components[d], VersionOf(components, d));
    }
    if RequirementExact(env, raw, versions) {
      forall r, d, v | NamesComponent(env, raw, r, d) && d in components && Carries(components[d], v)
        ensures Pins(r, v)
      {
        PinsRead(env, raw, r, d);
        assert v == VersionOf(components, d) == versions[NormalizeName(d)];
      }
    }
  }

  lemma PinsRead(env: Env, raw: string, r: Reading, d: string)
    requires NamesAreSolid(env.isSpace) && ReadsAs(env.isSpace, raw, r)
    ensures NamesComponent(env, raw, r, d) <==> Dependency(env.isSpace, raw) == Some(NormalizeName(d))
    ensures forall v :: PinnedTo(env.isSpace, raw, v) <==> Pins(r, v)
  {
    NormalizedAlike(r.name, d);
    forall v
      ensures PinnedTo(env.isSpace, raw, v) <==> Pins(r, v)
    {
      RequirementReads(env.isSpace, raw, r, v);
    }
    RequirementReads(env.isSpace, raw, r, "");
  }

  lemma WheelNamesExactly(dir: Directory)
    ensures forall w :: w in WheelNames(dir) <==> w in dir && IsWheel(w)
  {
    forall w: string
      ensures EndsWith(w, ".whl") <==> IsWheel(w)
    {
      IsWheelExactly(w);
    }
  }

  lemma IsWheelExactly(w: string)
    ensures EndsWith(w, ".whl") <==> IsWheel(w)
  {
    if |w| >= 4 {
      var tail := w[|w| - 4..];
      assert tail == [w[|w| - 4], w[|w| - 3], w[|w| - 2], w[|w| - 1]];
      assert ".whl" == ['.', 'w', 'h', 'l'];
    }
  }

  ghost predicate Versioned(components: Rows) {
    forall n :: n in components ==> HasVersion(components[n])
  }

  lemma PinsExactly(env: Env, requirements: seq<string>, components: Rows, byName: map<string, string>)
    requires NamesAreSolid(env.isSpace) && IndexOf(components.Keys, NormalizeName, byName) && Versioned(components)
    ensures RequirementsExact(env, requirements, Versions(components, byName))
       <==> forall i :: 0 <= i < |requirements| ==> StackPinned(env, requirements[i], components)
  {
    forall i | 0 <= i < |requirements|
      ensures RequirementExact(env, requirements[i], Versions(components, byName)) <==> StackPinned(env, requirements[i], components)
    {
      RequirementExactly(env, requirements[i], components, byName);
    }
  }

  /** A wheel that fits its component is one that suits it. */
  lemma SuitsExactly(env: Env, components: Rows, dir: Directory, byName: map<string, string>, c: string, w: string)
    requires NamesAreSolid(env.isSpace) && IndexOf(components.Keys, NormalizeName, byName) && Versioned(components)
    requires c in components && w in dir
    ensures (HasMetadataIn(dir)(w) && Distribution(dir)(w) == NormalizeName(c) && Fits(env, components, dir)(byName, c, w))
       <==> Suits(env, components, c, dir[w])
  {
    if dir[w].metadata.Some? {
      NormalizedAlike(dir[w].metadata.value.name, c);
      PinsExactly(env, dir[w].metadata.value.requires_, components, byName);
    }
  }

  lemma BindingFollowsRule(env: Env, components: Rows, dir: Directory, byName: map<string, string>, wheelOf: map<string, string>)
    requires NamesAreSolid(env.isSpace) && Binds(env, components, dir, byName, wheelOf)
    ensures BindRule(env, components, dir, wheelOf)
  {
    WheelNamesExactly(dir);
    forall a, b | a in components && b in components && SameDistribution(a, b)
      ensures a == b
    {
      NormalizedAlike(a, b);
    }
    assert Versioned(components) by {
      forall n | n in components
        ensures HasVersion(components[n])
      {
        assert HasVersionIn(components)(n);
      }
    }
    forall c | c in components
      ensures Suits(env, components, c, dir[wheelOf[c]])
    {
      SuitsExactly(env, components, dir, byName, c, wheelOf[c]);
    }
  }

  lemma RuleBinds(env: Env, components: Rows, dir: Directory, wheelOf: map<string, string>) returns (byName: map<string, string>)
    requires NamesAreSolid(env.isSpace) && BindRule(env, components, dir, wheelOf)
    ensures Binds(env, components, dir, byName, wheelOf)
  {
    byName := DistinctNames(components.Keys);
    RuleVersions(env, components, dir, wheelOf);
    WheelNamesExactly(dir);
    forall c | c in components
      ensures HasMetadataIn(dir)(wheelOf[c]) && Distribution(dir)(wheelOf[c]) == NormalizeName(c)
      ensures Fits(env, components, dir)(byName, c, wheelOf[c]) && HasVersionIn(components)(c)
    {
      SuitsExactly(env, components, dir, byName, c, wheelOf[c]);
    }
    BindFrom(components.Keys, WheelNames(dir), HasVersionIn(components), HasMetadataIn(dir), NormalizeName, Distribution(dir),
             Fits(env, components, dir), byName, wheelOf);
  }

  lemma RuleVersions(env: Env, components: Rows, dir: Directory, wheelOf: map<string, string>)
    requires BindRule(env, components, dir, wheelOf)
    ensures Versioned(components)
  {
  }

  lemma DistinctNames(names: set<string>) returns (byName: map<string, string>)
    requires forall a, b :: a in names && b in names && SameDistribution(a, b) ==> a == b
    ensures IndexOf(names, NormalizeName, byName)
  {
    forall a, b | a in names && b in names && NormalizeName(a) == NormalizeName(b)
      ensures a == b
    {
      NormalizedAlike(a, b);
    }
    byName := map n | n in names :: NormalizeName(n) := n;
  }

  /** A one-to-one correspondence of fitting pairs is a binding. */
  lemma BindFrom(names: set<string>, wheels: set<string>, nameOk: string -> bool, wheelOk: string -> bool,
                 nameKey: string -> string, wheelKey: string -> string, fits: Fit,
                 byName: map<string, string>, wheelOf: map<string, string>)
    requires IndexOf(names, nameKey, byName) && wheelOf.Keys == names
    requires forall c :: c in names ==>
               && nameOk(c) && wheelOf[c] in wheels && wheelOk(wheelOf[c]) && wheelKey(wheelOf[c]) == nameKey(c)
               && fits(byName, c, wheelOf[c])
    requires forall w :: w in wheels ==> exists c :: c in names && wheelOf[c] == w
    ensures CanBind(names, wheels, nameOk, wheelOk, nameKey, wheelKey, fits, byName, wheelOf)
  {
  }

  lemma ContractsName()
    ensures NormalizeName(CONTRACTS) == CONTRACTS
  {
    assert forall i :: 0 <= i < |CONTRACTS| ==> CONTRACTS[i] == '-' || 'a' <= CONTRACTS[i] <= 'z';
    assert forall i :: 0 <= i < |CONTRACTS| ==> NormalChar(CONTRACTS[i]) == CONTRACTS[i];
  }

  lemma ContractsExactly(dir: Directory, w: string)
    ensures IsContracts(dir, w) && SchemasOk(dir[w].schemas) && dir[w].metadata.Some? <==> ContractsWheel(dir, w)
  {
    WheelNamesExactly(dir);
    if w in dir && dir[w].metadata.Some? {
      NormalizedAlike(dir[w].metadata.value.name, CONTRACTS);
      ContractsName();
    }
  }

  lemma SourceStageExactly(env: Env, p: Fields)
    ensures IsSourceStage(env, p) <==> SourceRule(env, p)
  {
    SealIntactExactly(env, p);
    HasRowsExactly(p, Components);
  }

  lemma HasContractsExactly(dir: Directory)
    ensures HasContracts(dir) <==> SomeContracts(dir)
  {
    if w :| IsContracts(dir, w) && SchemasOk(dir[w].schemas) {
      ContractsExactly(dir, w);
    }
    if w :| ContractsWheel(dir, w) {
      ContractsExactly(dir, w);
    }
  }

  lemma BindsExactly(env: Env, components: Rows, dir: Directory)
    requires NamesAreSolid(env.isSpace)
    ensures HasBinding(env, components, dir) <==> SomeBinding(env, components, dir)
  {
    if HasBinding(env, components, dir) {
      BindingHasRule(env, components, dir);
    }
    if SomeBinding(env, components, dir) {
      RuleHasBinding(env, components, dir);
    }
  }

  lemma BindingHasRule(env: Env, components: Rows, dir: Directory)
    requires NamesAreSolid(env.isSpace) && HasBinding(env, components, dir)
    ensures SomeBinding(env, components, dir)
  {
    var byName, wheelOf :| Binds(env, components, dir, byName, wheelOf);
    BindingFollowsRule(env, components, dir, byName, wheelOf);
  }

  lemma RuleHasBinding(env: Env, components: Rows, dir: Directory)
    requires NamesAreSolid(env.isSpace) && SomeBinding(env, components, dir)
    ensures HasBinding(env, components, dir)
  {
    var wheelOf :| BindRule(env, components, dir, wheelOf);
    var byName := RuleBinds(env, components, dir, wheelOf);
  }

  lemma BindableExactly(env: Env, source: Fields, dir: Directory)
    requires NamesAreSolid(env.isSpace)
    ensures Bindable(env, source, dir) <==> FinalizeRule(env, source, dir)
  {
    SourceStageExactly(env, source);
    HasContractsExactly(dir);
    if IsSourceStage(env, source) {
      BindsExactly(env, source[Components].entries, dir);
    }
  }

  lemma BoundRowsAre(env: Env, components: Rows, dir: Directory, byName: map<string, string>, wheelOf: map<string, string>)
    requires Binds(env, components, dir, byName, wheelOf)
    ensures RowsBound(env, components, dir, wheelOf, BoundRows(components, Bind(env, dir), wheelOf))
  {
    forall c | c in components
      ensures components[c].Obj? && wheelOf[c] in dir
    {
      assert HasVersionIn(components)(c) && wheelOf[c] in WheelNames(dir);
    }
    EachRowBound(env, components, dir, wheelOf);
  }

  lemma EachRowBound(env: Env, components: Rows, dir: Directory, wheelOf: map<string, string>)
    requires wheelOf.Keys == components.Keys && forall c :: c in components ==> components[c].Obj? && wheelOf[c] in dir
    ensures RowsBound(env, components, dir, wheelOf, BoundRows(components, Bind(env, dir), wheelOf))
  {
    forall c | c in components
      ensures BoundTo(env, components[c], dir, wheelOf[c], Bind(env, dir)(components[c], wheelOf[c]))
    {
      BoundRowIs(env, components[c], dir, wheelOf[c]);
    }
  }

  lemma BoundRowIs(env: Env, row: Json, dir: Directory, wheel: string)
    requires row.Obj? && wheel in dir
    ensures BoundTo(env, row, dir, wheel, Bind(env, dir)(row, wheel))
  {
  }

  lemma FinalFields(env: Env, source: Fields, bound: Rows, hashes: Rows)
    ensures var p := FinalPayload(env, source, bound, hashes);
            && p.Keys == source.Keys + {Stage, Components, SchemaHashes, ManifestHash}
            && (forall k :: k in source && k !in {Stage, Components, SchemaHashes, ManifestHash} ==> p[k] == source[k])
            && Says(p, Stage, "wheel-bound") && p[Components] == Dict(bound) && p[SchemaHashes] == Dict(hashes)
  {
  }

  lemma HashesAre(env: Env, dir: Directory, hashes: Rows)
    requires ContractHashes(env, dir, hashes)
    ensures exists w :: ContractsWheel(dir, w) && HashesRecorded(env, dir[w].schemas.value, hashes)
  {
    var w :| IsContracts(dir, w) && SchemasOk(dir[w].schemas)
      && SchemaHashesOf(env, dir[w].schemas.value, |dir[w].schemas.value|, hashes);
    ContractsExactly(dir, w);
    HashesListed(env, dir[w].schemas.value, hashes);
  }

  lemma HashesListed(env: Env, schemas: seq<(Json, Bytes)>, hashes: Rows)
    requires SchemaHashesOf(env, schemas, |schemas|, hashes)
    ensures HashesRecorded(env, schemas, hashes)
  {
  }

  lemma FinalizedIs(env: Env, source: Fields, dir: Directory, byName: map<string, string>, wheelOf: map<string, string>,
                    hashes: Rows, p: Fields)
    requires Components in source && WheelBound(env, source, dir, byName, wheelOf, hashes, p)
    ensures FinalizeResult(env, source, dir, wheelOf, p)
  {
    var components := source[Components].entries;
    BoundRowsAre(env, components, dir, byName, wheelOf);
    var bound := BoundRows(components, Bind(env, dir), wheelOf);
    FinalFields(env, source, bound, hashes);
    SealedHolds(env, BoundPayload(source, bound, hashes));
    HashesAre(env, dir, hashes);
  }

  /** Succeeds exactly when the wheelhouse binds one fitting wheel to each component and holds the
      contract schemas. */
  method FinalizeCandidate(env: Env, source: Fields, dir: Directory)
    returns (r: Option<Fields>, ghost byName: map<string, string>, ghost wheelOf: map<string, string>, ghost hashes: Rows)
    ensures r.Some? <==> Bindable(env, source, dir)
    ensures NamesAreSolid(env.isSpace) ==> (r.Some? <==> FinalizeRule(env, source, dir))
    ensures r.Some? ==> FinalizeResult(env, source, dir, wheelOf, r.value)
    ensures NamesAreSolid(env.isSpace) && r.Some? ==> BindRule(env, source[Components].entries, dir, wheelOf)
    ensures r.Some? ==> WheelBound(env, source, dir, byName, wheelOf, hashes, r.value)
  {
    byName, wheelOf, hashes := map[], map[], map[];
    if NamesAreSolid(env.isSpace) {
      BindableExactly(env, source, dir);
    }
    if !IsSourceStage(env, source) {
      return None, byName, wheelOf, hashes;
    }
    var components := Get(source, Components).entries;
    var bound, wheels;
    bound, wheels, byName, wheelOf :=
      BindComponents(components, WheelNames(dir), HasVersionIn(components), HasMetadataIn(dir),
                     NormalizeName, Distribution(dir), Fits(env, components, dir), Bind(env, dir));
    if bound.None? {
      return None, byName, wheelOf, hashes;
    }
    assert Binds(env, components, dir, byName, wheelOf);
    var schemaHashes := HashContracts(env, dir, wheels);
    if schemaHashes.None? {
      return None, byName, wheelOf, hashes;
    }
    hashes := schemaHashes.value;
    r := Some(FinalPayload(env, source, bound.value, schemaHashes.value));
    FinalizedIs(env, source, dir, byName, wheelOf, hashes, r.value);
    if NamesAreSolid(env.isSpace) {
      BindingFollowsRule(env, components, dir, byName, wheelOf);
    }
  }

  lemma ContractsIndexed(dir: Directory, wheels: map<string, string>)
    requires IndexOf(WheelNames(dir), Distribution(dir), wheels)
    ensures CONTRACTS in wheels ==> IsContracts(dir, wheels[CONTRACTS]) && wheels[CONTRACTS] in dir
    ensures forall w :: IsContracts(dir, w) ==> CONTRACTS in wheels && w == wheels[CONTRACTS]
  {
  }

  // ----- resolve

  predicate WheelNamed(row: Json) {
    && row.Obj? && Get(row.fields, Wheel).Obj?
    && var filename := Get(Get(row.fields, Wheel).fields, Filename);
    && filename.Str? && EndsWith(filename.text, ".whl")
  }

  function WheelField(row: Json, key: Key): Json {
    if row.Obj? && Get(row.fields, Wheel).Obj? then Get(Get(row.fields, Wheel).fields, key) else Null
  }

  predicate ResolvedRow(env: Env, row: Json, stage: Json) {
    && RowBasics(env, row) && RowHasSha(env, row)
    && (stage == Str("wheel-bound") ==> WheelNamed(row) && Matches(WheelField(row, Sha256), env.isHash))
  }

  predicate TitleOk(env: Env, p: Fields) {
    && Get(p, Schema) == Str(SCHEMA) && Get(p, NotARelease) == Bool(true)
    && (Get(p, Stage) == Str("source") || Get(p, Stage) == Str("wheel-bound"))
    && NonBlank(env, Get(p, Id)) && Matches(Get(p, CreatedAt), env.isTimestamp)
    && ProvenanceOk(env, Get(p, Provenance))
  }

  predicate HeaderOk(env: Env, p: Fields) {
    && TitleOk(env, p)
    && Matches(Get(p, ManifestHash), env.isHash) && SealIntact(env, p)
    && Get(p, Components).Dict? && Get(p, Components).entries != map[]
  }

  function ResolvedRowIn(env: Env, components: Rows, stage: Json): string -> bool {
    (n: string) => n in components && IsComponentName(n) && ResolvedRow(env, components[n], stage)
  }

  ghost predicate Loadable(env: Env, p: Fields) {
    && HeaderOk(env, p)
    && Resolved(Get(p, Components).entries, ResolvedRowIn(env, Get(p, Components).entries, Get(p, Stage)))
  }

  ghost predicate Resolved(rows: Rows, ok: string -> bool) {
    (forall n :: n in rows ==> ok(n)) && Injective(rows.Keys, OutputKey)
  }

  lemma LoadRowExactly(env: Env, name: string, row: Json, stage: Json)
    ensures IsComponentName(name) && ResolvedRow(env, row, stage) <==> LoadRow(env, name, row, stage == Str("wheel-bound"))
  {
    if row.Obj? && Get(row.fields, Wheel).Obj? && Get(Get(row.fields, Wheel).fields, Filename).Str? {
      IsWheelExactly(Get(Get(row.fields, Wheel).fields, Filename).text);
    }
    WheelIsExactly(row);
  }

  lemma WheelIsExactly(row: Json)
    ensures forall file, digest :: WheelIs(row, file, digest) <==>
              WheelNamed(row) && WheelField(row, Filename) == Str(file) && WheelField(row, Sha256) == Str(digest)
  {
    if row.Obj? && Get(row.fields, Wheel).Obj? && Get(Get(row.fields, Wheel).fields, Filename).Str? {
      IsWheelExactly(Get(Get(row.fields, Wheel).fields, Filename).text);
    }
  }

  lemma OutputAlike(a: string, b: string)
    ensures OutputKey(a) == OutputKey(b) <==> SameOutput(a, b)
  {
    assert forall i :: 0 <= i < |a| && i < |b| ==> (OutputKey(a)[i] == OutputKey(b)[i] <==>
      a[i] == b[i] || (a[i] == '-' && b[i] == '_') || (a[i] == '_' && b[i] == '-'));
  }

  lemma TitleExactly(env: Env, p: Fields)
    ensures TitleOk(env, p) <==> LoadTitle(env, p)
  {
    ProvenanceExactly(env, Get(p, Provenance));
  }

  lemma ProvenanceExactly(env: Env, j: Json)
    ensures ProvenanceOk(env, j) <==> HasProvenance(env, j)
  {
  }

  lemma LoadHeaderExactly(env: Env, p: Fields)
    ensures HeaderOk(env, p) <==> LoadHeader(env, p)
  {
    TitleExactly(env, p);
    SealIntactExactly(env, p);
    HasRowsExactly(p, Components);
  }

  lemma LoadableExactly(env: Env, p: Fields)
    ensures Loadable(env, p) <==> LoadRule(env, p)
  {
    LoadHeaderExactly(env, p);
    if HeaderOk(env, p) {
      LoadRowsExactly(env, p[Components].entries, p[Stage]);
    }
  }

  lemma LoadRowsExactly(env: Env, rows: Rows, stage: Json)
    ensures Resolved(rows, ResolvedRowIn(env, rows, stage)) <==> LoadRows(env, rows, stage == Str("wheel-bound"))
  {
    forall n | n in rows
      ensures ResolvedRowIn(env, rows, stage)(n) <==> LoadRow(env, n, rows[n], stage == Str("wheel-bound"))
    {
      LoadRowExactly(env, n, rows[n], stage);
    }
    OutputsExactly(rows.Keys);
  }

  lemma OutputsExactly(names: set<string>)
    ensures Injective(names, OutputKey) <==> DistinctOutputs(names)
  {
    forall a, b | a in names && b in names
      ensures OutputKey(a) == OutputKey(b) <==> SameOutput(a, b)
    {
      OutputAlike(a, b);
    }
  }

  /** `load_candidate` */
  method LoadCandidate(env: Env, p: Fields) returns (accepted: bool)
    ensures accepted <==> LoadRule(env, p)
  {
    LoadableExactly(env, p);
    if !HeaderOk(env, p) {
      return false;
    }
    var components := Get(p, Components).entries;
    var outputKeys := IndexBy(components.Keys, ResolvedRowIn(env, components, Get(p, Stage)), OutputKey);
    accepted := outputKeys.Some?;
  }

  // ----- install

  predicate InstallRow(row: Json) {
    && WheelNamed(row)
    && var digest := WheelField(row, Sha256);
    && digest.Str? && PrefixedDigest(digest.text)
  }

  function InstallRowIn(components: Rows): string -> bool {
    (n: string) => n in components && InstallRow(components[n])
  }

  function FilenameIn(components: Rows): string -> string {
    (n: string) => if n in components && WheelField(components[n], Filename).Str?
                   then WheelField(components[n], Filename).text else ""
  }

  function DigestIn(components: Rows): string -> string {
    (n: string) => if n in components && WheelField(components[n], Sha256).Str?
                   then WheelField(components[n], Sha256).text else ""
  }

  ghost predicate Installable(p: Fields) {
    && Get(p, Stage) == Str("wheel-bound")
    && Get(p, Components).Dict? && Get(p, Components).entries != map[]
    && var components := Get(p, Components).entries;
    && InstallableRows(components.Keys, InstallRowIn(components), FilenameIn(components))
  }

  ghost predicate InstallableRows(names: set<string>, ok: string -> bool, filename: string -> string) {
    (forall n :: n in names ==> ok(n)) && Injective(names, filename)
  }

  /** File names to digests, one entry per component. */
  ghost predicate HashesOf(components: Rows, hashes: map<string, string>) {
    && (forall n :: n in components ==>
          FilenameIn(components)(n) in hashes && hashes[FilenameIn(components)(n)] == DigestIn(components)(n))
    && (forall f :: f in hashes ==> exists n :: n in components && FilenameIn(components)(n) == f)
  }

  /** A row names its wheel exactly by what the installer reads from it. */
  lemma InstallsExactly(rows: Rows, n: string)
    requires n in rows
    ensures forall file, digest :: Installs(rows[n], file, digest) <==>
              InstallRowIn(rows)(n) && FilenameIn(rows)(n) == file && DigestIn(rows)(n) == digest
  {
    WheelIsExactly(rows[n]);
  }

  lemma InstallRowExactly(rows: Rows, n: string)
    requires n in rows
    ensures InstallRowIn(rows)(n) <==> exists file, digest :: Installs(rows[n], file, digest)
  {
    InstallsExactly(rows, n);
    assert InstallRowIn(rows)(n) ==> Installs(rows[n], FilenameIn(rows)(n), DigestIn(rows)(n));
  }

  lemma InstallRowsExactly(rows: Rows)
    ensures InstallableRows(rows.Keys, InstallRowIn(rows), FilenameIn(rows)) <==> InstallRows(rows)
  {
    forall n | n in rows
      ensures InstallRowIn(rows)(n) <==> exists file, digest :: Installs(rows[n], file, digest)
    {
      InstallRowExactly(rows, n);
    }
    FilenamesExactly(rows);
  }

  lemma FilenamesExactly(rows: Rows)
    ensures (forall n :: n in rows ==> InstallRowIn(rows)(n)) ==>
              (Injective(rows.Keys, FilenameIn(rows)) <==>
               forall a, b, file, d, e ::
                 a in rows && b in rows && Installs(rows[a], file, d) && Installs(rows[b], file, e) ==> a == b)
  {
    forall a, b, file, d, e |
      a in rows && b in rows && Installs(rows[a], file, d) && Installs(rows[b], file, e)
      ensures FilenameIn(rows)(a) == FilenameIn(rows)(b)
    {
      InstallsExactly(rows, a);
      InstallsExactly(rows, b);
    }
    forall n | n in rows && InstallRowIn(rows)(n)
      ensures Installs(rows[n], FilenameIn(rows)(n), DigestIn(rows)(n))
    {
      InstallsExactly(rows, n);
    }
  }

  lemma InstallableExactly(p: Fields)
    ensures Installable(p) <==> InstallRule(p)
  {
    HasRowsExactly(p, Components);
    if HasRows(p, Components) {
      InstallRowsExactly(p[Components].entries);
    }
  }

  lemma HashesInstalled(rows: Rows, hashes: map<string, string>)
    requires HashesOf(rows, hashes) && forall n :: n in rows ==> InstallRowIn(rows)(n)
    ensures InstallResult(rows, hashes)
  {
    forall n, file, digest | n in rows && Installs(rows[n], file, digest)
      ensures file in hashes && hashes[file] == digest
    {
      InstallsExactly(rows, n);
    }
    forall file | file in hashes
      ensures exists n :: n in rows && Installs(rows[n], file, hashes[file])
    {
      var n :| n in rows && FilenameIn(rows)(n) == file;
      InstallsExactly(rows, n);
    }
  }

  /** `wheel_hashes_from_candidate` */
  method WheelHashes(p: Fields) returns (r: Option<map<string, string>>)
    ensures r.Some? <==> InstallRule(p)
    ensures r.Some? ==> Components in p && p[Components].Dict? && InstallResult(p[Components].entries, r.value)
    ensures r.Some? ==> HashesOf(Get(p, Components).entries, r.value)
  {
    InstallableExactly(p);
    r := ReadWheelHashes(p);
    if r.Some? {
      HashesInstalled(Get(p, Components).entries, r.value);
    }
  }

  method ReadWheelHashes(p: Fields) returns (r: Option<map<string, string>>)
    ensures r.Some? <==> Installable(p)
    ensures r.Some? ==> HashesOf(Get(p, Components).entries, r.value)
  {
    if Get(p, Stage) != Str("wheel-bound") || !Get(p, Components).Dict? || Get(p, Components).entries == map[] {
      return None;
    }
    var components := Get(p, Components).entries;
    r := IndexFiles(components.Keys, InstallRowIn(components), FilenameIn(components), DigestIn(components));
  }

  /** The loop over the component rows: file names to digests, a repeated file rejected. */
  method IndexFiles(names: set<string>, ok: string -> bool, filename: string -> string, digest: string -> string)
    returns (r: Option<map<string, string>>)
    ensures r.Some? <==> InstallableRows(names, ok, filename)
    ensures r.Some? ==> (forall n :: n in names ==> filename(n) in r.value && r.value[filename(n)] == digest(n))
    ensures r.Some? ==> (forall f :: f in r.value ==> exists n :: n in names && filename(n) == f)
  {
    var byFile := IndexBy(names, ok, filename);
    if byFile.None? {
      return None;
    }
    var index := byFile.value;
    r := Some(map f | f in index :: digest(index[f]));
  }

  ghost predicate LocalMatches(env: Env, dir: Directory, hashes: map<string, string>) {
    && WheelNames(dir) != {} && WheelNames(dir) == hashes.Keys
    && forall w :: w in WheelNames(dir) ==> hashes[w] != "" && env.fileHash(dir[w].bytes) == hashes[w]
  }

  lemma LocalExactly(env: Env, dir: Directory, hashes: map<string, string>)
    ensures LocalMatches(env, dir, hashes) <==> LocalRule(env, dir, hashes)
  {
    WheelNamesExactly(dir);
    assert WheelNames(dir) != {} <==> exists w :: w in WheelNames(dir);
  }

  /** `verify_local_hashes` */
  method VerifyLocalHashes(env: Env, dir: Directory, hashes: map<string, string>) returns (accepted: bool)
    ensures accepted <==> LocalRule(env, dir, hashes)
  {
    LocalExactly(env, dir, hashes);
    var found := WheelNames(dir);
    if found == {} || found != hashes.Keys {
      return false;
    }
    var remaining := found;
    while remaining != {}
      invariant remaining <= found
      invariant forall w :: w in found - remaining ==> hashes[w] != "" && env.fileHash(dir[w].bytes) == hashes[w]
      decreases |remaining|
    {
      assert (forall w :: w !in remaining) ==> remaining == {};
      var w :| w in remaining;
      remaining := remaining - {w};
      if hashes[w] == "" || env.fileHash(dir[w].bytes) != hashes[w] {
        return false;
      }
    }
    assert found - remaining == found;
    accepted := true;
  }

  // ----- admission

  predicate AdmittedRow(env: Env, row: Json) {
    HasVersion(row) && Get(row.fields, Wheel).Obj? && Matches(WheelField(row, Sha256), env.isNonzeroHash)
  }

  predicate AdmissionHeader(env: Env, p: Fields) {
    && Get(p, Schema) == Str(SCHEMA) && Get(p, Stage) == Str("wheel-bound")
    && NonEmptyText(Get(p, Id))
    && Matches(Get(p, ManifestHash), env.isNonzeroHash) && SealIntact(env, p)
    && Get(p, Components).Dict? && Get(p, Components).entries != map[]
    && Get(p, SchemaHashes).Dict? && Get(p, SchemaHashes).entries != map[]
    && Get(p, Admission).Obj?
  }

  function AdmittedRowIn(env: Env): (string, Json) -> bool {
    (n: string, row: Json) => AdmittedRow(env, row)
  }

  function AdmittedSchemaIn(env: Env): (string, Json) -> bool {
    (id: string, digest: Json) => id != "" && Matches(digest, env.isNonzeroHash)
  }

  predicate PoliciesOk(policy: Fields) {
    forall k :: k in ADMISSION_LISTS ==> TextList(Get(policy, k))
  }

  ghost predicate AllRows(rows: Rows, ok: (string, Json) -> bool) {
    forall n :: n in rows ==> ok(n, rows[n])
  }

  ghost predicate Admissible(env: Env, p: Fields) {
    && AdmissionHeader(env, p)
    && AllRows(Get(p, Components).entries, AdmittedRowIn(env))
    && AllRows(Get(p, SchemaHashes).entries, AdmittedSchemaIn(env))
    && PoliciesOk(Get(p, Admission).fields)
  }

  // ----- what the producers make, the consumers accept

  /** A source-stage manifest straight from `materialize_candidate`. */
  ghost predicate Materialized(env: Env, template: Fields, openpineSha: string, createdAt: string, provenance: Json,
                               components: Rows, p: Fields) {
    && Materializable(env, template, openpineSha, createdAt, provenance)
    && RowsMaterialized(Get(template, Components).entries, openpineSha, components)
    && p == Sealed(env, SourcePayload(template, createdAt, provenance, components))
  }

  lemma MaterializedRowGood(env: Env, name: string, row: Json, openpineSha: string)
    requires TemplateRowOk(env, name, row, openpineSha) && Sound(env)
    ensures var made := MaterializedRow(name, row.fields, openpineSha);
            RowBasics(env, made) && RowHasSha(env, made) && HasVersion(made)
  {
  }

  lemma MaterializedHeader(env: Env, template: Fields, openpineSha: string, createdAt: string, provenance: Json,
                           components: Rows, p: Fields)
    requires Sound(env) && Materialized(env, template, openpineSha, createdAt, provenance, components, p)
    ensures HeaderOk(env, p) && IsSourceStage(env, p)
    ensures Get(p, Stage) == Str("source") && Get(p, Components) == Dict(components)
    ensures Get(p, Admission) == Get(template, Admission)
  {
    SealedIsIntact(env, SourcePayload(template, createdAt, provenance, components));
    SourcePayloadFields(template, createdAt, provenance, components);
    assert "openpine" in components;
  }

  lemma SourcePayloadFields(template: Fields, createdAt: string, provenance: Json, components: Rows)
    ensures var base := SourcePayload(template, createdAt, provenance, components);
            && Get(base, Schema) == Str(SCHEMA) && Get(base, Stage) == Str("source") && Get(base, Id) == Get(template, Id)
            && Get(base, NotARelease) == Bool(true) && Get(base, CreatedAt) == Str(createdAt)
            && Get(base, Provenance) == provenance && Get(base, Admission) == Get(template, Admission)
            && Get(base, Components) == Dict(components)
  {
  }

  /** The resolver accepts a freshly materialized manifest exactly when no two component names
      share an output key, which the producer does not check. */
  lemma MaterializedLoadableExactly(env: Env, template: Fields, openpineSha: string, createdAt: string,
                                    provenance: Json, components: Rows, p: Fields)
    requires Sound(env) && Materialized(env, template, openpineSha, createdAt, provenance, components, p)
    ensures Loadable(env, p) <==> DistinctOutputs(components.Keys)
  {
    OutputsExactly(components.Keys);
    MaterializedHeader(env, template, openpineSha, createdAt, provenance, components, p);
    var source := Get(template, Components).entries;
    forall n | n in components
      ensures ResolvedRowIn(env, components, Get(p, Stage))(n)
    {
      MaterializedRowGood(env, n, source[n], openpineSha);
    }
  }

  /** One trip through both producers: the inputs, the source-stage manifest, the wheelhouse, and
      the finalized manifest with the binding that finalization found. */
  datatype Release = Release(
    template: Fields, openpineSha: string, createdAt: string, provenance: Json,
    components: Rows, source: Fields,
    dir: Directory, byName: map<string, string>, wheelOf: map<string, string>, hashes: Rows,
    payload: Fields)

  ghost predicate Released(env: Env, r: Release) {
    && Sound(env)
    && Materialized(env, r.template, r.openpineSha, r.createdAt, r.provenance, r.components, r.source)
    && WheelBound(env, r.source, r.dir, r.byName, r.wheelOf, r.hashes, r.payload)
  }

  /** What a released row holds: the checked source fields and the identity of its wheel. */
  ghost predicate ReleasedRow(env: Env, row: Json, bytes: Bytes, wheel: string) {
    && RowBasics(env, row) && RowHasSha(env, row) && HasVersion(row) && WheelNamed(row)
    && WheelField(row, Filename) == Str(wheel)
    && WheelField(row, Sha256) == Str(env.fileHash(bytes))
    && Matches(WheelField(row, Sha256), env.isNonzeroHash)
  }

  ghost predicate ReleasedRows(env: Env, rows: Rows, dir: Directory, wheelOf: map<string, string>) {
    && rows != map[] && OneToOne(rows.Keys, WheelNames(dir), wheelOf)
    && forall n :: n in rows ==> IsComponentName(n) && ReleasedRow(env, rows[n], dir[wheelOf[n]].bytes, wheelOf[n])
  }

  /** Binding a wheel adds its identity to the row and keeps everything else. */
  lemma BoundRowGood(env: Env, row: Json, dir: Directory, wheel: string)
    requires Sound(env) && RowBasics(env, row) && RowHasSha(env, row) && HasVersion(row) && wheel in WheelNames(dir)
    ensures ReleasedRow(env, Bind(env, dir)(row, wheel), dir[wheel].bytes, wheel)
  {
  }

  function BoundPayload(source: Fields, rows: Rows, hashes: Rows): Fields {
    source[Stage := Str("wheel-bound")][Components := Dict(rows)][SchemaHashes := Dict(hashes)]
  }

  lemma BoundHeader(env: Env, source: Fields, rows: Rows, hashes: Rows)
    requires Sound(env) && HeaderOk(env, source) && rows != map[]
    ensures var p := Sealed(env, BoundPayload(source, rows, hashes));
            && HeaderOk(env, p) && Get(p, Stage) == Str("wheel-bound")
            && Matches(Get(p, ManifestHash), env.isNonzeroHash)
            && Get(p, Components) == Dict(rows) && Get(p, SchemaHashes) == Dict(hashes)
            && Get(p, Admission) == Get(source, Admission)
  {
    SealedIsIntact(env, BoundPayload(source, rows, hashes));
    BoundPayloadFields(source, rows, hashes);
  }

  lemma BoundPayloadFields(source: Fields, rows: Rows, hashes: Rows)
    ensures var base := BoundPayload(source, rows, hashes);
            && Get(base, Schema) == Get(source, Schema) && Get(base, Stage) == Str("wheel-bound")
            && Get(base, Id) == Get(source, Id) && Get(base, NotARelease) == Get(source, NotARelease)
            && Get(base, CreatedAt) == Get(source, CreatedAt) && Get(base, Provenance) == Get(source, Provenance)
            && Get(base, Admission) == Get(source, Admission)
            && Get(base, Components) == Dict(rows) && Get(base, SchemaHashes) == Dict(hashes)
  {
  }

  ghost predicate OneToOne(names: set<string>, wheels: set<string>, wheelOf: map<string, string>) {
    && wheelOf.Keys == names
    && (forall n :: n in names ==> wheelOf[n] in wheels)
    && (forall a, b :: a in names && b in names && wheelOf[a] == wheelOf[b] ==> a == b)
    && (forall w :: w in wheels ==> exists n :: n in names && wheelOf[n] == w)
  }

  lemma BindingFacts(env: Env, components: Rows, dir: Directory, byName: map<string, string>, wheelOf: map<string, string>)
    requires Binds(env, components, dir, byName, wheelOf)
    ensures OneToOne(components.Keys, WheelNames(dir), wheelOf)
    ensures IndexOf(components.Keys, NormalizeName, byName)
  {
  }

  /** The component rows of a materialized manifest. */
  ghost predicate SourceRows(env: Env, components: Rows) {
    && components != map[]
    && forall n :: n in components ==>
         IsComponentName(n) && RowBasics(env, components[n]) && RowHasSha(env, components[n]) && HasVersion(components[n])
  }

  lemma MaterializedRowsGood(env: Env, r: Release)
    requires Released(env, r)
    ensures SourceRows(env, r.components)
  {
    var given := Get(r.template, Components).entries;
    assert "openpine" in r.components;
    forall n | n in r.components
      ensures IsComponentName(n) && RowBasics(env, r.components[n]) && RowHasSha(env, r.components[n]) && HasVersion(r.components[n])
    {
      MaterializedRowGood(env, n, given[n], r.openpineSha);
    }
  }

  lemma BoundRowsGood(env: Env, components: Rows, dir: Directory, wheelOf: map<string, string>)
    requires Sound(env) && SourceRows(env, components) && OneToOne(components.Keys, WheelNames(dir), wheelOf)
    ensures ReleasedRows(env, BoundRows(components, Bind(env, dir), wheelOf), dir, wheelOf)
  {
    var rows := BoundRows(components, Bind(env, dir), wheelOf);
    assert rows.Keys == components.Keys;
    forall n | n in rows
      ensures ReleasedRow(env, rows[n], dir[wheelOf[n]].bytes, wheelOf[n])
    {
      BoundRowGood(env, components[n], dir, wheelOf[n]);
    }
  }

  lemma ReleasedBinding(env: Env, r: Release)
    requires Released(env, r)
    ensures SourceRows(env, r.components) && OneToOne(r.components.Keys, WheelNames(r.dir), r.wheelOf)
    ensures IndexOf(r.components.Keys, NormalizeName, r.byName)
  {
    MaterializedHeader(env, r.template, r.openpineSha, r.createdAt, r.provenance, r.components, r.source);
    BindingFacts(env, r.components, r.dir, r.byName, r.wheelOf);
    MaterializedRowsGood(env, r);
  }

  lemma ReleaseRowsGood(env: Env, r: Release)
    requires Released(env, r)
    ensures r.components.Keys == r.wheelOf.Keys && IndexOf(r.components.Keys, NormalizeName, r.byName)
    ensures ReleasedRows(env, BoundRows(r.components, Bind(env, r.dir), r.wheelOf), r.dir, r.wheelOf)
  {
    ReleasedBinding(env, r);
    BoundRowsGood(env, r.components, r.dir, r.wheelOf);
  }

  lemma ReleaseHeader(env: Env, r: Release)
    requires Released(env, r)
    ensures r.components.Keys == r.wheelOf.Keys
    ensures var p := r.payload;
            && HeaderOk(env, p) && Get(p, Stage) == Str("wheel-bound")
            && Matches(Get(p, ManifestHash), env.isNonzeroHash)
            && Get(p, Components) == Dict(BoundRows(r.components, Bind(env, r.dir), r.wheelOf))
            && Get(p, SchemaHashes) == Dict(r.hashes) && Get(p, Admission) == Get(r.template, Admission)
  {
    MaterializedHeader(env, r.template, r.openpineSha, r.createdAt, r.provenance, r.components, r.source);
    ReleaseRowsGood(env, r);
    BoundHeader(env, r.source, BoundRows(r.components, Bind(env, r.dir), r.wheelOf), r.hashes);
  }

  /** The resolver accepts every released manifest. Finalization's duplicate-distribution check is
      what rules out its output-key clash. */
  lemma ReleasedIsLoadable(env: Env, r: Release)
    requires Released(env, r)
    ensures Loadable(env, r.payload)
  {
    ReleaseHeader(env, r);
    ReleaseRowsGood(env, r);
    var rows := BoundRows(r.components, Bind(env, r.dir), r.wheelOf);
    RowsResolve(env, rows, r.dir, r.wheelOf);
    assert rows.Keys == r.components.Keys;
    OutputKeysDistinct(rows.Keys, r.byName);
  }

  lemma RowsResolve(env: Env, rows: Rows, dir: Directory, wheelOf: map<string, string>)
    requires Sound(env) && ReleasedRows(env, rows, dir, wheelOf)
    ensures forall n :: n in rows ==> ResolvedRowIn(env, rows, Str("wheel-bound"))(n)
  {
  }

  lemma OutputKeysDistinct(names: set<string>, byName: map<string, string>)
    requires IndexOf(names, NormalizeName, byName)
    ensures Injective(names, OutputKey)
  {
    forall a, b | a in names && b in names && OutputKey(a) == OutputKey(b)
      ensures a == b
    {
      OutputKeyClashIsDistributionClash(a, b);
      assert byName[NormalizeName(a)] == a && byName[NormalizeName(b)] == b;
    }
  }

  /** The installer accepts every released manifest, and the wheelhouse it was made from. */
  lemma ReleasedIsInstallable(env: Env, r: Release, local: map<string, string>)
    requires Released(env, r)
    ensures Installable(r.payload)
    ensures HashesOf(Get(r.payload, Components).entries, local) ==> LocalMatches(env, r.dir, local)
  {
    ReleaseHeader(env, r);
    ReleaseRowsGood(env, r);
    var rows := BoundRows(r.components, Bind(env, r.dir), r.wheelOf);
    RowsInstall(env, rows, r.dir, r.wheelOf);
    if HashesOf(rows, local) {
      RowsMatchLocal(env, rows, r.dir, r.wheelOf, local);
    }
  }

  lemma RowsInstall(env: Env, rows: Rows, dir: Directory, wheelOf: map<string, string>)
    requires Sound(env) && ReleasedRows(env, rows, dir, wheelOf)
    ensures forall n :: n in rows ==>
              && InstallRowIn(rows)(n) && FilenameIn(rows)(n) == wheelOf[n]
              && DigestIn(rows)(n) == env.fileHash(dir[wheelOf[n]].bytes) && DigestIn(rows)(n) != ""
    ensures Injective(rows.Keys, FilenameIn(rows))
  {
  }

  lemma RowsMatchLocal(env: Env, rows: Rows, dir: Directory, wheelOf: map<string, string>, local: map<string, string>)
    requires Sound(env) && ReleasedRows(env, rows, dir, wheelOf) && HashesOf(rows, local)
    ensures LocalMatches(env, dir, local)
  {
    RowsInstall(env, rows, dir, wheelOf);
    LocalFromIndex(rows.Keys, WheelNames(dir), wheelOf, FilenameIn(rows), DigestIn(rows), local);
    forall w | w in WheelNames(dir)
      ensures local[w] != "" && env.fileHash(dir[w].bytes) == local[w]
    {
      var c :| c in rows && wheelOf[c] == w;
      assert local[w] == DigestIn(rows)(c);
    }
    SomeWheel(rows, WheelNames(dir), wheelOf);
  }

  lemma SomeWheel(rows: Rows, wheels: set<string>, wheelOf: map<string, string>)
    requires rows != map[] && OneToOne(rows.Keys, wheels, wheelOf)
    ensures wheels != {}
  {
  }

  lemma LocalFromIndex(names: set<string>, wheels: set<string>, wheelOf: map<string, string>,
                       filename: string -> string, digest: string -> string, local: map<string, string>)
    requires OneToOne(names, wheels, wheelOf)
    requires forall n :: n in names ==> filename(n) == wheelOf[n]
    requires forall n :: n in names ==> filename(n) in local && local[filename(n)] == digest(n)
    requires forall f :: f in local ==> exists n :: n in names && filename(n) == f
    ensures wheels == local.Keys
    ensures forall n :: n in names ==> local[wheelOf[n]] == digest(n)
  {
  }

  /** Admission accepts every released manifest. */
  lemma ReleasedIsAdmissible(env: Env, r: Release)
    requires Released(env, r)
    ensures Admissible(env, r.payload)
  {
    ReleaseHeader(env, r);
    ReleaseRowsGood(env, r);
    var rows := BoundRows(r.components, Bind(env, r.dir), r.wheelOf);
    RowsAdmitted(env, rows, r.dir, r.wheelOf);
    SchemaHashesAdmitted(env, r.dir, r.hashes);
    assert AdmissionPolicy(Get(r.template, Admission));
    AdmissibleFrom(env, r.payload, rows, r.hashes);
  }

  /** Every rule of the three consumers, on every released manifest. */
  lemma ReleasedPassesRules(env: Env, r: Release)
    requires Released(env, r)
    ensures LoadRule(env, r.payload) && InstallRule(r.payload) && AdmitRule(env, r.payload)
  {
    ReleasedIsLoadable(env, r);
    LoadableExactly(env, r.payload);
    ReleasedIsInstallable(env, r, map[]);
    InstallableExactly(r.payload);
    ReleasedIsAdmissible(env, r);
    AdmissibleExactly(env, r.payload);
  }

  lemma RowsAdmitted(env: Env, rows: Rows, dir: Directory, wheelOf: map<string, string>)
    requires ReleasedRows(env, rows, dir, wheelOf)
    ensures AllRows(rows, AdmittedRowIn(env))
  {
  }

  lemma AdmissibleFrom(env: Env, p: Fields, rows: Rows, hashes: Rows)
    requires HeaderOk(env, p) && Get(p, Stage) == Str("wheel-bound") && Matches(Get(p, ManifestHash), env.isNonzeroHash)
    requires Get(p, Components) == Dict(rows) && rows != map[] && AllRows(rows, AdmittedRowIn(env))
    requires Get(p, SchemaHashes) == Dict(hashes) && hashes != map[] && AllRows(hashes, AdmittedSchemaIn(env))
    requires AdmissionPolicy(Get(p, Admission))
    ensures Admissible(env, p)
  {
  }

  lemma SchemaHashesAdmitted(env: Env, dir: Directory, hashes: Rows)
    requires Sound(env) && ContractHashes(env, dir, hashes)
    ensures hashes != map[]
    ensures AllRows(hashes, AdmittedSchemaIn(env))
  {
  }

  // ----- wheel identities

  predicate ByName(a: WheelIdentity, b: WheelIdentity) {
    LexLe(a.0, b.0)
  }

  function IdentityOf(env: Env, name: string, row: Json): WheelIdentity
    requires AdmittedRow(env, row)
  {
    (name, Get(row.fields, Version).text, WheelField(row, Sha256).text)
  }

  /** One identity per component: its name, version and wheel digest; sorted by name. */
  ghost predicate IdentitiesOf(env: Env, components: Rows, wheels: seq<WheelIdentity>) {
    && SortedBy(wheels, ByName) && NoRepeats(wheels)
    && (forall n :: n in components ==> AdmittedRow(env, components[n]) && IdentityOf(env, n, components[n]) in wheels)
    && (forall w :: w in wheels ==> w.0 in components && AdmittedRow(env, components[w.0]) && w == IdentityOf(env, w.0, components[w.0]))
  }

  function IsAdmitted(env: Env, components: Rows): string -> bool {
    (n: string) => n in components && AdmittedRow(env, components[n])
  }

  function IdentityIn(env: Env, components: Rows): string -> WheelIdentity {
    (n: string) => if IsAdmitted(env, components)(n) then IdentityOf(env, n, components[n]) else (n, "", "")
  }

  /** The wheel loop of `deployment_identity_from_candidate`, over the sorted component names. */
  method WheelIdentities(env: Env, components: Rows) returns (r: Option<seq<WheelIdentity>>)
    ensures r.Some? <==> forall n :: n in components ==> AdmittedRow(env, components[n])
    ensures r.Some? ==> IdentitiesOf(env, components, r.value) && |r.value| == |components|
  {
    r := CollectInOrder(components.Keys, IsAdmitted(env, components), IdentityIn(env, components));
    if r.Some? {
      CollectedIdentities(env, components, r.value);
    }
  }

  lemma CollectedIdentities(env: Env, components: Rows, wheels: seq<WheelIdentity>)
    requires SortedBy(wheels, ByName) && OnePerName(components.Keys, IdentityIn(env, components), wheels)
    requires forall n :: n in components ==> IsAdmitted(env, components)(n)
    ensures IdentitiesOf(env, components, wheels) && |wheels| == |components|
  {
    assert |components.Keys| == |components|;
  }

  method CollectInOrder(names: set<string>, ok: string -> bool, identity: string -> WheelIdentity)
    returns (r: Option<seq<WheelIdentity>>)
    requires Named(identity)
    ensures r.Some? <==> forall n :: n in names ==> ok(n)
    ensures r.Some? ==> SortedBy(r.value, ByName) && OnePerName(names, identity, r.value)
  {
    var order := SortNames(names);
    var wheels: seq<WheelIdentity> := [];
    for i := 0 to |order|
      invariant Follows(order[..i], ok, identity, wheels)
    {
      assert order[i] in order;
      if !ok(order[i]) {
        return None;
      }
      wheels := wheels + [identity(order[i])];
    }
    assert order[..|order|] == order;
    InOrder(names, order, ok, identity, wheels);
    r := Some(wheels);
  }

  /** The identities of good names, in their order. */
  ghost predicate Follows(order: seq<string>, ok: string -> bool, identity: string -> WheelIdentity, wheels: seq<WheelIdentity>) {
    |wheels| == |order| && forall i :: 0 <= i < |order| ==> ok(order[i]) && wheels[i] == identity(order[i])
  }

  ghost predicate Lists(order: seq<string>, names: set<string>) {
    NoRepeats(order) && |order| == |names| && forall n :: n in order <==> n in names
  }

  /** `sorted` of dictionary keys. */
  method SortNames(names: set<string>) returns (order: seq<string>)
    ensures Lists(order, names) && SortedBy(order, LexLe)
  {
    var listed: seq<string> := [];
    var remaining := names;
    ghost var done: set<string> := {};
    while remaining != {}
      invariant done + remaining == names && done !! remaining && Lists(listed, done)
      decreases |remaining|
    {
      assert (forall n :: n !in remaining) ==> remaining == {};
      var name :| name in remaining;
      remaining, done, listed := remaining - {name}, done + {name}, listed + [name];
    }
    assert done == names;
    LexOrders();
    SortDistinct(listed, LexLe);
    MultisetMembers(SortBy(listed, LexLe), listed);
    order := SortBy(listed, LexLe);
  }

  /** Identities by name: one per name, and nothing else. */
  ghost predicate OnePerName(names: set<string>, identity: string -> WheelIdentity, wheels: seq<WheelIdentity>) {
    && NoRepeats(wheels) && |wheels| == |names|
    && (forall n :: n in names ==> identity(n) in wheels)
    && (forall w :: w in wheels ==> w.0 in names && w == identity(w.0))
  }

  ghost predicate Named(identity: string -> WheelIdentity) {
    forall n :: identity(n).0 == n
  }

  lemma InOrder(names: set<string>, order: seq<string>, ok: string -> bool, identity: string -> WheelIdentity,
                wheels: seq<WheelIdentity>)
    requires Named(identity) && Lists(order, names) && SortedBy(order, LexLe) && Follows(order, ok, identity, wheels)
    ensures SortedBy(wheels, ByName) && OnePerName(names, identity, wheels) && forall n :: n in names ==> ok(n)
  {
    forall n | n in names
      ensures ok(n) && identity(n) in wheels
    {
      assert n in order;
      var i :| 0 <= i < |order| && order[i] == n;
      assert wheels[i] == identity(n);
    }
    forall w | w in wheels
      ensures w.0 in names && w == identity(w.0)
    {
      var i :| 0 <= i < |wheels| && wheels[i] == w;
      assert order[i] in order;
    }
  }

  function Policies(policy: Fields): map<Key, set<Json>>
    requires PoliciesOk(policy)
  {
    map k | k in ADMISSION_LISTS :: set item | item in Get(policy, k).items
  }

  /** What the derived identity must be. */
  ghost predicate Identifies(env: Env, p: Fields, d: Deployment) {
    && Str(d.stackId) == Get(p, Id) && Str(d.manifestHash) == Get(p, ManifestHash)
    && Get(p, Components).Dict? && IdentitiesOf(env, Get(p, Components).entries, d.wheels)
    && |d.wheels| == |Get(p, Components).entries|
    && Get(p, SchemaHashes) == Dict(d.schemaHashes)
    && Get(p, Admission).Obj? && PoliciesOk(Get(p, Admission).fields)
    && d.policies == Policies(Get(p, Admission).fields)
  }

  lemma AdmitRowExactly(env: Env, row: Json)
    ensures AdmittedRow(env, row) <==> AdmitRow(env, row)
  {
  }

  lemma AdmitHeaderExactly(env: Env, p: Fields)
    ensures AdmissionHeader(env, p) <==> AdmitHeader(env, p)
  {
    SealIntactExactly(env, p);
    HasRowsExactly(p, Components);
    HasRowsExactly(p, SchemaHashes);
  }

  lemma HasRowsExactly(p: Fields, key: Key)
    ensures HasRows(p, key) <==> Get(p, key).Dict? && Get(p, key).entries != map[]
  {
    if Get(p, key).Dict? {
      var rows := Get(p, key).entries;
      assert rows != map[] <==> exists n :: n in rows;
    }
  }

  lemma PoliciesExactly(policy: Fields)
    ensures PoliciesOk(policy) <==> AdmitPolicies(policy)
  {
  }

  lemma AdmitRowsExactly(env: Env, rows: Rows)
    ensures AllRows(rows, AdmittedRowIn(env)) <==> AdmitRows(env, rows)
  {
    forall n | n in rows
      ensures AdmittedRowIn(env)(n, rows[n]) <==> AdmitRow(env, rows[n])
    {
      AdmitRowExactly(env, rows[n]);
    }
  }

  lemma AdmitSchemasExactly(env: Env, hashes: Rows)
    ensures AllRows(hashes, AdmittedSchemaIn(env)) <==> AdmitSchemas(env, hashes)
  {
    assert forall id :: id in hashes ==> (AdmittedSchemaIn(env)(id, hashes[id]) <==>
      |id| > 0 && hashes[id].Str? && env.isNonzeroHash(hashes[id].text));
  }

  lemma AdmissibleExactly(env: Env, p: Fields)
    ensures Admissible(env, p) <==> AdmitRule(env, p)
  {
    AdmitHeaderExactly(env, p);
    if AdmissionHeader(env, p) {
      PoliciesExactly(p[Admission].fields);
      AdmitRowsExactly(env, p[Components].entries);
      AdmitSchemasExactly(env, p[SchemaHashes].entries);
    }
  }

  lemma IdentitiesExactly(env: Env, components: Rows, wheels: seq<WheelIdentity>)
    requires IdentitiesOf(env, components, wheels)
    ensures forall w :: w in wheels <==> Identity(components, w)
    ensures forall i, j :: 0 <= i < j < |wheels| ==> wheels[i].0 != wheels[j].0 && LexLe(wheels[i].0, wheels[j].0)
  {
    forall w | Identity(components, w)
      ensures w in wheels
    {
      assert w == IdentityOf(env, w.0, components[w.0]);
    }
    forall i, j | 0 <= i < j < |wheels|
      ensures wheels[i].0 != wheels[j].0 && LexLe(wheels[i].0, wheels[j].0)
    {
      assert wheels[i] in wheels && wheels[j] in wheels && ByName(wheels[i], wheels[j]);
    }
  }

  lemma IdentifiedIs(env: Env, p: Fields, d: Deployment)
    requires Identifies(env, p, d) && PoliciesOk(p[Admission].fields)
    ensures AdmitResult(p, d)
  {
    IdentitiesExactly(env, p[Components].entries, d.wheels);
    PoliciesAre(p[Admission].fields);
  }

  lemma PoliciesAre(policy: Fields)
    requires PoliciesOk(policy)
    ensures Policies(policy).Keys == {Capabilities, SemanticProfiles, FinalityPolicies, WarmupPolicies, ScorePolicies}
    ensures forall k :: k in Policies(policy) ==>
              k in policy && policy[k].List? && forall item :: item in Policies(policy)[k] <==> item in policy[k].items
  {
    PoliciesExactly(policy);
  }

  /** `deployment_identity_from_candidate` accepts exactly the admissible manifests, and its wheel
      identities correspond one to one with the components. */
  method DeploymentIdentity(env: Env, p: Fields) returns (r: Option<Deployment>)
    ensures r.Some? <==> AdmitRule(env, p)
    ensures r.Some? ==> AdmitResult(p, r.value) && Identifies(env, p, r.value)
  {
    AdmissibleExactly(env, p);
    if !AdmissionHeader(env, p) {
      return None;
    }
    var wheels := WheelIdentities(env, Get(p, Components).entries);
    if wheels.None? {
      return None;
    }
    var hashes := CheckedRows(Get(p, SchemaHashes).entries, AdmittedSchemaIn(env), (id: string, digest: Json) => digest);
    if hashes.None? {
      return None;
    }
    assert hashes.value == Get(p, SchemaHashes).entries;
    var policy := Get(p, Admission).fields;
    if !PoliciesOk(policy) {
      return None;
    }
    r := Some(Deployment(Get(p, Id).text, Get(p, ManifestHash).text, wheels.value, hashes.value, Policies(policy)));
    IdentifiedIs(env, p, r.value);
  }

  /** The identity admission derives from a bound row names the component's version and the digest
      of the bound wheel's bytes. */
  lemma BoundIdentity(env: Env, name: string, row: Json, dir: Directory, wheel: string)
    requires Sound(env) && RowBasics(env, row) && RowHasSha(env, row) && HasVersion(row) && wheel in WheelNames(dir)
    ensures AdmittedRow(env, Bind(env, dir)(row, wheel))
    ensures IdentityOf(env, name, Bind(env, dir)(row, wheel)) ==
            (name, Get(row.fields, Version).text, env.fileHash(dir[wheel].bytes))
  {
  }

  /** A component's version and the digest of the bytes of the wheel bound to it. */
  function BoundIdentityIn(env: Env, components: Rows, dir: Directory, wheelOf: map<string, string>): string -> WheelIdentity {
    (n: string) =>
      (n, VersionOf(components, n), if n in wheelOf && wheelOf[n] in dir then env.fileHash(dir[wheelOf[n]].bytes) else "")
  }

  ghost predicate RowsIdentified(env: Env, rows: Rows, identity: string -> WheelIdentity) {
    forall n :: n in rows ==> AdmittedRow(env, rows[n]) && IdentityOf(env, n, rows[n]) == identity(n)
  }

  lemma BoundIdentities(env: Env, components: Rows, dir: Directory, wheelOf: map<string, string>)
    requires Sound(env) && SourceRows(env, components) && OneToOne(components.Keys, WheelNames(dir), wheelOf)
    ensures RowsIdentified(env, BoundRows(components, Bind(env, dir), wheelOf), BoundIdentityIn(env, components, dir, wheelOf))
  {
    var rows := BoundRows(components, Bind(env, dir), wheelOf);
    forall n | n in rows
      ensures AdmittedRow(env, rows[n]) && IdentityOf(env, n, rows[n]) == BoundIdentityIn(env, components, dir, wheelOf)(n)
    {
      BoundIdentity(env, n, components[n], dir, wheelOf[n]);
    }
  }

  lemma IdentitiesAre(env: Env, p: Fields, rows: Rows, d: Deployment, identity: string -> WheelIdentity)
    requires Identifies(env, p, d) && Get(p, Components) == Dict(rows)
    requires RowsIdentified(env, rows, identity)
    ensures OnePerName(rows.Keys, identity, d.wheels)
  {
    assert |rows.Keys| == |rows|;
  }

  /** The identity derived from a released manifest is, for each component once and nothing else, its
      version and the digest of the bytes of the wheel bound to it. */
  lemma ReleasedIdentities(env: Env, r: Release, d: Deployment)
    requires Released(env, r) && Identifies(env, r.payload, d)
    ensures r.components.Keys == r.wheelOf.Keys && forall n :: n in r.components ==> r.wheelOf[n] in r.dir
    ensures OnePerName(r.components.Keys, BoundIdentityIn(env, r.components, r.dir, r.wheelOf), d.wheels)
  {
    ReleasedComponents(env, r);
    ReleasedRowsIdentified(env, r);
    IdentitiesAre(env, r.payload, BoundRows(r.components, Bind(env, r.dir), r.wheelOf), d,
                  BoundIdentityIn(env, r.components, r.dir, r.wheelOf));
  }

  lemma ReleasedRowsIdentified(env: Env, r: Release)
    requires Released(env, r)
    ensures r.components.Keys == r.wheelOf.Keys && forall n :: n in r.components ==> r.wheelOf[n] in r.dir
    ensures RowsIdentified(env, BoundRows(r.components, Bind(env, r.dir), r.wheelOf),
                           BoundIdentityIn(env, r.components, r.dir, r.wheelOf))
  {
    ReleasedBinding(env, r);
    BoundIdentities(env, r.components, r.dir, r.wheelOf);
  }


  lemma ReleasedComponents(env: Env, r: Release)
    requires Released(env, r)
    ensures r.components.Keys == r.wheelOf.Keys
    ensures var rows := BoundRows(r.components, Bind(env, r.dir), r.wheelOf);
            Get(r.payload, Components) == Dict(rows) && rows.Keys == r.components.Keys
  {
    ReleaseHeader(env, r);
  }

  /** Every requirement of a bound wheel on another component of the stack, however it is written, is
      pinned to the version that the other component's own wheel carries. */
  lemma InternalPinsAreWheelVersions(env: Env, components: Rows, dir: Directory, byName: map<string, string>,
                                     wheelOf: map<string, string>, c: string, d: string, i: nat, r: Reading)
    requires NamesAreSolid(env.isSpace) && Binds(env, components, dir, byName, wheelOf)
    requires c in components && d in components && wheelOf[c] in dir && wheelOf[d] in dir
    requires dir[wheelOf[c]].metadata.Some? && i < |dir[wheelOf[c]].metadata.value.requires_|
    requires NamesComponent(env, dir[wheelOf[c]].metadata.value.requires_[i], r, d)
    ensures dir[wheelOf[d]].metadata.Some? && Pins(r, dir[wheelOf[d]].metadata.value.version)
  {
    BindingFollowsRule(env, components, dir, byName, wheelOf);
    assert Suits(env, components, c, dir[wheelOf[c]]) && Suits(env, components, d, dir[wheelOf[d]]);
    assert StackPinned(env, dir[wheelOf[c]].metadata.value.requires_[i], components);
  }
}
