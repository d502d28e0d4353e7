/** Manifests that exist: inputs on which the release candidate pipeline goes through, and one that it
    materializes although the resolver rejects it. */
module StackSamples {
  import opened Prelude
  import opened Requirements
  import opened Sorting
  import opened StackCandidate
  import opened StackRules

  /** Texts of the kinds that a template holds. */
  datatype Sample = Sample(repo: string, version: string, sha: string, time: string, text: string)

  ghost predicate Accepted(env: Env, x: Sample) {
    && env.isRepository(x.repo) && env.isVersion(x.version) && NonBlank(env, Str(x.version)) && NameText(x.version)
    && !env.isSpace('=') && !env.isSpace('>')
    && env.isSha40(x.sha) && env.isTimestamp(x.time) && NonBlank(env, Str(x.text))
  }

  function Row(x: Sample): Fields {
    map[Repo := Str(x.repo), Ref := Str(x.text), Version := Str(x.version), Sha := Str(x.sha)]
  }

  function Policy(x: Sample): Json {
    Obj(map k | k in ADMISSION_LISTS :: List([Str(x.text)]))
  }

  function Origin(x: Sample): Json {
    Obj(map[Builder := Str(x.text), RunId := Str(x.text)])
  }

  function Template(x: Sample, names: set<string>): Fields {
    map[Schema := Str(TEMPLATE_SCHEMA), NotARelease := Bool(true), Id := Str(x.text), Admission := Policy(x),
        Components := Dict(map n | n in names :: Obj(Row(x)))]
  }

  function Made(x: Sample, names: set<string>): Rows {
    map n | n in names :: MaterializedRow(n, Row(x), x.sha)
  }

  function Source(env: Env, x: Sample, names: set<string>): Fields {
    Sealed(env, SourcePayload(Template(x, names), x.time, Origin(x), Made(x, names)))
  }

  ghost predicate Names(names: set<string>) {
    "openpine" in names && forall n :: n in names ==> IsComponentName(n)
  }

  lemma PolicyOk(env: Env, x: Sample)
    requires Accepted(env, x)
    ensures AdmissionPolicy(Policy(x)) && ProvenanceOk(env, Origin(x))
  {
    assert Policy(x).fields.Keys == ADMISSION_LISTS;
    assert Builder in Origin(x).fields;
  }

  lemma RowOk(env: Env, x: Sample, name: string)
    requires Accepted(env, x) && IsComponentName(name)
    ensures TemplateRowOk(env, name, Obj(Row(x)), x.sha)
  {
  }

  lemma TemplateFields(x: Sample, names: set<string>)
    ensures var t := Template(x, names);
            && Get(t, Schema) == Str(TEMPLATE_SCHEMA) && Get(t, NotARelease) == Bool(true) && Get(t, Id) == Str(x.text)
            && Get(t, Admission) == Policy(x) && Get(t, WorkerPolicy).Null?
            && Get(t, Components) == Dict(map n | n in names :: Obj(Row(x)))
  {
  }

  /** Every set of component names with "openpine" in it can be materialized. */
  lemma NamesMaterialize(env: Env, x: Sample, names: set<string>)
    requires Accepted(env, x) && Names(names)
    ensures Materialized(env, Template(x, names), x.sha, x.time, Origin(x), Made(x, names), Source(env, x, names))
  {
    TemplateFields(x, names);
    PolicyOk(env, x);
    forall n | n in names
      ensures TemplateRowOk(env, n, Obj(Row(x)), x.sha)
    {
      RowOk(env, x, n);
    }
  }

  const CLASHING: set<string> := {"openpine", "a-b", "a_b"}

  /** Names that differ only in `-` and `_` are materialized, and the resolver rejects the manifest. */
  lemma ClashIsMaterializedNotLoadable(env: Env, x: Sample)
    requires Sound(env) && Accepted(env, x)
    ensures Materializable(env, Template(x, CLASHING), x.sha, x.time, Origin(x))
    ensures Materialized(env, Template(x, CLASHING), x.sha, x.time, Origin(x), Made(x, CLASHING), Source(env, x, CLASHING))
    ensures !Loadable(env, Source(env, x, CLASHING))
  {
    ClashingNames();
    NamesMaterialize(env, x, CLASHING);
    MaterializedLoadableExactly(env, Template(x, CLASHING), x.sha, x.time, Origin(x), Made(x, CLASHING), Source(env, x, CLASHING));
    assert Made(x, CLASHING).Keys == CLASHING;
  }

  lemma ClashingNames()
    ensures Names(CLASHING) && !DistinctOutputs(CLASHING)
  {
    assert "a-b"[1] != "a_b"[1];
    assert SameOutput("a-b", "a_b");
    assert "a-b" in CLASHING && "a_b" in CLASHING;
  }

  // ----- a release

  const RELEASED: set<string> := {"openpine", CONTRACTS}

  /** Two wheels, the first of which requires the second at its version, by `operator`. */
  function Wheelhouse(x: Sample, operator: string): Directory {
    map["o.whl" := WheelFile([], Some(Metadata("openpine", x.version, [CONTRACTS + (operator + x.version)])), None),
        "c.whl" := WheelFile([], Some(Metadata(CONTRACTS, x.version, [])), Some(SCHEMAS))]
  }

  const SCHEMAS: seq<(Json, Bytes)> := [(Str("openpine.run.v2"), []), (Str("openpine.worker.protocol.v2"), [])]

  const WHEEL_OF: map<string, string> := map["openpine" := "o.whl", CONTRACTS := "c.whl"]

  function ByName(): map<string, string> {
    map[NormalizeName("openpine") := "openpine", NormalizeName(CONTRACTS) := CONTRACTS]
  }

  function Hashes(env: Env): Rows {
    map["openpine.run.v2" := Str(env.fileHash([])), "openpine.worker.protocol.v2" := Str(env.fileHash([]))]
  }

  ghost function SampleRelease(env: Env, x: Sample): Release {
    var source, made := Source(env, x, RELEASED), Made(x, RELEASED);
    assert made.Keys == RELEASED == WHEEL_OF.Keys;
    Release(Template(x, RELEASED), x.sha, x.time, Origin(x), made, source, Wheelhouse(x, "=="), ByName(), WHEEL_OF, Hashes(env),
            FinalPayload(env, source, BoundRows(made, Bind(env, Wheelhouse(x, "==")), WHEEL_OF), Hashes(env)))
  }

  /** Both producers go through on a two-component stack. */
  lemma SampleIsReleased(env: Env, x: Sample)
    requires Sound(env) && Accepted(env, x)
    ensures Released(env, SampleRelease(env, x))
  {
    ReleasedNames();
    NamesMaterialize(env, x, RELEASED);
    MaterializedHeader(env, Template(x, RELEASED), x.sha, x.time, Origin(x), Made(x, RELEASED), Source(env, x, RELEASED));
    SampleBinds(env, x);
    SampleContracts(env, x);
  }

  lemma ReleasedNames()
    ensures Names(RELEASED) && |"openpine"| != |CONTRACTS| && "openpine" != CONTRACTS
    ensures NormalizeName("openpine") != NormalizeName(CONTRACTS)
  {
    assert |NormalizeName("openpine")| != |NormalizeName(CONTRACTS)|;
  }

  lemma WheelFiles(x: Sample, operator: string)
    ensures WheelNames(Wheelhouse(x, operator)) == {"o.whl", "c.whl"} && "o.whl" != "c.whl"
    ensures Distribution(Wheelhouse(x, operator))("o.whl") == NormalizeName("openpine")
    ensures Distribution(Wheelhouse(x, operator))("c.whl") == NormalizeName(CONTRACTS)
  {
    assert "o.whl"[0] != "c.whl"[0];
    assert EndsWith("o.whl", ".whl") && EndsWith("c.whl", ".whl");
  }

  lemma SampleBinds(env: Env, x: Sample)
    requires Sound(env) && Accepted(env, x)
    ensures Binds(env, Made(x, RELEASED), Wheelhouse(x, "=="), ByName(), WHEEL_OF)
  {
    ReleasedNames();
    WheelFiles(x, "==");
    var made, dir := Made(x, RELEASED), Wheelhouse(x, "==");
    assert made.Keys == RELEASED;
    SampleVersion(env, x, "openpine");
    SampleVersion(env, x, CONTRACTS);
    SampleFits(env, x, "o.whl");
    SampleFits(env, x, "c.whl");
    TwoBind("openpine", CONTRACTS, "o.whl", "c.whl", HasVersionIn(made), HasMetadataIn(dir), NormalizeName, Distribution(dir),
            Fits(env, made, dir));
  }

  /** Two names and two wheels with matching keys bind, when both pairs fit. */
  lemma TwoBind(a: string, b: string, v: string, w: string, nameOk: string -> bool, wheelOk: string -> bool,
                nameKey: string -> string, wheelKey: string -> string, fits: Fit)
    requires a != b && v != w && nameKey(a) != nameKey(b) && wheelKey(v) == nameKey(a) && wheelKey(w) == nameKey(b)
    requires nameOk(a) && nameOk(b) && wheelOk(v) && wheelOk(w)
    requires var byName := map[nameKey(a) := a, nameKey(b) := b]; fits(byName, a, v) && fits(byName, b, w)
    ensures CanBind({a, b}, {v, w}, nameOk, wheelOk, nameKey, wheelKey, fits,
                    map[nameKey(a) := a, nameKey(b) := b], map[a := v, b := w])
  {
    var wheelOf := map[a := v, b := w];
    assert wheelOf[a] == v && wheelOf[b] == w;
  }

  lemma SampleVersion(env: Env, x: Sample, n: string)
    requires Sound(env) && Accepted(env, x) && n in RELEASED
    ensures HasVersionIn(Made(x, RELEASED))(n) && VersionOf(Made(x, RELEASED), n) == x.version
  {
    assert Made(x, RELEASED)[n] == MaterializedRow(n, Row(x), x.sha);
    assert Get(MaterializedRow(n, Row(x), x.sha).fields, Version) == Str(x.version);
  }

  /** How a pin reads. */
  function Pin(name: string, spec: string): Reading {
    Reading("", name, "", spec, "", "")
  }

  lemma PinIsRead(env: Env, name: string, operator: string, version: string)
    requires Sound(env) && !env.isSpace('=') && !env.isSpace('>') && (operator == "==" || operator == ">=")
    requires NameText(name) && NameText(version) && version != ""
    ensures ReadsAs(env.isSpace, name + (operator + version), Pin(name, operator + version))
    ensures Pins(Pin(name, operator + version), version) <==> operator == "=="
  {
    var spec := operator + version;
    assert forall c :: c in spec ==> InName(c) || c == '=' || c == '>';
    assert spec[0] == operator[0] && spec[|spec| - 1] == version[|version| - 1];
    SpecIsRead(env.isSpace, name, spec);
    assert operator == ">=" ==> spec[0] != ("==" + version)[0];
  }

  lemma SpecIsRead(isSpace: char -> bool, name: string, spec: string)
    requires NamesAreSolid(isSpace) && NameText(name) && Trim(isSpace, spec) && spec != "" && !InName(spec[0])
    requires forall c :: c in spec ==> InName(c) || c == '=' || c == '>'
    ensures ReadsAs(isSpace, name + spec, Pin(name, spec))
    ensures forall version :: Pins(Pin(name, spec), version) <==> spec == "==" + version
  {
    assert "" + (name + "" + spec) + "" + "" == name + spec;
    SpecPins(name, spec);
  }

  lemma SpecPins(name: string, spec: string)
    requires NameText(name) && forall c :: c in spec ==> InName(c) || c == '=' || c == '>'
    ensures forall version :: Pins(Pin(name, spec), version) <==> spec == "==" + version
  {
    assert name + "" + spec == name + spec;
    assert forall i :: 0 <= i < |spec| ==> spec[i] in spec;
    NoVcs(name + spec);
    NothingBlank(spec);
  }

  lemma NoVcs(s: string)
    requires forall i :: 0 <= i < |s| ==> s[i] != '+'
    ensures !Mentions(s, "git+")
  {
    if i :| StandsAt(s, "git+", i) {
      assert s[i..i + 4][3] == s[i + 3];
    }
  }

  lemma {:induction false} NothingBlank(s: string)
    requires ' ' !in s
    ensures Filter(s, NotBlank) == s
  {
    if s != "" {
      NothingBlank(s[1..]);
    }
  }

  lemma SamplePinned(env: Env, x: Sample, operator: string)
    requires Sound(env) && Accepted(env, x) && (operator == "==" || operator == ">=")
    ensures RequirementExact(env, CONTRACTS + (operator + x.version), Versions(Made(x, RELEASED), ByName())) <==> operator == "=="
  {
    var raw, spec := CONTRACTS + (operator + x.version), operator + x.version;
    SampleVersion(env, x, "openpine");
    SampleVersion(env, x, CONTRACTS);
    ReleasedNames();
    assert NameText(CONTRACTS);
    PinIsRead(env, CONTRACTS, operator, x.version);
    assert '\n' !in spec;
    RequirementReads(env.isSpace, raw, Pin(CONTRACTS, spec), x.version);
  }

  lemma SampleFits(env: Env, x: Sample, wheel: string)
    requires Sound(env) && Accepted(env, x) && (wheel == "o.whl" || wheel == "c.whl")
    ensures WheelFits(env, Wheelhouse(x, "=="), wheel, x.version, Versions(Made(x, RELEASED), ByName()))
  {
    SamplePinned(env, x, "==");
  }

  /** The same wheelhouse with a looser pin is not finalized. */
  lemma LoosePinIsNotFinalized(env: Env, x: Sample)
    requires Sound(env) && Accepted(env, x)
    ensures !Bindable(env, Source(env, x, RELEASED), Wheelhouse(x, ">="))
    ensures !FinalizeRule(env, Source(env, x, RELEASED), Wheelhouse(x, ">="))
  {
    SampleComponents(env, x);
    forall byName, wheelOf | Binds(env, Made(x, RELEASED), Wheelhouse(x, ">="), byName, wheelOf)
      ensures false
    {
      LoosePinDoesNotBind(env, x, byName, wheelOf);
    }
    BindableExactly(env, Source(env, x, RELEASED), Wheelhouse(x, ">="));
  }

  lemma SampleComponents(env: Env, x: Sample)
    requires Sound(env) && Accepted(env, x)
    ensures Get(Source(env, x, RELEASED), Components) == Dict(Made(x, RELEASED))
  {
    ReleasedNames();
    NamesMaterialize(env, x, RELEASED);
    MaterializedHeader(env, Template(x, RELEASED), x.sha, x.time, Origin(x), Made(x, RELEASED), Source(env, x, RELEASED));
  }

  lemma LoosePinDoesNotBind(env: Env, x: Sample, byName: map<string, string>, wheelOf: map<string, string>)
    requires Sound(env) && Accepted(env, x)
    ensures !Binds(env, Made(x, RELEASED), Wheelhouse(x, ">="), byName, wheelOf)
  {
    var components, dir := Made(x, RELEASED), Wheelhouse(x, ">=");
    assert components.Keys == RELEASED;
    WheelFiles(x, ">=");
    ReleasedNames();
    if Binds(env, components, dir, byName, wheelOf) {
      SampleIndex(byName);
      assert wheelOf["openpine"] == "o.whl";
      LooseWheelDoesNotFit(env, x);
    }
  }

  lemma LooseWheelDoesNotFit(env: Env, x: Sample)
    requires Sound(env) && Accepted(env, x)
    ensures !Fits(env, Made(x, RELEASED), Wheelhouse(x, ">="))(ByName(), "openpine", "o.whl")
  {
    var requirements := Wheelhouse(x, ">=")["o.whl"].metadata.value.requires_;
    SamplePinned(env, x, ">=");
    assert requirements[0] == CONTRACTS + (">=" + x.version);
    assert !RequirementsExact(env, requirements, Versions(Made(x, RELEASED), ByName()));
  }

  lemma SampleIndex(byName: map<string, string>)
    requires IndexOf(RELEASED, NormalizeName, byName)
    ensures byName == ByName()
  {
    ReleasedNames();
    assert IndexOf(RELEASED, NormalizeName, ByName());
    IndexUnique(RELEASED, NormalizeName, byName, ByName());
  }

  lemma SampleContracts(env: Env, x: Sample)
    ensures ContractHashes(env, Wheelhouse(x, "=="), Hashes(env))
  {
    WheelFiles(x, "==");
    ContractsName();
    assert "openpine.run.v2"[9] != "openpine.worker.protocol.v2"[9];
    assert ListsId(SCHEMAS, 2, "openpine.run.v2") by { assert SCHEMAS[0].0 == Str("openpine.run.v2"); }
    assert ListsId(SCHEMAS, 2, "openpine.worker.protocol.v2") by { assert SCHEMAS[1].0 == Str("openpine.worker.protocol.v2"); }
    assert IsContracts(Wheelhouse(x, "=="), "c.whl");
  }

  // ----- patterns that accept the samples

  function Digest(): (s: string)
    ensures PrefixedDigest(s)
  {
    "sha256:" + seq(64, _ => '1')
  }

  const TEXTS := Sample("openpine/openpine", "1.0.0rc1", "0123456789abcdef0123456789abcdef01234567", "2026-01-01T00:00:00Z", "x")

  /** Patterns that accept just these texts, and one digest. */
  function Patterns(): Env {
    Env(c => c == ' ', s => s == TEXTS.time, s => s == TEXTS.repo, s => s == TEXTS.version, s => s == TEXTS.sha,
        s => s == Digest(), s => s == Digest(), _ => Digest(), _ => Digest())
  }

  /** So releases and rejected materialized manifests both exist. */
  lemma SamplesExist()
    ensures Sound(Patterns()) && Accepted(Patterns(), TEXTS)
    ensures exists env, r :: Released(env, r)
  {
    assert TEXTS.version[0] == '1' && TEXTS.text[0] == 'x';
    assert NameText(TEXTS.version);
    assert NonBlank(Patterns(), Str(TEXTS.version));
    SampleIsReleased(Patterns(), TEXTS);
  }
}
