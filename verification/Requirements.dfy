/** The text of a wheel's `Requires-Dist` entries, as scripts/finalize_stack_candidate.py takes it apart:
    the part before any environment marker, the distribution it names and the version it pins. */
module Requirements {
  import opened Prelude
  import opened Sorting

  // ----- distribution names

  /** `_` and `.` become `-`, letters become lower case. */
  function NormalChar(c: char): char {
    if c == '_' || c == '.' then '-' else if 'A' <= c <= 'Z' then c - 'A' + 'a' else c
  }

  function NormalizeName(s: string): (r: string)
    ensures |r| == |s| && forall i :: 0 <= i < |s| ==> r[i] == NormalChar(s[i])
  {
    seq(|s|, i requires 0 <= i < |s| => NormalChar(s[i]))
  }

  /** Equal, both separators, or one letter in two cases. */
  ghost predicate SameLetter(x: char, y: char) {
    || x == y
    || ((x == '-' || x == '_' || x == '.') && (y == '-' || y == '_' || y == '.'))
    || ('A' <= x <= 'Z' && y as int == x as int + 32)
    || ('A' <= y <= 'Z' && x as int == y as int + 32)
  }

  /** Two spellings of one distribution. */
  ghost predicate SameDistribution(a: string, b: string) {
    |a| == |b| && forall i :: 0 <= i < |a| ==> SameLetter(a[i], b[i])
  }

  /** Names are equal after normalization exactly when they spell one distribution. */
  lemma NormalizedAlike(a: string, b: string)
    ensures NormalizeName(a) == NormalizeName(b) <==> SameDistribution(a, b)
  {
    assert forall i :: 0 <= i < |a| && i < |b| ==> (NormalizeName(a)[i] == NormalizeName(b)[i] <==> SameLetter(a[i], b[i]));
  }

  // ----- taking a requirement apart

  /** `[A-Za-z0-9_.-]` */
  predicate IsNameChar(c: char) {
    'A' <= c <= 'Z' || 'a' <= c <= 'z' || '0' <= c <= '9' || c in "_.-"
  }

  /** `str.partition(c)[0]` */
  function Before(s: string, c: char): string {
    if s == "" || s[0] == c then "" else [s[0]] + Before(s[1..], c)
  }

  function Strip(isSpace: char -> bool, s: string): string
    decreases |s|
  {
    if s == "" then ""
    else if isSpace(s[0]) then Strip(isSpace, s[1..])
    else if isSpace(s[|s| - 1]) then Strip(isSpace, s[..|s| - 1])
    else s
  }

  function WithoutSpaces(s: string): string {
    if s == "" then "" else if s[0] == ' ' then WithoutSpaces(s[1..]) else [s[0]] + WithoutSpaces(s[1..])
  }

  /** Length of the leading `[A-Za-z0-9_.-]*`. */
  function NameLength(s: string): (n: nat)
    ensures n <= |s|
  {
    if s != "" && IsNameChar(s[0]) then 1 + NameLength(s[1..]) else 0
  }

  predicate Contains(s: string, part: string)
    requires part != ""
  {
    |part| <= |s| && (s[..|part|] == part || Contains(s[1..], part))
  }

  /** The part before any environment marker. */
  function Body(isSpace: char -> bool, raw: string): string {
    Strip(isSpace, Before(raw, ';'))
  }

  /** The distribution a requirement names, when it has the usual form. */
  function Dependency(isSpace: char -> bool, raw: string): Option<string> {
    var body := Body(isSpace, raw);
    var n := NameLength(body);
    if n > 0 && '\n' !in body then Some(NormalizeName(body[..n])) else None
  }

  predicate PinnedTo(isSpace: char -> bool, raw: string, version: string) {
    var body := Body(isSpace, raw);
    && '@' !in body && !Contains(body, "git+")
    && WithoutSpaces(Strip(isSpace, body[NameLength(body)..])) == "==" + version
  }

  // ----- how a requirement reads

  /** A requirement cut in pieces: `name` and `spec` between white space, and the marker. */
  datatype Reading = Reading(pre: string, name: string, gap: string, spec: string, post: string, marker: string)

  ghost predicate NameText(s: string) {
    forall i :: 0 <= i < |s| ==> InName(s[i])
  }

  /** A letter, a digit, an underscore, a dot or a hyphen. */
  ghost predicate InName(c: char) {
    'a' <= c <= 'z' || 'A' <= c <= 'Z' || '0' <= c <= '9' || c == '_' || c == '.' || c == '-'
  }

  /** No white space in names, as in Python. */
  ghost predicate NamesAreSolid(isSpace: char -> bool) {
    forall c :: isSpace(c) ==> !InName(c)
  }

  ghost predicate Blank(isSpace: char -> bool, s: string) {
    forall i :: 0 <= i < |s| ==> isSpace(s[i])
  }

  /** Empty, or without white space at either end. */
  ghost predicate Trim(isSpace: char -> bool, s: string) {
    s == "" || (!isSpace(s[0]) && !isSpace(s[|s| - 1]))
  }

  ghost predicate ReadsAs(isSpace: char -> bool, raw: string, r: Reading) {
    && raw == r.pre + (r.name + r.gap + r.spec) + r.post + r.marker
    && ';' !in r.pre && ';' !in r.gap && ';' !in r.spec && ';' !in r.post && (r.marker == "" || r.marker[0] == ';')
    && Blank(isSpace, r.pre) && Blank(isSpace, r.gap) && Blank(isSpace, r.post)
    && NameText(r.name) && Trim(isSpace, r.spec)
    && (r.name == "" || r.spec == "" ==> r.gap == "")
    && (r.gap == "" && r.spec != "" ==> !InName(r.spec[0]))
  }

  ghost predicate NotBlank(c: char) {
    c != ' '
  }

  ghost predicate StandsAt(s: string, part: string, i: int) {
    0 <= i <= |s| - |part| && s[i..i + |part|] == part
  }

  ghost predicate Mentions(s: string, part: string) {
    exists i :: StandsAt(s, part, i)
  }

  /** No `@`, no `git+`, and, blanks aside, `==` and the version. */
  ghost predicate Pins(r: Reading, version: string) {
    && '@' !in r.gap && '@' !in r.spec && !Mentions(r.name + r.gap + r.spec, "git+")
    && Filter(r.spec, NotBlank) == "==" + version
  }

  /** What finalization makes of a requirement, from how its text reads. */
  lemma RequirementReads(isSpace: char -> bool, raw: string, r: Reading, version: string)
    requires NamesAreSolid(isSpace) && ReadsAs(isSpace, raw, r)
    ensures Dependency(isSpace, raw) ==
            if r.name == "" || '\n' in r.gap || '\n' in r.spec then None else Some(NormalizeName(r.name))
    ensures PinnedTo(isSpace, raw, version) <==> Pins(r, version)
  {
    var body := r.name + r.gap + r.spec;
    BodyReads(isSpace, raw, r);
    assert body[..|r.name|] == r.name && body[|r.name|..] == r.gap + r.spec;
    assert '\n' !in r.name && '@' !in r.name;
    StripSpaces(isSpace, r.gap, r.spec, "");
    assert r.gap + r.spec + "" == r.gap + r.spec;
    ContainsExactly(body, "git+");
    WithoutSpacesFilters(r.spec);
  }

  lemma BodyReads(isSpace: char -> bool, raw: string, r: Reading)
    requires NamesAreSolid(isSpace) && ReadsAs(isSpace, raw, r)
    ensures Body(isSpace, raw) == r.name + r.gap + r.spec && NameLength(r.name + r.gap + r.spec) == |r.name|
  {
    var body := r.name + r.gap + r.spec;
    BeforeMarker(r.pre + body + r.post, r.marker, ';');
    StripSpaces(isSpace, r.pre, body, r.post);
    assert body == r.name + (r.gap + r.spec);
    NameEnds(r.name, r.gap + r.spec);
  }

  lemma {:induction false} BeforeMarker(s: string, marker: string, c: char)
    requires c !in s && (marker == "" || marker[0] == c)
    ensures Before(s + marker, c) == s
  {
    if s == "" {
      assert s + marker == marker;
    } else {
      assert (s + marker)[1..] == s[1..] + marker;
      BeforeMarker(s[1..], marker, c);
    }
  }

  lemma {:induction false} StripSpaces(isSpace: char -> bool, pre: string, core: string, post: string)
    requires Blank(isSpace, pre) && Blank(isSpace, post) && Trim(isSpace, core)
    ensures Strip(isSpace, pre + core + post) == core
    decreases |pre| + |post|
  {
    var s := pre + core + post;
    if pre != "" {
      assert s[1..] == pre[1..] + core + post;
      StripSpaces(isSpace, pre[1..], core, post);
    } else if core == "" && post != "" {
      assert s[1..] == pre + core + post[1..];
      StripSpaces(isSpace, pre, core, post[1..]);
    } else if post != "" {
      assert s[..|s| - 1] == pre + core + post[..|post| - 1];
      StripSpaces(isSpace, pre, core, post[..|post| - 1]);
    } else {
      assert s == core;
    }
  }

  lemma {:induction false} NameEnds(name: string, rest: string)
    requires NameText(name) && (rest == "" || !InName(rest[0]))
    ensures NameLength(name + rest) == |name|
  {
    if name == "" {
      assert name + rest == rest;
    } else {
      assert (name + rest)[1..] == name[1..] + rest;
      NameEnds(name[1..], rest);
    }
  }

  lemma {:induction false} WithoutSpacesFilters(s: string)
    ensures WithoutSpaces(s) == Filter(s, NotBlank)
  {
    if s != "" {
      WithoutSpacesFilters(s[1..]);
    }
  }

  lemma {:induction false} ContainsExactly(s: string, part: string)
    requires part != ""
    ensures Contains(s, part) <==> Mentions(s, part)
  {
    if |part| <= |s| {
      ContainsExactly(s[1..], part);
      MentionsStep(s, part);
    }
  }

  lemma SliceShifts(s: string, i: nat, n: nat)
    requires 0 < i && i + n <= |s|
    ensures s[i..i + n] == s[1..][i - 1..i - 1 + n]
  {
    var a, b := s[i..i + n], s[1..][i - 1..i - 1 + n];
    forall k | 0 <= k < n
      ensures a[k] == b[k]
    {
      assert a[k] == s[i + k] && b[k] == s[1..][i - 1 + k];
    }
  }

  lemma MentionsStep(s: string, part: string)
    requires s != "" && |part| <= |s|
    ensures Mentions(s, part) <==> s[..|part|] == part || Mentions(s[1..], part)
  {
    assert s[..|part|] == s[0..0 + |part|];
    assert s[..|part|] == part ==> StandsAt(s, part, 0);
    if i :| StandsAt(s[1..], part, i) {
      SliceShifts(s, i + 1, |part|);
      assert StandsAt(s, part, i + 1);
    }
    if i :| StandsAt(s, part, i) && i != 0 {
      SliceShifts(s, i, |part|);
      assert StandsAt(s[1..], part, i - 1);
    }
  }

  /** Of all white space only the blank. */
  ghost predicate OnlyBlanks(isSpace: char -> bool, s: string) {
    forall c :: c in s && isSpace(c) ==> c == ' '
  }

  /** The plain form: a name and a tail with no marker, no URL and no white space but blanks. */
  lemma PlainRequirement(isSpace: char -> bool, name: string, tail: string, version: string)
    requires NamesAreSolid(isSpace) && isSpace(' ') && name != "" && NameText(name) && (tail == "" || !InName(tail[0]))
    requires OnlyBlanks(isSpace, tail) && ';' !in tail && '@' !in tail && '\n' !in tail && !Mentions(name + tail, "git+")
    ensures Dependency(isSpace, name + tail) == Some(NormalizeName(name))
    ensures PinnedTo(isSpace, name + tail, version) <==> Filter(tail, NotBlank) == "==" + version
  {
    var r := ReadPlainly(isSpace, name, tail);
    NoUrl(r, name, tail);
    RequirementReads(isSpace, name + tail, r, version);
  }

  lemma NoUrl(r: Reading, name: string, tail: string)
    requires r.name == name && tail == r.gap + r.spec + r.post && !Mentions(name + tail, "git+")
    ensures !Mentions(r.name + r.gap + r.spec, "git+")
    ensures forall c :: c !in tail ==> c !in r.gap && c !in r.spec
  {
    if Mentions(r.name + r.gap + r.spec, "git+") {
      MentionsMore(r.name + r.gap + r.spec, r.post, "git+");
      Regroup(r.name, r.gap, r.spec, r.post);
    }
  }

  lemma ReadPlainly(isSpace: char -> bool, name: string, tail: string) returns (r: Reading)
    requires NamesAreSolid(isSpace) && name != "" && NameText(name) && (tail == "" || !InName(tail[0]))
    requires OnlyBlanks(isSpace, tail) && ';' !in tail
    ensures ReadsAs(isSpace, name + tail, r) && r.name == name && tail == r.gap + r.spec + r.post
    ensures Filter(tail, NotBlank) == Filter(r.spec, NotBlank)
  {
    var gap, spec, post := TailSplits(isSpace, tail);
    r := Reading("", name, gap, spec, post, "");
    Regroup(name, gap, spec, post);
  }

  lemma Regroup(name: string, gap: string, spec: string, post: string)
    ensures name + (gap + spec + post) == "" + (name + gap + spec) + post + "" == name + gap + spec + post
  {
  }

  lemma TailSplits(isSpace: char -> bool, tail: string) returns (gap: string, spec: string, post: string)
    requires OnlyBlanks(isSpace, tail)
    ensures tail == gap + spec + post && Blank(isSpace, gap) && Blank(isSpace, post) && Trim(isSpace, spec)
    ensures (spec == "" ==> gap == "") && (gap == "" && spec != "" ==> spec[0] == tail[0])
    ensures Filter(tail, NotBlank) == Filter(spec, NotBlank)
  {
    gap, post := StripSplits(isSpace, tail);
    spec := Strip(isSpace, tail);
    BlanksOnly(isSpace, gap);
    BlanksOnly(isSpace, post);
    FilterAppend(gap + spec, post, NotBlank);
    FilterAppend(gap, spec, NotBlank);
    if spec == "" {
      gap, post := "", gap + post;
    }
  }

  lemma {:induction false} BlanksOnly(isSpace: char -> bool, s: string)
    requires OnlyBlanks(isSpace, s) && Blank(isSpace, s)
    ensures Filter(s, NotBlank) == []
  {
    if s != "" {
      BlanksOnly(isSpace, s[1..]);
    }
  }

  lemma MentionsMore(s: string, post: string, part: string)
    requires Mentions(s, part)
    ensures Mentions(s + post, part)
  {
    var i :| StandsAt(s, part, i);
    assert (s + post)[i..i + |part|] == s[i..i + |part|];
    assert StandsAt(s + post, part, i);
  }

  /** Every text reads in some way, so the lemma above speaks of all of them. */
  lemma EveryRequirementReads(isSpace: char -> bool, raw: string) returns (r: Reading)
    requires NamesAreSolid(isSpace)
    ensures ReadsAs(isSpace, raw, r)
  {
    BeforeSplits(raw, ';');
    var head := Before(raw, ';');
    var pre, post := StripSplits(isSpace, head);
    var name, gap, spec := BodySplits(isSpace, Strip(isSpace, head));
    r := Reading(pre, name, gap, spec, post, raw[|head|..]);
    assert raw == head + raw[|head|..];
  }

  lemma BodySplits(isSpace: char -> bool, body: string) returns (name: string, gap: string, spec: string)
    requires Trim(isSpace, body)
    ensures body == name + gap + spec && NameText(name) && Blank(isSpace, gap) && Trim(isSpace, spec)
    ensures (name == "" || spec == "" ==> gap == "") && (gap == "" && spec != "" ==> !InName(spec[0]))
  {
    NameSplits(body);
    name := body[..NameLength(body)];
    var rest := body[|name|..];
    var none;
    gap, none := StripSplits(isSpace, rest);
    spec := Strip(isSpace, rest);
    assert rest != "" ==> rest[|rest| - 1] == body[|body| - 1];
    assert body == name + rest;
  }

  lemma {:induction false} BeforeSplits(s: string, c: char)
    ensures var b := Before(s, c); |b| <= |s| && b == s[..|b|] && c !in b && (|b| < |s| ==> s[|b|] == c)
  {
    if s != "" && s[0] != c {
      BeforeSplits(s[1..], c);
    }
  }

  lemma {:induction false} StripSplits(isSpace: char -> bool, s: string) returns (pre: string, post: string)
    ensures s == pre + Strip(isSpace, s) + post
    ensures Blank(isSpace, pre) && Blank(isSpace, post) && Trim(isSpace, Strip(isSpace, s))
    decreases |s|
  {
    if s == "" {
      pre, post := "", "";
    } else if isSpace(s[0]) {
      var front;
      front, post := StripSplits(isSpace, s[1..]);
      pre := [s[0]] + front;
    } else if isSpace(s[|s| - 1]) {
      var back;
      pre, back := StripSplits(isSpace, s[..|s| - 1]);
      post := back + [s[|s| - 1]];
    } else {
      pre, post := "", "";
    }
  }

  lemma {:induction false} NameSplits(s: string)
    ensures NameText(s[..NameLength(s)]) && (NameLength(s) < |s| ==> !InName(s[NameLength(s)]))
  {
    if s != "" && IsNameChar(s[0]) {
      NameSplits(s[1..]);
    }
  }
}
