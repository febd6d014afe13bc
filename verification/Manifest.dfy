/** Package validation and extraction of tools/verify_mvp_package.py. */
module Manifest {
  import opened Wrappers

  type Bytes = seq<int>

  datatype ManifestError =
    | EmptyOrDuplicatePaths
    | UnsafePath(name: string)
    | ProhibitedPayload(name: string)
    | SeveralRoots
    | ManifestMissing
    | ManifestUndecodable
    | MalformedRow
    | DuplicateRow
    | CoverageMismatch
    | HashMismatch(name: string)
    | ExtractedMissing(name: string)
    | ExtractedMismatch(name: string)

  const DIGEST_LENGTH := 64
  const MANIFEST_NAME := "MANIFEST.sha256"

  /**
   * What the validator takes from its libraries: case folding, the reserved and prohibited name
   * patterns, UTF-8 decoding and the hash.
   */
  datatype Platform = Platform(
    fold: string -> string,
    reserved: string -> bool,
    prohibited: string -> bool,
    utf8: Bytes -> Option<string>,
    sha256: Bytes -> string)

  datatype Member = Member(name: string, isLink: bool, content: Bytes)

  // ---------------------------------------------------------------- lines

  /** The characters that end a line for `str.splitlines`. */
  predicate EndsLine(c: char) {
    c in "\n\r\U{0B}\U{0C}\U{1C}\U{1D}\U{1E}\U{85}\U{2028}\U{2029}"
  }

  /** The length of the prefix before the first line boundary. */
  function LineEnd(s: string): (n: nat)
    ensures n <= |s| && (forall i | 0 <= i < n :: !EndsLine(s[i])) && (n < |s| ==> EndsLine(s[n]))
  {
    if s == [] || EndsLine(s[0]) then 0 else 1 + LineEnd(s[1..])
  }

  /** A carriage return directly followed by a line feed is one boundary. */
  function BoundaryLength(s: string): (n: nat)
    requires s != []
    ensures 1 <= n <= |s|
  {
    if s[0] == '\r' && |s| > 1 && s[1] == '\n' then 2 else 1
  }

  /** `s.splitlines()`. */
  function SplitLines(s: string): seq<string>
    decreases |s|
  {
    if s == [] then []
    else
      var n := LineEnd(s);
      if n == |s| then [s] else [s[..n]] + SplitLines(s[n + BoundaryLength(s[n..])..])
  }

  /** Universal newlines, as `read_text` applies them: "\r\n" and "\r" become "\n". */
  function Translate(s: string): string {
    if s == [] then []
    else if s[0] == '\r' then ['\n'] + Translate(s[BoundaryLength(s)..])
    else [s[0]] + Translate(s[1..])
  }

  // ---------------------------------------------------------------- rows

  predicate IsHex(c: char) {
    '0' <= c <= '9' || 'a' <= c <= 'f'
  }

  /** `re.fullmatch(r"([0-9a-f]{64})  (.+)", line)`. */
  function MatchRow(line: string): Option<(string, string)> {
    if |line| > DIGEST_LENGTH + 2
       && (forall i | 0 <= i < DIGEST_LENGTH :: IsHex(line[i]))
       && line[DIGEST_LENGTH..DIGEST_LENGTH + 2] == "  "
       && '\n' !in line[DIGEST_LENGTH + 2..]
    then Some((line[..DIGEST_LENGTH], line[DIGEST_LENGTH + 2..]))
    else None
  }

  /** `row.split("  ", 1)`: None when there is nothing to split at. */
  function SplitOnce(row: string): Option<(string, string)> {
    if |row| < 2 then None
    else if row[..2] == "  " then Some(("", row[2..]))
    else
      var rest := SplitOnce(row[1..]);
      if rest.None? then None else Some(([row[0]] + rest.value.0, rest.value.1))
  }

  function Join(root: string, relative: string): string {
    root + "/" + relative
  }

  /** The loop over the manifest lines, as a fold over the lines read so far. */
  function Rows(lines: seq<string>, root: string): Result<map<string, string>, ManifestError> {
    if lines == [] then Ok(map[])
    else
      var before := Rows(lines[..|lines| - 1], root);
      var row := MatchRow(lines[|lines| - 1]);
      if before.Err? then before
      else if row.None? then Err(MalformedRow)
      else if Join(root, row.value.1) in before.value then Err(DuplicateRow)
      else Ok(before.value[Join(root, row.value.1) := row.value.0])
  }

  method ReadRows(text: string, root: string) returns (r: Result<map<string, string>, ManifestError>)
    ensures r == Rows(SplitLines(text), root)
  {
    var lines := SplitLines(text);
    var expected: map<string, string> := map[];
    for i := 0 to |lines|
      invariant Rows(lines[..i], root) == Ok(expected)
    {
      assert lines[..i + 1][..i] == lines[..i];
      var row := MatchRow(lines[i]);
      if row.None? || Join(root, row.value.1) in expected {
        RowErrorPersists(lines, i + 1, root);
        return Err(if row.None? then MalformedRow else DuplicateRow);
      }
      expected := expected[Join(root, row.value.1) := row.value.0];
    }
    assert lines[..|lines|] == lines;
    r := Ok(expected);
  }

  lemma {:induction false} RowErrorPersists(lines: seq<string>, i: nat, root: string)
    requires i <= |lines| && Rows(lines[..i], root).Err?
    ensures Rows(lines, root) == Rows(lines[..i], root)
  {
    if i < |lines| {
      assert lines[..|lines| - 1][..i] == lines[..i];
      RowErrorPersists(lines[..|lines| - 1], i, root);
    } else {
      assert lines[..i] == lines;
    }
  }

  // ---------------------------------------------------------------- member paths

  /** `name.split("/")`. */
  function Parts(name: string): (parts: seq<string>)
    ensures parts != []
  {
    if name == [] then [""]
    else
      var rest := Parts(name[1..]);
      if name[0] == '/' then [""] + rest else [[name[0]] + rest[0]] + rest[1..]
  }

  predicate BadPart(part: string) {
    part in ["", ".", ".."] || part[|part| - 1] in " ."
  }

  predicate Unsafe(m: Member, p: Platform) {
    || '\\' in m.name || ':' in m.name
    || (exists part | part in Parts(m.name) :: BadPart(part))
    || (exists part | part in Parts(m.name) :: p.reserved(part))
    || m.isLink
  }

  /** The checks the validator makes on one archive member. */
  function PathProblem(m: Member, p: Platform): Option<ManifestError> {
    if Unsafe(m, p) then Some(UnsafePath(m.name))
    else if p.prohibited(m.name) then Some(ProhibitedPayload(m.name))
    else None
  }

  function NameOf(m: Member): string { m.name }

  function Names(members: seq<Member>): set<string> {
    set m | m in members :: m.name
  }

  function Roots(members: seq<Member>): set<string> {
    set m | m in members :: Parts(m.name)[0]
  }

  predicate FoldedNamesDistinct(members: seq<Member>, p: Platform) {
    |set m | m in members :: p.fold(m.name)| == |members|
  }

  /** `archive.read(name)`. */
  function Read(members: seq<Member>, name: string): Option<Bytes> {
    if members == [] then None
    else if members[0].name == name then Some(members[0].content)
    else Read(members[1..], name)
  }

  datatype Validation = Validation(root: string, entries: nat, verifiedHashes: nat)

  /** `validate_archive`. */
  method ValidateArchive(members: seq<Member>, p: Platform) returns (r: Result<Validation, ManifestError>)
    ensures r.Ok? <==> Acceptable(members, p)
    ensures r.Err? ==> Explains(members, p, r.error)
    ensures r.Ok? ==> Roots(members) == {r.value.root} && r.value.entries == |members|
    ensures r.Ok? ==>
      var rows := ManifestRows(members, r.value.root, p); rows.Ok? && r.value.verifiedHashes == |rows.value|
  {
    if members == [] || !FoldedNamesDistinct(members, p) {
      return Err(EmptyOrDuplicatePaths);
    }
    var roots, problem := ScanPaths(members, p);
    if problem.Some? {
      return Err(problem.value);
    }
    if |roots| != 1 {
      return Err(SeveralRoots);
    }
    var root :| root in roots;
    assert roots == {root} by { OnlyElement(roots, root); }
    r := CheckManifest(members, root, p);
  }

  /** The loop over the entries: the roots seen, or the first complaint. */
  method ScanPaths(members: seq<Member>, p: Platform) returns (roots: set<string>, problem: Option<ManifestError>)
    ensures problem.None? <==> forall m | m in members :: PathProblem(m, p).None?
    ensures problem.None? ==> roots == Roots(members)
    ensures problem.Some? ==> FirstPathProblem(members, p, problem.value)
  {
    roots, problem := {}, None;
    for i := 0 to |members|
      invariant problem.None? && roots == Roots(members[..i])
      invariant forall j | 0 <= j < i :: PathProblem(members[j], p).None?
    {
      problem := PathProblem(members[i], p);
      if problem.Some? {
        assert members[i] in members && PathProblem(members[i], p) == problem;
        return;
      }
      assert members[..i + 1] == members[..i] + [members[i]];
      roots := roots + {Parts(members[i].name)[0]};
    }
    assert members[..|members|] == members;
  }

  lemma OnlyElement(s: set<string>, x: string)
    requires |s| == 1 && x in s
    ensures s == {x}
  {
    assert |s - {x}| == 0;
  }

  method CheckManifest(members: seq<Member>, root: string, p: Platform) returns (r: Result<Validation, ManifestError>)
    ensures r.Ok? <==> ManifestVouches(members, root, p)
    ensures r.Err? ==> ManifestExplains(members, root, p, r.error)
    ensures r.Ok? ==> var rows := ManifestRows(members, root, p);
      rows.Ok? && r.value == Validation(root, |members|, |rows.value|)
  {
    var raw := Read(members, Join(root, MANIFEST_NAME));
    if raw.None? {
      return Err(ManifestMissing);
    }
    var text := p.utf8(raw.value);
    if text.None? {
      return Err(ManifestUndecodable);
    }
    var rows := ReadRows(text.value, root);
    if rows.Err? {
      return Err(rows.error);
    }
    var expected := rows.value;
    if expected.Keys != Names(members) - {Join(root, MANIFEST_NAME)} {
      return Err(CoverageMismatch);
    }
    var todo := expected.Keys;
    while todo != {}
      invariant todo <= expected.Keys
      invariant forall name | name in expected.Keys - todo :: HashMatches(members, name, expected[name], p)
      decreases |todo|
    {
      var name :| name in todo;
      if !HashMatches(members, name, expected[name], p) {
        return Err(HashMismatch(name));
      }
      todo := todo - {name};
    }
    r := Ok(Validation(root, |members|, |expected|));
  }

  // ---------------------------------------------------------------- what acceptance demands

  predicate HashMatches(members: seq<Member>, name: string, digest: string, p: Platform) {
    var content := Read(members, name);
    content.Some? && p.sha256(content.value) == digest
  }

  function ManifestRows(members: seq<Member>, root: string, p: Platform): Result<map<string, string>, ManifestError> {
    var raw := Read(members, Join(root, MANIFEST_NAME));
    if raw.None? then Err(ManifestMissing)
    else
      var text := p.utf8(raw.value);
      if text.None? then Err(ManifestUndecodable) else Rows(SplitLines(text.value), root)
  }

  /** The manifest lists every other member, and nothing else, with the right digest. */
  ghost predicate ManifestVouches(members: seq<Member>, root: string, p: Platform) {
    var rows := ManifestRows(members, root, p);
    && rows.Ok?
    && rows.value.Keys == Names(members) - {Join(root, MANIFEST_NAME)}
    && forall name | name in rows.value :: HashMatches(members, name, rows.value[name], p)
  }

  ghost predicate Acceptable(members: seq<Member>, p: Platform) {
    && members != [] && FoldedNamesDistinct(members, p)
    && (forall m | m in members :: PathProblem(m, p).None?)
    && exists root :: Roots(members) == {root} && ManifestVouches(members, root, p)
  }

  ghost predicate FirstPathProblem(members: seq<Member>, p: Platform, e: ManifestError) {
    exists i ::
      && 0 <= i < |members| && PathProblem(members[i], p) == Some(e)
      && forall j | 0 <= j < i :: PathProblem(members[j], p).None?
  }

  /** Why the manifest is turned down: each complaint comes only when the earlier ones do not apply. */
  ghost predicate ManifestExplains(members: seq<Member>, root: string, p: Platform, e: ManifestError) {
    var raw := Read(members, Join(root, MANIFEST_NAME));
    if raw.None? then e == ManifestMissing
    else if p.utf8(raw.value).None? then e == ManifestUndecodable
    else
      var rows := Rows(SplitLines(p.utf8(raw.value).value), root);
      if rows.Err? then e == rows.error
      else if rows.value.Keys != Names(members) - {Join(root, MANIFEST_NAME)} then e == CoverageMismatch
      else e.HashMismatch? && e.name in rows.value && !HashMatches(members, e.name, rows.value[e.name], p)
  }

  ghost predicate Explains(members: seq<Member>, p: Platform, e: ManifestError) {
    if members == [] || !FoldedNamesDistinct(members, p) then e == EmptyOrDuplicatePaths
    else if exists m :: m in members && PathProblem(m, p).Some? then FirstPathProblem(members, p, e)
    else if |Roots(members)| != 1 then e == SeveralRoots
    else exists root :: Roots(members) == {root} && ManifestExplains(members, root, p, e)
  }

  // ---------------------------------------------------------------- extraction

  /** The second pass on one manifest row, over the files found on disk. */
  function RecheckRow(files: map<string, Bytes>, root: string, row: string, p: Platform): Option<ManifestError> {
    var split := SplitOnce(row);
    if split.None? then Some(MalformedRow)
    else
      var (digest, name) := split.value;
      if Join(root, name) !in files then Some(ExtractedMissing(name))
      else if p.sha256(files[Join(root, name)]) != digest then Some(ExtractedMismatch(name))
      else None
  }

  /** The lines of the extracted manifest, read as text with universal newlines. */
  function ExtractedLines(files: map<string, Bytes>, root: string, p: Platform): Option<seq<string>> {
    if Join(root, MANIFEST_NAME) !in files then None
    else
      var text := p.utf8(files[Join(root, MANIFEST_NAME)]);
      if text.None? then None else Some(SplitLines(Translate(text.value)))
  }

  ghost predicate RecheckPasses(files: map<string, Bytes>, root: string, p: Platform) {
    var lines := ExtractedLines(files, root, p);
    lines.Some? && forall i | 0 <= i < |lines.value| :: RecheckRow(files, root, lines.value[i], p).None?
  }

  /** The package root, when the members share one. */
  ghost function TheRoot(members: seq<Member>): string {
    if exists root :: Roots(members) == {root} then var root :| Roots(members) == {root}; root else ""
  }

  lemma RootIsTheRoot(members: seq<Member>, root: string)
    requires Roots(members) == {root}
    ensures TheRoot(members) == root
  {
    assert TheRoot(members) in {root};
  }

  /** `verify_and_extract`, with the extracted files given as a map from name to content. */
  method VerifyAndExtract(members: seq<Member>, destinationExists: bool, files: map<string, Bytes>, p: Platform)
    returns (r: Option<Validation>)
    ensures r.Some? <==> !destinationExists && Acceptable(members, p) && RecheckPasses(files, TheRoot(members), p)
    ensures r.Some? ==> r.value.root == TheRoot(members) && r.value.entries == |members|
  {
    if destinationExists {
      return None;
    }
    var validated := ValidateArchive(members, p);
    if validated.Err? {
      return None;
    }
    RootIsTheRoot(members, validated.value.root);
    var passed := Recheck(files, validated.value.root, p);
    r := if passed then Some(validated.value) else None;
  }

  method Recheck(files: map<string, Bytes>, root: string, p: Platform) returns (passed: bool)
    ensures passed <==> RecheckPasses(files, root, p)
  {
    var lines := ExtractedLines(files, root, p);
    if lines.None? {
      return false;
    }
    for i := 0 to |lines.value|
      invariant forall j | 0 <= j < i :: RecheckRow(files, root, lines.value[j], p).None?
    {
      if RecheckRow(files, root, lines.value[i], p).Some? {
        return false;
      }
    }
    passed := true;
  }
}
