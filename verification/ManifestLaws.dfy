/** What an accepted package guarantees, and why its manifest may be parsed in two ways. */
module ManifestLaws {
  import opened Wrappers
  import opened Seqs
  import opened Manifest

  // ---------------------------------------------------------------- the two parsers agree

  lemma {:induction false} LineEndUnique(s: string, n: nat)
    requires n <= |s| && (forall i | 0 <= i < n :: !EndsLine(s[i])) && (n < |s| ==> EndsLine(s[n]))
    ensures LineEnd(s) == n
  {
    if n > 0 {
      LineEndUnique(s[1..], n - 1);
    }
  }

  lemma {:induction false} TranslateKeepsLine(s: string, n: nat)
    requires n <= |s| && forall i | 0 <= i < n :: !EndsLine(s[i])
    ensures Translate(s) == s[..n] + Translate(s[n..])
  {
    if n == 0 {
      assert s[..0] + Translate(s[0..]) == Translate(s) by { assert s[0..] == s; }
    } else {
      assert s[0] != '\r';
      TranslateKeepsLine(s[1..], n - 1);
      assert s[1..][..n - 1] == s[1..n] && s[1..][n - 1..] == s[n..];
      assert [s[0]] + (s[1..n] + Translate(s[n..])) == s[..n] + Translate(s[n..]);
    }
  }

  /** Up to and including the first boundary, translation only changes that boundary. */
  lemma TranslateFirstLine(s: string, n: nat, after: string)
    requires n == LineEnd(s) < |s| && after == s[n + BoundaryLength(s[n..])..]
    ensures Translate(s) == s[..n] + ([if s[n] == '\r' then '\n' else s[n]] + Translate(after))
  {
    TranslateKeepsLine(s, n);
    assert s[n..][0] == s[n] && s[n..][BoundaryLength(s[n..])..] == after;
    assert s[n] != '\r' ==> s[n..][1..] == after;
  }

  lemma LineThenBoundary(line: string, c: char, rest: string)
    requires EndsLine(c) && c != '\r' && forall i | 0 <= i < |line| :: !EndsLine(line[i])
    ensures SplitLines(line + ([c] + rest)) == [line] + SplitLines(rest)
  {
    var s := line + ([c] + rest);
    LineEndUnique(s, |line|);
    assert s[..|line|] == line && s[|line|..][0] == c && s[|line| + 1..] == rest;
  }

  /** Universal newlines change the text but not its lines. */
  lemma {:induction false} TranslateKeepsLines(s: string)
    ensures SplitLines(Translate(s)) == SplitLines(s)
    decreases |s|
  {
    if s != [] {
      var n := LineEnd(s);
      if n == |s| {
        TranslateKeepsLine(s, n);
        assert s[n..] == [] && s[..n] == s && Translate(s) == s;
      } else {
        var after := s[n + BoundaryLength(s[n..])..];
        TranslateFirstLine(s, n, after);
        LineThenBoundary(s[..n], if s[n] == '\r' then '\n' else s[n], Translate(after));
        TranslateKeepsLines(after);
      }
    }
  }

  lemma {:induction false} SplitOnceAt(row: string, n: nat)
    requires n + 2 <= |row| && row[n..n + 2] == "  " && forall i | 0 <= i < n :: row[i] != ' '
    ensures SplitOnce(row) == Some((row[..n], row[n + 2..]))
  {
    if n > 0 {
      assert row[..2][0] != ' ';
      SplitOnceAt(row[1..], n - 1);
      assert row[..n] == [row[0]] + row[1..][..n - 1];
    } else {
      assert row[..2] == row[0..2];
    }
  }

  /** Every row the regular expression accepts splits into the same digest and path. */
  lemma RowParsersAgree(line: string)
    requires MatchRow(line).Some?
    ensures SplitOnce(line) == MatchRow(line)
  {
    SplitOnceAt(line, DIGEST_LENGTH);
  }

  // ---------------------------------------------------------------- the parsed manifest

  /** The digest and the path of a row; only meaningful on rows the expression accepts. */
  function DigestIn(line: string): string {
    if MatchRow(line).Some? then MatchRow(line).value.0 else ""
  }

  function PathIn(line: string): string {
    if MatchRow(line).Some? then MatchRow(line).value.1 else ""
  }

  predicate Listed(line: string, root: string, rows: map<string, string>) {
    MatchRow(line).Some? && Join(root, PathIn(line)) in rows && rows[Join(root, PathIn(line))] == DigestIn(line)
  }

  ghost predicate ListsName(lines: seq<string>, root: string, name: string) {
    exists i :: 0 <= i < |lines| && name == Join(root, PathIn(lines[i]))
  }

  ghost predicate PathsDistinct(lines: seq<string>) {
    forall i, j | 0 <= i < j < |lines| :: PathIn(lines[i]) != PathIn(lines[j])
  }

  ghost predicate RowsListed(lines: seq<string>, root: string, rows: map<string, string>) {
    && (forall i | 0 <= i < |lines| :: Listed(lines[i], root, rows))
    && PathsDistinct(lines)
    && (forall name | name in rows :: ListsName(lines, root, name))
  }

  lemma JoinInjective(root: string, a: string, b: string)
    requires Join(root, a) == Join(root, b)
    ensures a == b
  {
    assert a == Join(root, a)[|root| + 1..] && b == Join(root, b)[|root| + 1..];
  }

  /** A manifest is accepted with these rows exactly when its lines list them, each path once. */
  lemma RowsIff(lines: seq<string>, root: string, rows: map<string, string>)
    ensures Rows(lines, root) == Ok(rows) <==> RowsListed(lines, root, rows)
  {
    if Rows(lines, root) == Ok(rows) {
      OkRowsAreListed(lines, root);
    }
    if RowsListed(lines, root, rows) {
      ListedRowsAreOk(lines, root, rows);
    }
  }

  lemma ListsOneMore(lines: seq<string>, last: string, root: string, name: string)
    ensures ListsName(lines + [last], root, name) <==> ListsName(lines, root, name) || name == Join(root, PathIn(last))
  {
    var all := lines + [last];
    if ListsName(lines, root, name) {
      var i :| 0 <= i < |lines| && name == Join(root, PathIn(lines[i]));
      assert all[i] == lines[i];
    }
    assert all[|lines|] == last;
  }

  lemma RowsStep(init: seq<string>, last: string, root: string)
    ensures Rows(init + [last], root) ==
      var before := Rows(init, root);
      if before.Err? then before
      else if MatchRow(last).None? then Err(MalformedRow)
      else if Join(root, PathIn(last)) in before.value then Err(DuplicateRow)
      else Ok(before.value[Join(root, PathIn(last)) := DigestIn(last)])
  {
    assert (init + [last])[..|init|] == init;
  }

  lemma WithOneMoreRow(init: seq<string>, last: string, root: string, before: map<string, string>)
    requires RowsListed(init, root, before) && MatchRow(last).Some? && Join(root, PathIn(last)) !in before
    ensures RowsListed(init + [last], root, before[Join(root, PathIn(last)) := DigestIn(last)])
  {
    var lines, rows := init + [last], before[Join(root, PathIn(last)) := DigestIn(last)];
    forall i | 0 <= i < |lines|
      ensures Listed(lines[i], root, rows) && (i < |init| ==> PathIn(lines[i]) != PathIn(last))
    {
      assert i < |init| ==> Listed(init[i], root, before);
    }
    forall i, j | 0 <= i < j < |lines| ensures PathIn(lines[i]) != PathIn(lines[j]) {
      assert j < |init| ==> PathIn(init[i]) != PathIn(init[j]);
    }
    forall name | name in rows ensures ListsName(lines, root, name) {
      ListsOneMore(init, last, root, name);
    }
  }

  lemma {:induction false} OkRowsAreListed(lines: seq<string>, root: string)
    requires Rows(lines, root).Ok?
    ensures RowsListed(lines, root, Rows(lines, root).value)
    ensures |Rows(lines, root).value| == |lines|
  {
    if lines != [] {
      var init, last := lines[..|lines| - 1], lines[|lines| - 1];
      assert lines == init + [last];
      RowsStep(init, last, root);
      OkRowsAreListed(init, root);
      WithOneMoreRow(init, last, root, Rows(init, root).value);
    }
  }

  lemma {:induction false} ListedRowsAreOk(lines: seq<string>, root: string, rows: map<string, string>)
    requires RowsListed(lines, root, rows)
    ensures Rows(lines, root) == Ok(rows)
  {
    if lines == [] {
      assert forall name :: !ListsName(lines, root, name);
      assert rows == map[];
    } else {
      var init, last := lines[..|lines| - 1], lines[|lines| - 1];
      assert lines == init + [last];
      assert Listed(last, root, rows);
      WithoutLastRow(init, last, root, rows);
      ListedRowsAreOk(init, root, rows - {Join(root, PathIn(last))});
      RowsStep(init, last, root);
      PutBack(rows, Join(root, PathIn(last)));
    }
  }

  lemma PutBack(rows: map<string, string>, name: string)
    requires name in rows
    ensures name !in rows - {name} && (rows - {name})[name := rows[name]] == rows
  {
  }

  lemma WithoutLastRow(init: seq<string>, last: string, root: string, rows: map<string, string>)
    requires RowsListed(init + [last], root, rows)
    ensures RowsListed(init, root, rows - {Join(root, PathIn(last))})
  {
    var lines, name := init + [last], Join(root, PathIn(last));
    forall i | 0 <= i < |init| ensures Listed(init[i], root, rows - {name}) {
      assert Listed(lines[i], root, rows) && PathIn(lines[i]) != PathIn(lines[|init|]);
      if Join(root, PathIn(init[i])) == name {
        JoinInjective(root, PathIn(init[i]), PathIn(last));
      }
    }
    forall i, j | 0 <= i < j < |init| ensures PathIn(init[i]) != PathIn(init[j]) {
      assert PathIn(lines[i]) != PathIn(lines[j]);
    }
    forall n | n in rows - {name} ensures ListsName(init, root, n) {
      ListsOneMore(init, last, root, n);
    }
  }

  // ---------------------------------------------------------------- accepted archives

  lemma {:induction false} ReadFindsMember(members: seq<Member>, i: nat)
    requires i < |members| && forall a, b | 0 <= a < b < |members| :: members[a].name != members[b].name
    ensures Read(members, members[i].name) == Some(members[i].content)
  {
    if i > 0 {
      assert members[0].name != members[i].name;
      ReadFindsMember(members[1..], i - 1);
    }
  }

  lemma {:induction false} ReadNeedsName(members: seq<Member>, name: string)
    ensures Read(members, name).Some? ==> name in Names(members)
  {
    if members != [] {
      ReadNeedsName(members[1..], name);
      assert members[0] in members;
    }
  }

  /** Distinct after case folding means distinct, and as many names as members. */
  lemma FoldedNamesAreNames(members: seq<Member>, p: Platform)
    requires FoldedNamesDistinct(members, p)
    ensures forall a, b | 0 <= a < b < |members| :: p.fold(members[a].name) != p.fold(members[b].name)
    ensures |Names(members)| == |members|
  {
    var folded := Map(members, (m: Member) => p.fold(m.name));
    var names := Map(members, NameOf);
    SizeOfSet(folded);
    SizeOfSet(names);
    assert ToSet(folded) == set m | m in members :: p.fold(m.name) by {
      forall x | x in (set m | m in members :: p.fold(m.name)) ensures x in ToSet(folded) {
        var m :| m in members && x == p.fold(m.name);
        var i :| 0 <= i < |members| && members[i] == m;
        assert folded[i] == x;
      }
    }
    assert forall a, b | 0 <= a < b < |members| :: folded[a] != folded[b];
    assert ToSet(names) == Names(members) by {
      forall x | x in Names(members) ensures x in ToSet(names) {
        var m :| m in members && x == m.name;
        var i :| 0 <= i < |members| && members[i] == m;
        assert names[i] == x;
      }
    }
  }

  /**
   * In an accepted archive the manifest is a bijection with the payloads: all names are distinct
   * even after case folding, every payload lies under the root and is listed once with the hash of
   * its content, and the manifest is the one member that is not listed.
   */
  lemma AcceptedManifestIsBijection(members: seq<Member>, root: string, p: Platform)
    requires Acceptable(members, p) && Roots(members) == {root}
    ensures forall a, b | 0 <= a < b < |members| :: p.fold(members[a].name) != p.fold(members[b].name)
    ensures ManifestRows(members, root, p).Ok?
    ensures var rows := ManifestRows(members, root, p).value;
      && Join(root, MANIFEST_NAME) in Names(members) && Join(root, MANIFEST_NAME) !in rows
      && rows.Keys == Names(members) - {Join(root, MANIFEST_NAME)}
      && |members| == |rows| + 1
      && (forall m | m in members && m.name != Join(root, MANIFEST_NAME) ::
            m.name in rows && rows[m.name] == p.sha256(m.content))
      && (forall name | name in rows :: exists relative :: relative != "" && name == Join(root, relative))
  {
    FoldedNamesAreNames(members, p);
    forall other | Roots(members) == {other} ensures other == root {
      assert other in {root};
    }
    var rows := ManifestRows(members, root, p).value;
    var manifest := Join(root, MANIFEST_NAME);
    ReadNeedsName(members, manifest);
    assert Names(members) == rows.Keys + {manifest};
    DistinctNames(members, p);
    RowsHashMembers(members, rows, manifest, p);
    ListedUnderRoot(members, root, p);
  }

  lemma RowsHashMembers(members: seq<Member>, rows: map<string, string>, manifest: string, p: Platform)
    requires forall a, b | 0 <= a < b < |members| :: members[a].name != members[b].name
    requires rows.Keys == Names(members) - {manifest}
    requires forall name | name in rows :: HashMatches(members, name, rows[name], p)
    ensures forall m | m in members && m.name != manifest :: m.name in rows && rows[m.name] == p.sha256(m.content)
  {
    forall m | m in members && m.name != manifest ensures m.name in rows && rows[m.name] == p.sha256(m.content) {
      var i :| 0 <= i < |members| && members[i] == m;
      ReadFindsMember(members, i);
      assert HashMatches(members, m.name, rows[m.name], p);
    }
  }

  lemma DistinctNames(members: seq<Member>, p: Platform)
    requires forall a, b | 0 <= a < b < |members| :: p.fold(members[a].name) != p.fold(members[b].name)
    ensures forall a, b | 0 <= a < b < |members| :: members[a].name != members[b].name
  {
  }

  lemma ListedUnderRoot(members: seq<Member>, root: string, p: Platform)
    requires ManifestRows(members, root, p).Ok?
    ensures forall name | name in ManifestRows(members, root, p).value ::
      exists relative :: relative != "" && name == Join(root, relative)
  {
    var lines := SplitLines(p.utf8(Read(members, Join(root, MANIFEST_NAME)).value).value);
    var rows := ManifestRows(members, root, p).value;
    OkRowsAreListed(lines, root);
    forall name | name in rows ensures exists relative :: relative != "" && name == Join(root, relative) {
      assert ListsName(lines, root, name);
      var i :| 0 <= i < |lines| && name == Join(root, PathIn(lines[i]));
      assert Listed(lines[i], root, rows);
      assert PathIn(lines[i]) != "";
    }
  }

  // ---------------------------------------------------------------- lines and rows, written out

  predicate LineBreak(c: char) {
    var n := c as int;
    10 <= n <= 13 || 28 <= n <= 30 || n == 0x85 || n == 0x2028 || n == 0x2029
  }

  lemma EndsLineIff(c: char)
    ensures EndsLine(c) <==> LineBreak(c)
  {
    var ends := "\n\r\U{0B}\U{0C}\U{1C}\U{1D}\U{1E}\U{85}\U{2028}\U{2029}";
    assert |ends| == 10;
    if LineBreak(c) {
      assert c in [ends[0], ends[1], ends[2], ends[3], ends[4], ends[5], ends[6], ends[7], ends[8], ends[9]];
    }
  }

  /** What ends a line: a carriage return with a line feed, or any line break on its own. */
  predicate Break(b: string, rest: string) {
    || b == "\r\n"
    || (|b| == 1 && LineBreak(b[0]) && (b == "\r" ==> rest == "" || rest[0] != '\n'))
  }

  /** These equations determine the lines of every text. */
  lemma LinesAre(line: string, b: string, rest: string)
    requires forall i | 0 <= i < |line| :: !LineBreak(line[i])
    ensures SplitLines(line) == if line == "" then [] else [line]
    ensures Break(b, rest) ==> SplitLines(line + (b + rest)) == [line] + SplitLines(rest)
  {
    forall i | 0 <= i < |line| ensures !EndsLine(line[i]) { EndsLineIff(line[i]); }
    LineEndUnique(line, |line|);
    if Break(b, rest) {
      EndsLineIff(b[0]);
      BreakEndsLine(line, b, rest);
    }
  }

  lemma BreakEndsLine(line: string, b: string, rest: string)
    requires Break(b, rest) && EndsLine(b[0]) && forall i | 0 <= i < |line| :: !EndsLine(line[i])
    ensures SplitLines(line + (b + rest)) == [line] + SplitLines(rest)
  {
    var s := line + (b + rest);
    assert s[|line|] == b[0];
    LineEndUnique(s, |line|);
    assert s[..|line|] == line && s[|line|..] == b + rest;
    assert BoundaryLength(b + rest) == |b| by {
      assert |b| == 1 && rest != "" ==> (b + rest)[1] == rest[0];
    }
    assert s[|line| + |b|..] == rest;
  }

  /** Sixty-four lower-case hexadecimal digits, two spaces, and a path on the same line. */
  ghost predicate IsRow(line: string, digest: string, path: string) {
    && line == digest + "  " + path
    && |digest| == 64 && (forall i | 0 <= i < 64 :: '0' <= digest[i] <= '9' || 'a' <= digest[i] <= 'f')
    && path != "" && '\n' !in path
  }

  lemma MatchRowIff(line: string, digest: string, path: string)
    ensures MatchRow(line) == Some((digest, path)) <==> IsRow(line, digest, path)
  {
    if IsRow(line, digest, path) {
      assert line[..64] == digest && line[64..66] == "  " && line[66..] == path;
      assert forall i | 0 <= i < 64 :: line[i] == digest[i];
    }
    if MatchRow(line) == Some((digest, path)) {
      assert line == line[..64] + line[64..66] + line[66..];
    }
  }

  ghost predicate SplitsAt(row: string, a: string, b: string) {
    && row == a + "  " + b
    && forall i | 0 <= i < |a| :: !(row[i] == ' ' && row[i + 1] == ' ')
  }

  /** `split("  ", 1)` cuts at the first two spaces in a row. */
  lemma {:induction false} SplitOnceIff(row: string, a: string, b: string)
    ensures SplitOnce(row) == Some((a, b)) <==> SplitsAt(row, a, b)
  {
    if |row| < 2 {
    } else if row[..2] == "  " {
      assert row[0] == row[..2][0] && row[1] == row[..2][1];
      if SplitsAt(row, a, b) {
        assert a == "";
        assert row[2..] == b;
      }
      assert row == "" + "  " + row[2..];
    } else {
      assert row[..2] == [row[0], row[1]];
      if SplitsAt(row, a, b) {
        SplitOnceIff(row[1..], a[1..], b);
        assert row[1..] == a[1..] + "  " + b && a == [row[0]] + a[1..];
        forall i | 0 <= i < |a[1..]| ensures !(row[1..][i] == ' ' && row[1..][i + 1] == ' ') {
          assert !(row[i + 1] == ' ' && row[i + 2] == ' ');
        }
      }
      if SplitOnce(row) == Some((a, b)) {
        SplitOnceIff(row[1..], SplitOnce(row[1..]).value.0, b);
        assert row == [row[0]] + row[1..];
        forall i | 0 <= i < |a| ensures !(row[i] == ' ' && row[i + 1] == ' ') {
          assert i > 0 ==> !(row[1..][i - 1] == ' ' && row[1..][i] == ' ');
        }
      }
    }
  }

  /** These parts with slashes between them. */
  function Slashed(parts: seq<string>): string
    requires parts != []
  {
    if |parts| == 1 then parts[0] else parts[0] + "/" + Slashed(parts[1..])
  }

  ghost predicate PartsOf(name: string, parts: seq<string>) {
    parts != [] && name == Slashed(parts) && forall i | 0 <= i < |parts| :: '/' !in parts[i]
  }

  lemma {:induction false} PartsAre(name: string)
    ensures PartsOf(name, Parts(name))
  {
    if name != "" {
      PartsAre(name[1..]);
      var rest, parts := Parts(name[1..]), Parts(name);
      assert name == [name[0]] + name[1..];
      if name[0] == '/' {
        assert parts[1..] == rest && name == "" + "/" + name[1..];
      } else {
        assert parts[1..] == rest[1..];
        assert |rest| > 1 ==> [name[0]] + (rest[0] + "/" + Slashed(rest[1..])) == parts[0] + "/" + Slashed(parts[1..]);
      }
    }
  }

  lemma {:induction false} PartsUnique(name: string, parts: seq<string>)
    requires PartsOf(name, parts)
    ensures Parts(name) == parts
  {
    if parts[0] == "" {
      if |parts| > 1 {
        assert name[1..] == Slashed(parts[1..]);
        PartsUnique(name[1..], parts[1..]);
        assert parts == [""] + parts[1..];
      } else {
        assert parts == [""];
      }
    } else {
      var fewer := [parts[0][1..]] + parts[1..];
      assert fewer[1..] == parts[1..] && name[0] == parts[0][0];
      assert name[1..] == Slashed(fewer);
      PartsUnique(name[1..], fewer);
      assert parts[0] == [name[0]] + fewer[0] && parts == [parts[0]] + parts[1..];
    }
  }

  // ---------------------------------------------------------------- acceptance, written out

  /** No Windows separators or drives, no empty, relative or trimmed part, no reserved name, no link. */
  ghost predicate PathFine(m: Member, p: Platform) {
    && '\\' !in m.name && ':' !in m.name && !m.isLink && !p.prohibited(m.name)
    && forall parts | PartsOf(m.name, parts) :: forall i | 0 <= i < |parts| ::
         && parts[i] != "" && parts[i] != "." && parts[i] != ".."
         && parts[i][|parts[i]| - 1] != ' ' && parts[i][|parts[i]| - 1] != '.'
         && !p.reserved(parts[i])
  }

  lemma PathFineIff(m: Member, p: Platform)
    ensures PathProblem(m, p).None? <==> PathFine(m, p)
  {
    PartsAre(m.name);
    forall parts | PartsOf(m.name, parts) ensures parts == Parts(m.name) {
      PartsUnique(m.name, parts);
    }
    forall part | part in Parts(m.name)
      ensures BadPart(part) <==>
        part == "" || part == "." || part == ".." || part[|part| - 1] == ' ' || part[|part| - 1] == '.'
    {
    }
  }

  /** The manifest lists every other member under the root with the hash of its content, each once. */
  ghost predicate Vouches(members: seq<Member>, root: string, p: Platform, manifest: Member, text: string) {
    && manifest in members && manifest.name == root + "/" + "MANIFEST.sha256"
    && p.utf8(manifest.content) == Some(text)
    && (forall i | 0 <= i < |SplitLines(text)| :: RowVouches(SplitLines(text)[i], members, root, p, manifest))
    && (forall i, j, d, e, path | 0 <= i < j < |SplitLines(text)| && IsRow(SplitLines(text)[i], d, path) ::
          !IsRow(SplitLines(text)[j], e, path))
    && forall m | m in members && m.name != manifest.name :: IsListed(m, SplitLines(text), root)
  }

  ghost predicate RowVouches(line: string, members: seq<Member>, root: string, p: Platform, manifest: Member) {
    exists digest, path, m ::
      && IsRow(line, digest, path)
      && m in members && m.name != manifest.name && m.name == root + "/" + path && p.sha256(m.content) == digest
  }

  ghost predicate IsListed(m: Member, lines: seq<string>, root: string) {
    exists i, digest, path :: 0 <= i < |lines| && IsRow(lines[i], digest, path) && m.name == root + "/" + path
  }

  ghost predicate DistinctlyNamed(members: seq<Member>) {
    forall a, b | 0 <= a < b < |members| :: members[a].name != members[b].name
  }

  /** The hashes of all members but the manifest. */
  ghost function HashTable(members: seq<Member>, p: Platform, manifest: Member): (rows: map<string, string>)
    requires DistinctlyNamed(members)
    ensures rows.Keys == Names(members) - {manifest.name}
    ensures forall m | m in members && m.name != manifest.name :: rows[m.name] == p.sha256(m.content)
  {
    SameNameSameMember(members);
    map m | m in members && m.name != manifest.name :: m.name := p.sha256(m.content)
  }

  lemma VouchedRowIsListed(members: seq<Member>, root: string, p: Platform, manifest: Member, line: string)
    requires DistinctlyNamed(members) && RowVouches(line, members, root, p, manifest)
    ensures Listed(line, root, HashTable(members, p, manifest)) && IsRow(line, DigestIn(line), PathIn(line))
  {
    var digest, path, m :| IsRow(line, digest, path)
      && m in members && m.name != manifest.name && m.name == root + "/" + path && p.sha256(m.content) == digest;
    MatchRowIff(line, digest, path);
  }

  lemma VouchedRowsAreListed(members: seq<Member>, root: string, p: Platform, manifest: Member, text: string)
    requires DistinctlyNamed(members) && Vouches(members, root, p, manifest, text)
    ensures RowsListed(SplitLines(text), root, HashTable(members, p, manifest))
  {
    var lines, rows := SplitLines(text), HashTable(members, p, manifest);
    forall i | 0 <= i < |lines|
      ensures Listed(lines[i], root, rows) && IsRow(lines[i], DigestIn(lines[i]), PathIn(lines[i]))
    {
      VouchedRowIsListed(members, root, p, manifest, lines[i]);
    }
    forall name | name in rows ensures ListsName(lines, root, name) {
      var m :| m in members && m.name != manifest.name && m.name == name;
      assert IsListed(m, lines, root);
      var i, digest, path :| 0 <= i < |lines| && IsRow(lines[i], digest, path) && m.name == root + "/" + path;
      MatchRowIff(lines[i], digest, path);
    }
  }

  lemma VouchesMeansRows(members: seq<Member>, root: string, p: Platform, manifest: Member, text: string)
    requires DistinctlyNamed(members) && Vouches(members, root, p, manifest, text)
    ensures ManifestVouches(members, root, p)
  {
    var rows := HashTable(members, p, manifest);
    ReadFinds(members, manifest);
    VouchedRowsAreListed(members, root, p, manifest, text);
    RowsIff(SplitLines(text), root, rows);
    forall name | name in rows ensures HashMatches(members, name, rows[name], p) {
      var m :| m in members && m.name == name;
      ReadFinds(members, m);
    }
  }

  lemma ReadFinds(members: seq<Member>, m: Member)
    requires DistinctlyNamed(members) && m in members
    ensures Read(members, m.name) == Some(m.content)
  {
    var i :| 0 <= i < |members| && members[i] == m;
    ReadFindsMember(members, i);
  }

  lemma SameNameSameMember(members: seq<Member>)
    requires DistinctlyNamed(members)
    ensures forall m, n | m in members && n in members && m.name == n.name :: m == n
  {
    forall m, n | m in members && n in members && m.name == n.name ensures m == n {
      var i :| 0 <= i < |members| && members[i] == m;
      var j :| 0 <= j < |members| && members[j] == n;
    }
  }

  lemma ListedRowVouches(members: seq<Member>, root: string, p: Platform, manifest: Member, line: string,
                         rows: map<string, string>)
    requires DistinctlyNamed(members) && Listed(line, root, rows) && rows.Keys == Names(members) - {manifest.name}
    requires forall name | name in rows :: HashMatches(members, name, rows[name], p)
    ensures RowVouches(line, members, root, p, manifest)
  {
    MatchRowIff(line, DigestIn(line), PathIn(line));
    var name := Join(root, PathIn(line));
    var m :| m in members && m.name == name;
    ReadFinds(members, m);
    assert HashMatches(members, name, rows[name], p);
    assert IsRow(line, DigestIn(line), PathIn(line)) && p.sha256(m.content) == DigestIn(line);
  }

  lemma ListedMember(m: Member, lines: seq<string>, root: string, rows: map<string, string>)
    requires RowsListed(lines, root, rows) && m.name in rows
    ensures IsListed(m, lines, root)
  {
    assert ListsName(lines, root, m.name);
    var i :| 0 <= i < |lines| && m.name == Join(root, PathIn(lines[i]));
    assert Listed(lines[i], root, rows);
    MatchRowIff(lines[i], DigestIn(lines[i]), PathIn(lines[i]));
  }

  lemma PathsDiffer(lines: seq<string>)
    requires PathsDistinct(lines)
    ensures forall i, j, d, e, path | 0 <= i < j < |lines| && IsRow(lines[i], d, path) :: !IsRow(lines[j], e, path)
  {
    forall i, j, d, e, path | 0 <= i < j < |lines| && IsRow(lines[i], d, path) ensures !IsRow(lines[j], e, path) {
      MatchRowIff(lines[i], d, path);
      MatchRowIff(lines[j], e, path);
    }
  }

  lemma ListedRowsVouch(members: seq<Member>, root: string, p: Platform, manifest: Member, text: string,
                        rows: map<string, string>)
    requires DistinctlyNamed(members) && manifest in members && manifest.name == Join(root, MANIFEST_NAME)
    requires p.utf8(manifest.content) == Some(text) && RowsListed(SplitLines(text), root, rows)
    requires rows.Keys == Names(members) - {manifest.name}
    requires forall name | name in rows :: HashMatches(members, name, rows[name], p)
    ensures Vouches(members, root, p, manifest, text)
  {
    var lines := SplitLines(text);
    PathsDiffer(lines);
    forall i | 0 <= i < |lines| ensures RowVouches(lines[i], members, root, p, manifest) {
      ListedRowVouches(members, root, p, manifest, lines[i], rows);
    }
    forall m | m in members && m.name != manifest.name ensures IsListed(m, lines, root) {
      assert m.name in Names(members);
      ListedMember(m, lines, root, rows);
    }
  }

  lemma RowsMeanVouches(members: seq<Member>, root: string, p: Platform)
    requires DistinctlyNamed(members) && ManifestVouches(members, root, p)
    ensures exists manifest, text :: Vouches(members, root, p, manifest, text)
  {
    var rows := ManifestRows(members, root, p).value;
    ReadNeedsName(members, Join(root, MANIFEST_NAME));
    var manifest :| manifest in members && manifest.name == Join(root, MANIFEST_NAME);
    ReadFinds(members, manifest);
    var text := p.utf8(manifest.content).value;
    RowsIff(SplitLines(text), root, rows);
    ListedRowsVouch(members, root, p, manifest, text, rows);
  }

  /** The archive as a whole: what a validated package is. */
  ghost predicate SoundPackage(members: seq<Member>, p: Platform, root: string, manifest: Member, text: string) {
    && (forall a, b | 0 <= a < b < |members| :: p.fold(members[a].name) != p.fold(members[b].name))
    && (forall m | m in members :: PathFine(m, p))
    && (forall m, parts | m in members && PartsOf(m.name, parts) :: parts[0] == root)
    && Vouches(members, root, p, manifest, text)
  }

  /** Acceptance, written out: the validator succeeds exactly on sound packages. */
  lemma AcceptableIff(members: seq<Member>, p: Platform)
    ensures Acceptable(members, p) <==>
      exists root, manifest, text :: SoundPackage(members, p, root, manifest, text)
  {
    forall m ensures PathProblem(m, p).None? <==> PathFine(m, p) { PathFineIff(m, p); }
    if Acceptable(members, p) {
      var root :| Roots(members) == {root} && ManifestVouches(members, root, p);
      FoldedNamesAreNames(members, p);
      DistinctNames(members, p);
      RowsMeanVouches(members, root, p);
      var manifest, text :| Vouches(members, root, p, manifest, text);
      RootsAre(members, root);
      assert SoundPackage(members, p, root, manifest, text);
    }
    if root, manifest, text :| SoundPackage(members, p, root, manifest, text) {
      DistinctNames(members, p);
      VouchesMeansRows(members, root, p, manifest, text);
      RootsAre(members, root);
      DistinctFolds(members, p);
    }
  }

  lemma RootsAre(members: seq<Member>, root: string)
    requires members != []
    ensures Roots(members) == {root} <==>
      forall m, parts | m in members && PartsOf(m.name, parts) :: parts[0] == root
  {
    forall m: Member ensures PartsOf(m.name, Parts(m.name)) { PartsAre(m.name); }
    forall m: Member, parts | PartsOf(m.name, parts) ensures parts == Parts(m.name) { PartsUnique(m.name, parts); }
    if forall m, parts | m in members && PartsOf(m.name, parts) :: parts[0] == root {
      assert Parts(members[0].name)[0] in Roots(members);
    } else {
      var m, parts :| m in members && PartsOf(m.name, parts) && parts[0] != root;
      assert Parts(m.name)[0] in Roots(members);
    }
  }

  lemma DistinctFolds(members: seq<Member>, p: Platform)
    requires forall a, b | 0 <= a < b < |members| :: p.fold(members[a].name) != p.fold(members[b].name)
    ensures FoldedNamesDistinct(members, p)
  {
    var folded := Map(members, (m: Member) => p.fold(m.name));
    SizeOfSet(folded);
    assert ToSet(folded) == set m | m in members :: p.fold(m.name) by {
      forall x | x in (set m | m in members :: p.fold(m.name)) ensures x in ToSet(folded) {
        var m :| m in members && x == p.fold(m.name);
        var i :| 0 <= i < |members| && members[i] == m;
        assert folded[i] == x;
      }
    }
  }

  // ---------------------------------------------------------------- the second pass

  ghost predicate PayloadsIntact(members: seq<Member>, root: string, files: map<string, Bytes>, p: Platform) {
    forall m | m in members && m.name != Join(root, MANIFEST_NAME) ::
      m.name in files && p.sha256(files[m.name]) == p.sha256(m.content)
  }

  ghost predicate RowsIntact(files: map<string, Bytes>, rows: map<string, string>, p: Platform) {
    forall name | name in rows :: name in files && p.sha256(files[name]) == rows[name]
  }

  /**
   * After acceptance, and with the manifest itself extracted intact, the second pass succeeds
   * exactly when every payload is on disk with content of the listed hash.
   */
  lemma RecheckIff(members: seq<Member>, root: string, files: map<string, Bytes>, p: Platform)
    requires Acceptable(members, p) && Roots(members) == {root}
    requires Join(root, MANIFEST_NAME) in files
    requires Read(members, Join(root, MANIFEST_NAME)) == Some(files[Join(root, MANIFEST_NAME)])
    ensures RecheckPasses(files, root, p) <==> PayloadsIntact(members, root, files, p)
  {
    AcceptedManifestIsBijection(members, root, p);
    var text := p.utf8(files[Join(root, MANIFEST_NAME)]).value;
    TranslateKeepsLines(text);
    OkRowsAreListed(SplitLines(text), root);
    var rows := ManifestRows(members, root, p).value;
    RecheckIsOnRows(files, root, SplitLines(text), rows, p);
    RowsArePayloads(members, root, files, rows, p);
  }

  lemma RowsArePayloads(members: seq<Member>, root: string, files: map<string, Bytes>, rows: map<string, string>,
                        p: Platform)
    requires rows.Keys == Names(members) - {Join(root, MANIFEST_NAME)}
    requires forall m | m in members && m.name != Join(root, MANIFEST_NAME) ::
      m.name in rows && rows[m.name] == p.sha256(m.content)
    ensures RowsIntact(files, rows, p) <==> PayloadsIntact(members, root, files, p)
  {
    if PayloadsIntact(members, root, files, p) {
      forall name | name in rows ensures name in files && p.sha256(files[name]) == rows[name] {
        assert name in Names(members);
        var m :| m in members && m.name == name;
      }
    }
  }

  /** Row by row, both parsers check the same paths against the same digests. */
  lemma RecheckIsOnRows(files: map<string, Bytes>, root: string, lines: seq<string>, rows: map<string, string>,
                        p: Platform)
    requires RowsListed(lines, root, rows)
    ensures (forall i | 0 <= i < |lines| :: RecheckRow(files, root, lines[i], p).None?) <==> RowsIntact(files, rows, p)
  {
    forall i | 0 <= i < |lines|
      ensures RecheckRow(files, root, lines[i], p).None? <==>
        var path := Join(root, PathIn(lines[i])); path in files && p.sha256(files[path]) == rows[path]
    {
      assert Listed(lines[i], root, rows);
      RowParsersAgree(lines[i]);
    }
    if forall i | 0 <= i < |lines| :: RecheckRow(files, root, lines[i], p).None? {
      forall name | name in rows ensures name in files && p.sha256(files[name]) == rows[name] {
        assert ListsName(lines, root, name);
        var i :| 0 <= i < |lines| && name == Join(root, PathIn(lines[i]));
        assert RecheckRow(files, root, lines[i], p).None?;
      }
    }
  }

  /** A row of the extracted manifest checks out: cut at the first two spaces, the named file has that hash. */
  ghost predicate RowChecksOut(row: string, root: string, files: map<string, Bytes>, p: Platform) {
    exists digest, path ::
      && SplitsAt(row, digest, path)
      && root + "/" + path in files && p.sha256(files[root + "/" + path]) == digest
  }

  /** The second pass, written out. */
  lemma RecheckIs(files: map<string, Bytes>, root: string, p: Platform)
    ensures RecheckPasses(files, root, p) <==>
      && root + "/" + "MANIFEST.sha256" in files
      && var text := p.utf8(files[root + "/" + "MANIFEST.sha256"]);
         text.Some? && forall row | row in SplitLines(text.value) :: RowChecksOut(row, root, files, p)
  {
    forall row ensures RecheckRow(files, root, row, p).None? <==> RowChecksOut(row, root, files, p) {
      RecheckRowIff(files, root, row, p);
    }
    if Join(root, MANIFEST_NAME) in files && p.utf8(files[Join(root, MANIFEST_NAME)]).Some? {
      TranslateKeepsLines(p.utf8(files[Join(root, MANIFEST_NAME)]).value);
    }
  }

  lemma RecheckRowIff(files: map<string, Bytes>, root: string, row: string, p: Platform)
    ensures RecheckRow(files, root, row, p).None? <==> RowChecksOut(row, root, files, p)
  {
    if SplitOnce(row).Some? {
      SplitOnceIff(row, SplitOnce(row).value.0, SplitOnce(row).value.1);
    }
    if RowChecksOut(row, root, files, p) {
      var digest, path :|
        SplitsAt(row, digest, path) && root + "/" + path in files && p.sha256(files[root + "/" + path]) == digest;
      SplitOnceIff(row, digest, path);
    }
  }

  // ---------------------------------------------------------------- printing a manifest

  predicate IsDigest(d: string) {
    |d| == DIGEST_LENGTH && forall i | 0 <= i < |d| :: IsHex(d[i])
  }

  predicate OneLine(path: string) {
    path != "" && forall i | 0 <= i < |path| :: !EndsLine(path[i])
  }

  function RowText(row: (string, string)): string {
    row.0 + "  " + row.1
  }

  function Print(rows: seq<(string, string)>): string {
    if rows == [] then [] else RowText(rows[0]) + ("\n" + Print(rows[1..]))
  }

  function RowTexts(rows: seq<(string, string)>): (lines: seq<string>)
    ensures |lines| == |rows| && forall i | 0 <= i < |rows| :: lines[i] == RowText(rows[i])
  {
    seq(|rows|, i requires 0 <= i < |rows| => RowText(rows[i]))
  }

  lemma RowTextMatches(row: (string, string))
    requires IsDigest(row.0) && OneLine(row.1)
    ensures MatchRow(RowText(row)) == Some(row)
    ensures forall i | 0 <= i < |RowText(row)| :: !EndsLine(RowText(row)[i])
  {
    var line := RowText(row);
    assert line[..DIGEST_LENGTH] == row.0 && line[DIGEST_LENGTH..DIGEST_LENGTH + 2] == "  ";
    assert line[DIGEST_LENGTH + 2..] == row.1;
    forall i | 0 <= i < |line| ensures !EndsLine(line[i]) {
      if i < DIGEST_LENGTH {
        assert IsHex(row.0[i]);
      } else if i >= DIGEST_LENGTH + 2 {
        assert line[i] == row.1[i - DIGEST_LENGTH - 2];
      }
    }
    assert forall i | 0 <= i < DIGEST_LENGTH :: line[i] == row.0[i];
  }

  lemma PrintedLine(row: (string, string), more: string)
    requires IsDigest(row.0) && OneLine(row.1)
    ensures SplitLines(RowText(row) + ("\n" + more)) == [RowText(row)] + SplitLines(more)
  {
    RowTextMatches(row);
    LineThenBoundary(RowText(row), '\n', more);
  }

  lemma {:induction false} PrintedLines(rows: seq<(string, string)>)
    requires forall i | 0 <= i < |rows| :: IsDigest(rows[i].0) && OneLine(rows[i].1)
    ensures SplitLines(Print(rows)) == RowTexts(rows)
  {
    if rows != [] {
      PrintedLine(rows[0], Print(rows[1..]));
      PrintedLines(rows[1..]);
      assert RowTexts(rows) == [RowText(rows[0])] + RowTexts(rows[1..]);
    }
  }

  /** Printing rows with distinct one-line paths and parsing them again gives the same table. */
  lemma PrintThenParse(rows: seq<(string, string)>, root: string, table: map<string, string>)
    requires forall i | 0 <= i < |rows| :: IsDigest(rows[i].0) && OneLine(rows[i].1)
    requires forall i, j | 0 <= i < j < |rows| :: rows[i].1 != rows[j].1
    requires forall i | 0 <= i < |rows| :: Join(root, rows[i].1) in table && table[Join(root, rows[i].1)] == rows[i].0
    requires forall name | name in table :: exists i :: 0 <= i < |rows| && name == Join(root, rows[i].1)
    ensures Rows(SplitLines(Print(rows)), root) == Ok(table)
  {
    PrintedLines(rows);
    var lines := RowTexts(rows);
    forall i | 0 <= i < |rows|
      ensures PathIn(lines[i]) == rows[i].1 && DigestIn(lines[i]) == rows[i].0 && Listed(lines[i], root, table)
    {
      RowTextMatches(rows[i]);
    }
    forall name | name in table ensures ListsName(lines, root, name) {
      var i :| 0 <= i < |rows| && name == Join(root, rows[i].1);
      assert name == Join(root, PathIn(lines[i]));
    }
    ListedRowsAreOk(lines, root, table);
  }
}
