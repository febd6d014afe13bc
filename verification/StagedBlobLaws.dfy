/** Exactly which streams the staged-blob reader accepts, and what it reads out of them. */
module StagedBlobLaws {
  import opened Wrappers
  import opened StagedBlobs

  // ---------------------------------------------------------------- words and numbers, written out

  predicate Blanks(s: Bytes) {
    forall i | 0 <= i < |s| :: s[i] == 32 || 9 <= s[i] <= 13
  }

  predicate IsWord(s: Bytes) {
    s != [] && forall i | 0 <= i < |s| :: s[i] != 32 && !(9 <= s[i] <= 13)
  }

  /** The line is a, b and c with blanks between them, and perhaps around them. */
  ghost predicate LaidOut(line: Bytes, a: Bytes, b: Bytes, c: Bytes, gaps: (Bytes, Bytes, Bytes, Bytes)) {
    && line == gaps.0 + (a + (gaps.1 + (b + (gaps.2 + (c + gaps.3)))))
    && Blanks(gaps.0) && Blanks(gaps.1) && Blanks(gaps.2) && Blanks(gaps.3) && gaps.1 != [] && gaps.2 != []
    && IsWord(a) && IsWord(b) && IsWord(c)
  }

  ghost predicate HasWords(line: Bytes, a: Bytes, b: Bytes, c: Bytes) {
    exists gaps :: LaidOut(line, a, b, c, gaps)
  }

  lemma {:induction false} WordEndOfWord(w: Bytes, rest: Bytes)
    requires (forall i | 0 <= i < |w| :: !IsSpace(w[i])) && (rest != [] ==> IsSpace(rest[0]))
    ensures WordEnd(w + rest) == |w|
  {
    if w == [] {
      assert w + rest == rest;
    } else {
      WordEndOfWord(w[1..], rest);
      assert (w + rest)[1..] == w[1..] + rest;
    }
  }

  lemma SplitWord(w: Bytes, rest: Bytes)
    requires IsWord(w) && (rest != [] ==> IsSpace(rest[0]))
    ensures Split(w + rest) == [w] + Split(rest)
  {
    WordEndOfWord(w, rest);
    assert (w + rest)[..|w|] == w && (w + rest)[|w|..] == rest;
  }

  lemma {:induction false} SplitBlanks(gap: Bytes, rest: Bytes)
    requires Blanks(gap)
    ensures Split(gap + rest) == Split(rest)
  {
    if gap == [] {
      assert gap + rest == rest;
    } else {
      SplitBlanks(gap[1..], rest);
      assert (gap + rest)[1..] == gap[1..] + rest;
    }
  }

  lemma SplitBlankWord(gap: Bytes, w: Bytes, rest: Bytes)
    requires Blanks(gap) && IsWord(w) && (rest != [] ==> IsSpace(rest[0]))
    ensures Split(gap + (w + rest)) == [w] + Split(rest)
  {
    SplitBlanks(gap, w + rest);
    SplitWord(w, rest);
  }

  lemma HeadOfGap(gap: Bytes, rest: Bytes)
    requires Blanks(gap) && gap != []
    ensures gap + rest != [] && IsSpace((gap + rest)[0])
  {
  }

  lemma LaidOutSplits(line: Bytes, a: Bytes, b: Bytes, c: Bytes, gaps: (Bytes, Bytes, Bytes, Bytes))
    requires LaidOut(line, a, b, c, gaps)
    ensures Split(line) == [a, b, c]
  {
    SplitBlanks(gaps.3, []);
    assert gaps.3 + [] == gaps.3;
    SplitBlankWord(gaps.2, c, gaps.3);
    HeadOfGap(gaps.2, c + gaps.3);
    SplitBlankWord(gaps.1, b, gaps.2 + (c + gaps.3));
    HeadOfGap(gaps.1, b + (gaps.2 + (c + gaps.3)));
    SplitBlankWord(gaps.0, a, gaps.1 + (b + (gaps.2 + (c + gaps.3))));
  }

  /** The first word, the blanks before it and what follows it. */
  lemma {:induction false} FirstWord(s: Bytes) returns (gap: Bytes, rest: Bytes)
    ensures Blanks(gap)
    ensures if Split(s) == [] then s == gap && rest == []
            else s == gap + (Split(s)[0] + rest) && IsWord(Split(s)[0]) && Split(rest) == Split(s)[1..]
    ensures rest != [] ==> IsSpace(rest[0])
  {
    if s == [] {
      gap, rest := [], [];
    } else if IsSpace(s[0]) {
      gap, rest := FirstWord(s[1..]);
      assert s == [s[0]] + s[1..];
      assert Split(s) != [] ==> s == ([s[0]] + gap) + (Split(s)[0] + rest);
      gap := [s[0]] + gap;
    } else {
      var n := WordEnd(s);
      assert n > 0;
      gap, rest := [], s[n..];
      assert Split(s) == [s[..n]] + Split(rest);
      assert s == [] + (s[..n] + s[n..]);
    }
  }

  lemma SplitsAreLaidOut(line: Bytes)
    requires |Split(line)| == 3
    ensures HasWords(line, Split(line)[0], Split(line)[1], Split(line)[2])
  {
    var g0, r0 := FirstWord(line);
    var g1, r1 := FirstWord(r0);
    var g2, r2 := FirstWord(r1);
    var g3, r3 := FirstWord(r2);
    var a, b, c := Split(line)[0], Split(line)[1], Split(line)[2];
    assert Split(r0) == [b, c] && Split(r1) == [c] && Split(r2) == [];
    assert LaidOut(line, a, b, c, (g0, g1, g2, g3));
  }

  /** Splitting gives three words exactly when the line is laid out so. */
  lemma SplitsIff(line: Bytes, a: Bytes, b: Bytes, c: Bytes)
    ensures Split(line) == [a, b, c] <==> HasWords(line, a, b, c)
  {
    if Split(line) == [a, b, c] {
      SplitsAreLaidOut(line);
    }
    if gaps :| LaidOut(line, a, b, c, gaps) {
      LaidOutSplits(line, a, b, c, gaps);
    }
  }

  predicate Digit(b: Byte) {
    48 <= b <= 57
  }

  /** Digits in groups: an underscore only ever stands between two of them. */
  predicate Grouped(s: Bytes) {
    && s != [] && Digit(s[0]) && Digit(s[|s| - 1])
    && forall i | 0 <= i < |s| :: Digit(s[i]) || (s[i] == 95 && i + 1 < |s| && Digit(s[i + 1]))
  }

  /** The number that the digits say, most significant first; underscores say nothing. */
  function DigitsValue(s: Bytes): nat {
    if s == [] then 0
    else
      var d := s[|s| - 1];
      if Digit(d) then 10 * DigitsValue(s[..|s| - 1]) + (d - 48) else DigitsValue(s[..|s| - 1])
  }

  /** A number as `int` reads it: digits, perhaps in groups, perhaps signed. */
  predicate Spells(word: Bytes, n: int) {
    || (Grouped(word) && n == DigitsValue(word))
    || (word != [] && word[0] == 43 && Grouped(word[1..]) && n == DigitsValue(word[1..]))
    || (word != [] && word[0] == 45 && Grouped(word[1..]) && n == 0 - DigitsValue(word[1..]))
  }

  /** What reading this many bytes of a number has led to: the value so far, and if a digit came last. */
  function ReadSoFar(s: Bytes): Option<(nat, bool)> {
    if s == [] then Some((0, false))
    else
      var before, d := ReadSoFar(s[..|s| - 1]), s[|s| - 1];
      if before.None? then None
      else if Digit(d) then Some((10 * before.value.0 + (d - 48), true))
      else if d == 95 && before.value.1 then Some((before.value.0, false))
      else None
  }

  lemma {:induction false} DigitsResume(s: Bytes, t: Bytes)
    ensures Digits(s + t, 0, false) ==
      if ReadSoFar(s).None? then None else Digits(t, ReadSoFar(s).value.0, ReadSoFar(s).value.1)
  {
    if s == [] {
      assert s + t == t;
    } else {
      var init, d := s[..|s| - 1], s[|s| - 1];
      DigitsResume(init, [d] + t);
      assert s + t == init + ([d] + t) && ([d] + t)[1..] == t;
    }
  }

  predicate GroupedSoFar(s: Bytes) {
    && (s != [] ==> Digit(s[0]))
    && forall i | 0 <= i < |s| :: Digit(s[i]) || (s[i] == 95 && (i + 1 < |s| ==> Digit(s[i + 1])))
  }

  lemma GroupedStep(init: Bytes, d: Byte)
    ensures GroupedSoFar(init + [d]) <==>
      GroupedSoFar(init) && (Digit(d) || (d == 95 && init != [] && Digit(init[|init| - 1])))
  {
    var s := init + [d];
    assert s[|init|] == d && forall i | 0 <= i < |init| :: s[i] == init[i];
    if GroupedSoFar(s) {
      forall i | 0 <= i < |init| ensures Digit(init[i]) || (init[i] == 95 && (i + 1 < |init| ==> Digit(init[i + 1]))) {
        assert Digit(s[i]) || (s[i] == 95 && Digit(s[i + 1]));
      }
      assert init == [] ==> s[0] == d;
    }
    if GroupedSoFar(init) && (Digit(d) || (d == 95 && init != [] && Digit(init[|init| - 1]))) {
      forall i | 0 <= i < |s| ensures Digit(s[i]) || (s[i] == 95 && (i + 1 < |s| ==> Digit(s[i + 1]))) {
        assert i < |init| ==> Digit(init[i]) || init[i] == 95;
      }
    }
  }

  lemma {:induction false} ReadSoFarIs(s: Bytes)
    ensures ReadSoFar(s).Some? <==> GroupedSoFar(s)
    ensures ReadSoFar(s).Some? ==> ReadSoFar(s).value == (DigitsValue(s), s != [] && Digit(s[|s| - 1]))
  {
    if s != [] {
      var init, d := s[..|s| - 1], s[|s| - 1];
      ReadSoFarIs(init);
      GroupedStep(init, d);
      assert s == init + [d];
    }
  }

  lemma DigitsIff(s: Bytes, v: nat)
    ensures Digits(s, 0, false) == Some(v) <==> Grouped(s) && v == DigitsValue(s)
  {
    DigitsResume(s, []);
    assert s + [] == s;
    ReadSoFarIs(s);
  }

  lemma ParseIntIff(word: Bytes, n: int)
    ensures ParseInt(word) == Some(n) <==> Spells(word, n)
  {
    if word != [] {
      DigitsSome(word[1..]);
      DigitsSome(word);
    }
  }

  lemma DigitsSome(s: Bytes)
    ensures Digits(s, 0, false) == if Grouped(s) then Some(DigitsValue(s)) else None
  {
    DigitsIff(s, DigitsValue(s));
    if Digits(s, 0, false).Some? {
      DigitsIff(s, Digits(s, 0, false).value);
    }
  }

  // ---------------------------------------------------------------- headers, written out

  /** A header is read as this size exactly when it has three words: the object id, "blob" and the size. */
  lemma HeaderIff(line: Bytes, oid: Bytes, size: int)
    ensures Header(line, oid) == Ok(size) <==>
      exists word :: HasWords(line, oid, [98, 108, 111, 98], word) && Spells(word, size)
  {
    if Header(line, oid) == Ok(size) {
      var word := Split(line)[2];
      assert Split(line) == [oid, [98, 108, 111, 98], word];
      SplitsIff(line, oid, [98, 108, 111, 98], word);
      ParseIntIff(word, size);
    }
    if word :| HasWords(line, oid, [98, 108, 111, 98], word) && Spells(word, size) {
      SplitsIff(line, oid, [98, 108, 111, 98], word);
      ParseIntIff(word, size);
    }
  }

  /** A line of some other number of words, or with a size that is no number, is malformed. */
  lemma HeaderMalformed(line: Bytes, oid: Bytes)
    ensures Header(line, oid) == Err(MalformedHeader) <==>
      forall a, b, c | HasWords(line, a, b, c) :: a == oid && b == [98, 108, 111, 98] && forall n :: !Spells(c, n)
  {
    if |Split(line)| == 3 {
      SplitsAreLaidOut(line);
    }
    forall a, b, c | HasWords(line, a, b, c) ensures Split(line) == [a, b, c] {
      SplitsIff(line, a, b, c);
    }
    forall word, n ensures ParseInt(word) == Some(n) <==> Spells(word, n) {
      ParseIntIff(word, n);
    }
    if |Split(line)| == 3 && ParseInt(Split(line)[2]).Some? {
      ParseIntIff(Split(line)[2], ParseInt(Split(line)[2]).value);
    }
  }

  /** Three words of which the first is another object, or the second another kind, are refused as that. */
  lemma HeaderRefuses(line: Bytes, oid: Bytes, a: Bytes, b: Bytes, c: Bytes)
    requires HasWords(line, a, b, c) && (a != oid || b != [98, 108, 111, 98])
    ensures Header(line, oid) == Err(UnexpectedObject)
  {
    SplitsIff(line, a, b, c);
  }

  // ---------------------------------------------------------------- the language of accepted streams

  /** A header line that announces this object, as a blob, with this size, however spelled. */
  ghost predicate Announces(header: Bytes, oid: Bytes, size: nat) {
    NL !in header && exists word :: HasWords(header, oid, [98, 108, 111, 98], word) && Spells(word, size)
  }

  function Frame(header: Bytes, content: Bytes): Bytes {
    header + [NL] + content + [NL]
  }

  function Stream(headers: seq<Bytes>, payloads: seq<Payload>): Bytes
    requires |headers| == |payloads|
  {
    if headers == [] then [] else Frame(headers[0], payloads[0].content) + Stream(headers[1..], payloads[1..])
  }

  /** One frame per entry, in order: matching name, matching object id, matching size. */
  ghost predicate Frames(entries: seq<Entry>, payloads: seq<Payload>, headers: seq<Bytes>) {
    && |payloads| == |headers| == |entries|
    && forall i | 0 <= i < |entries| ::
         payloads[i].name == entries[i].name && Announces(headers[i], entries[i].oid, |payloads[i].content|)
  }

  lemma FrameParses(entry: Entry, header: Bytes, content: Bytes, after: Bytes)
    requires Announces(header, entry.oid, |content|)
    ensures ParseFrame(entry, Frame(header, content) + after) == Ok((Payload(entry.name, content), after))
  {
    var stream := Frame(header, content) + after;
    HeaderIff(header, entry.oid, |content|);
    IndexOfUnique(stream, NL, |header|);
    var tail := stream[|header| + 1..];
    assert stream[..|header|] == header;
    assert tail == content + [NL] + after;
    assert tail[..|content|] == content && tail[|content| + 1..] == after;
  }

  lemma ParsedFrameIsFrame(entry: Entry, stream: Bytes)
    requires ParseFrame(entry, stream).Ok?
    ensures var (payload, after) := ParseFrame(entry, stream).value;
      var header := stream[..IndexOf(stream, NL)];
      && payload.name == entry.name
      && Announces(header, entry.oid, |payload.content|)
      && stream == Frame(header, payload.content) + after
  {
    var end := IndexOf(stream, NL);
    var (payload, after) := ParseFrame(entry, stream).value;
    var header, content := stream[..end], payload.content;
    assert end < |stream|;
    HeaderIff(header, entry.oid, |content|);
    CutAt(stream, end);
    CutAt(stream[end + 1..], |content|);
    assert stream[end + 1..] == content + [NL] + after;
    FrameRegroups(header, content, after);
  }

  lemma CutAt(s: Bytes, i: nat)
    requires i < |s|
    ensures s == s[..i] + [s[i]] + s[i + 1..]
  {
  }

  lemma FrameRegroups(header: Bytes, content: Bytes, after: Bytes)
    ensures Frame(header, content) + after == header + [NL] + (content + [NL] + after)
  {
  }

  lemma FramesTail(entries: seq<Entry>, payloads: seq<Payload>, headers: seq<Bytes>)
    requires Frames(entries, payloads, headers) && entries != []
    ensures Announces(headers[0], entries[0].oid, |payloads[0].content|)
    ensures payloads == [Payload(entries[0].name, payloads[0].content)] + payloads[1..]
    ensures Frames(entries[1..], payloads[1..], headers[1..])
  {
    assert payloads[0] == Payload(entries[0].name, payloads[0].content);
    assert payloads == [payloads[0]] + payloads[1..];
  }

  lemma {:induction false} FramesParse(entries: seq<Entry>, payloads: seq<Payload>, headers: seq<Bytes>)
    requires Frames(entries, payloads, headers)
    ensures ParseFrames(entries, Stream(headers, payloads)) == Ok(payloads)
  {
    if entries != [] {
      FramesTail(entries, payloads, headers);
      FrameParses(entries[0], headers[0], payloads[0].content, Stream(headers[1..], payloads[1..]));
      FramesParse(entries[1..], payloads[1..], headers[1..]);
    }
  }

  lemma {:induction false} AcceptedStreamIsFramed(entries: seq<Entry>, stream: Bytes) returns (headers: seq<Bytes>)
    requires ParseFrames(entries, stream).Ok?
    ensures Frames(entries, ParseFrames(entries, stream).value, headers)
    ensures stream == Stream(headers, ParseFrames(entries, stream).value)
  {
    if entries == [] {
      headers := [];
    } else {
      ParsedFrameIsFrame(entries[0], stream);
      var (payload, after) := ParseFrame(entries[0], stream).value;
      var rest := AcceptedStreamIsFramed(entries[1..], after);
      headers := [stream[..IndexOf(stream, NL)]] + rest;
      var payloads := ParseFrames(entries, stream).value;
      assert payloads == [payload] + ParseFrames(entries[1..], after).value;
      assert payloads[1..] == ParseFrames(entries[1..], after).value && headers[1..] == rest;
    }
  }

  /**
   * The reader answers with these payloads if and only if the stream is, byte for byte, one frame
   * per entry holding them. Nothing may be missing, swapped, or left over; contents are arbitrary.
   */
  lemma ParseFramesIff(entries: seq<Entry>, stream: Bytes, payloads: seq<Payload>)
    ensures ParseFrames(entries, stream) == Ok(payloads)
       <==> exists headers :: Frames(entries, payloads, headers) && stream == Stream(headers, payloads)
  {
    if ParseFrames(entries, stream) == Ok(payloads) {
      var headers := AcceptedStreamIsFramed(entries, stream);
    }
    if headers :| Frames(entries, payloads, headers) && stream == Stream(headers, payloads) {
      FramesParse(entries, payloads, headers);
    }
  }

  // ---------------------------------------------------------------- what is refused

  lemma {:induction false} GoodFramesThen(entries: seq<Entry>, payloads: seq<Payload>, headers: seq<Bytes>,
                                          n: nat, rest: Bytes)
    requires n <= |entries| && Frames(entries[..n], payloads, headers)
    ensures ParseFrames(entries, Stream(headers, payloads) + rest)
         == Prepend(payloads, ParseFrames(entries[n..], rest))
  {
    if n == 0 {
      assert Stream(headers, payloads) + rest == rest && entries[0..] == entries;
      PrependNothing(ParseFrames(entries, rest));
    } else {
      FramesTail(entries[..n], payloads, headers);
      assert entries[..n][1..] == entries[1..][..n - 1] && entries[1..][n - 1..] == entries[n..];
      var first, more := Frame(headers[0], payloads[0].content), Stream(headers[1..], payloads[1..]);
      assert Stream(headers, payloads) + rest == first + (more + rest);
      FrameParses(entries[0], headers[0], payloads[0].content, more + rest);
      GoodFramesThen(entries[1..], payloads[1..], headers[1..], n - 1, rest);
      PrependTwice([payloads[0]], payloads[1..], ParseFrames(entries[n..], rest));
    }
  }

  /** After good frames, one for another object or of another kind is refused, whatever follows. */
  lemma WrongObjectRefused(entries: seq<Entry>, payloads: seq<Payload>, headers: seq<Bytes>, n: nat,
                           line: Bytes, a: Bytes, b: Bytes, c: Bytes, after: Bytes)
    requires n < |entries| && Frames(entries[..n], payloads, headers)
    requires NL !in line && HasWords(line, a, b, c) && (a != entries[n].oid || b != [98, 108, 111, 98])
    ensures ParseFrames(entries, Stream(headers, payloads) + (line + [10] + after)) == Err(UnexpectedObject)
  {
    var rest := line + [10] + after;
    GoodFramesThen(entries, payloads, headers, n, rest);
    LineOf(line, after);
    HeaderRefuses(line, entries[n].oid, a, b, c);
    assert entries[n..][0] == entries[n];
  }

  lemma LineOf(line: Bytes, after: Bytes)
    requires NL !in line
    ensures var rest := line + [10] + after;
      IndexOf(rest, NL) == |line| < |rest| && rest[..|line|] == line && rest[|line| + 1..] == after
  {
    IndexOfUnique(line + [10] + after, NL, |line|);
  }

  /** A frame with fewer bytes than announced, or no newline after them, is refused as truncated. */
  lemma ShortFrameRefused(entries: seq<Entry>, payloads: seq<Payload>, headers: seq<Bytes>, n: nat,
                          line: Bytes, word: Bytes, size: int, after: Bytes)
    requires n < |entries| && Frames(entries[..n], payloads, headers) && NL !in line
    requires HasWords(line, entries[n].oid, [98, 108, 111, 98], word) && Spells(word, size)
    requires size < 0 || size >= |after| || after[size] != 10
    ensures ParseFrames(entries, Stream(headers, payloads) + (line + [10] + after)) == Err(TruncatedObject)
  {
    GoodFramesThen(entries, payloads, headers, n, line + [10] + after);
    LineOf(line, after);
    HeaderIff(line, entries[n].oid, size);
    assert entries[n..][0] == entries[n];
  }

  /** Anything after the last frame is refused. */
  lemma TrailingRefused(entries: seq<Entry>, payloads: seq<Payload>, headers: seq<Bytes>, rest: Bytes)
    requires Frames(entries, payloads, headers) && rest != []
    ensures ParseFrames(entries, Stream(headers, payloads) + rest) == Err(TrailingOutput)
  {
    assert entries[..|entries|] == entries;
    GoodFramesThen(entries, payloads, headers, |entries|, rest);
  }

  // ---------------------------------------------------------------- canonical headers

  function ThreeWords(a: Bytes, b: Bytes, c: Bytes): Bytes {
    a + ([SPACE] + (b + ([SPACE] + c)))
  }

  /** Three words, one blank apart, split into themselves. */
  lemma SplitThree(a: Bytes, b: Bytes, c: Bytes)
    requires IsWord(a) && IsWord(b) && IsWord(c)
    ensures HasWords(ThreeWords(a, b, c), a, b, c)
    ensures Split(ThreeWords(a, b, c)) == [a, b, c]
  {
    assert ThreeWords(a, b, c) == [] + (a + ([SPACE] + (b + ([SPACE] + (c + [])))));
    assert LaidOut(ThreeWords(a, b, c), a, b, c, ([], [SPACE], [SPACE], []));
    SplitsIff(ThreeWords(a, b, c), a, b, c);
  }

  /** The decimal spelling of a size. */
  function Decimal(n: nat): (s: Bytes)
    ensures s != [] && forall i | 0 <= i < |s| :: IsDigit(s[i])
  {
    if n < 10 then [ZERO + n] else Decimal(n / 10) + [ZERO + n % 10]
  }

  lemma {:induction false} DecimalSpells(n: nat)
    ensures Grouped(Decimal(n)) && DigitsValue(Decimal(n)) == n
  {
    if n >= 10 {
      DecimalSpells(n / 10);
      assert Decimal(n)[..|Decimal(n)| - 1] == Decimal(n / 10);
    } else {
      assert Decimal(n)[..0] == [];
    }
  }

  function CanonicalHeader(oid: Bytes, size: nat): Bytes {
    ThreeWords(oid, BLOB, Decimal(size))
  }

  /** What `git cat-file --batch` prints announces the object. */
  lemma CanonicalHeaderAnnounces(oid: Bytes, size: nat)
    requires IsWord(oid)
    ensures Announces(CanonicalHeader(oid, size), oid, size)
  {
    SplitThree(oid, BLOB, Decimal(size));
    DecimalSpells(size);
    HeaderHasNoNewline(oid, size);
    assert BLOB == [98, 108, 111, 98];
  }

  lemma HeaderHasNoNewline(oid: Bytes, size: nat)
    requires IsWord(oid)
    ensures NL !in CanonicalHeader(oid, size)
  {
    assert forall w: Bytes | IsWord(w) :: NL !in w;
    assert IsWord(BLOB) && IsWord(Decimal(size));
  }

  // ---------------------------------------------------------------- index rows

  datatype Staged = Staged(executable: bool, oid: Bytes, rawName: Bytes, content: Bytes)

  ghost predicate WellStaged(s: Staged, utf8: Decoder) {
    IsWord(s.oid) && NUL !in s.oid && NUL !in s.rawName && utf8(s.rawName).Some?
  }

  ghost predicate AllWellStaged(staged: seq<Staged>, utf8: Decoder) {
    forall i | 0 <= i < |staged| :: WellStaged(staged[i], utf8)
  }

  function Metadata(s: Staged): Bytes {
    ThreeWords(if s.executable then MODE_EXECUTABLE else MODE_FILE, s.oid, STAGE_MERGED)
  }

  function IndexRow(s: Staged): Bytes {
    Metadata(s) + [TAB] + s.rawName
  }

  /** `git ls-files --stage -z`: every row ends in a NUL byte. */
  function IndexOutput(staged: seq<Staged>): Bytes {
    if staged == [] then [] else IndexRow(staged[0]) + [NUL] + IndexOutput(staged[1..])
  }

  function EntryOf(s: Staged, utf8: Decoder): Entry
    requires utf8(s.rawName).Some?
  {
    Entry(utf8(s.rawName).value, s.oid)
  }

  lemma TabIn(metadata: Bytes, raw: Bytes)
    requires 9 !in metadata
    ensures var row := metadata + [9] + raw;
      IndexOf(row, TAB) == |metadata| < |row| && row[..|metadata|] == metadata && row[|metadata| + 1..] == raw
  {
    IndexOfUnique(metadata + [9] + raw, TAB, |metadata|);
  }

  predicate RegularMode(mode: Bytes) {
    mode == [49, 48, 48, 54, 52, 52] || mode == [49, 48, 48, 55, 53, 53]
  }

  /** A row of three words, a tab and a name: links, submodules and unmerged entries are refused. */
  lemma RowRead(metadata: Bytes, mode: Bytes, oid: Bytes, stage: Bytes, raw: Bytes, utf8: Decoder)
    requires 9 !in metadata && HasWords(metadata, mode, oid, stage)
    ensures ParseRow(metadata + [9] + raw, utf8) ==
      if !RegularMode(mode) || stage != [48] then Err(RefusedEntry)
      else if utf8(raw).None? then Err(UndecodableName)
      else Ok(Entry(utf8(raw).value, oid))
  {
    TabIn(metadata, raw);
    SplitsIff(metadata, mode, oid, stage);
  }

  lemma MetadataIsClean(mode: Bytes, oid: Bytes)
    requires mode == MODE_FILE || mode == MODE_EXECUTABLE
    requires IsWord(oid) && NUL !in oid
    ensures TAB !in ThreeWords(mode, oid, STAGE_MERGED) && NUL !in ThreeWords(mode, oid, STAGE_MERGED)
  {
    var metadata := ThreeWords(mode, oid, STAGE_MERGED);
    forall i | 0 <= i < |metadata| ensures metadata[i] != TAB && metadata[i] != NUL {
      var k := i - 7;
      if 0 <= k < |oid| { assert metadata[i] == oid[k]; }
    }
  }

  lemma IndexRowParses(s: Staged, utf8: Decoder)
    requires WellStaged(s, utf8)
    ensures ParseRow(IndexRow(s), utf8) == Ok(EntryOf(s, utf8))
    ensures NUL !in IndexRow(s) && IndexRow(s) != []
  {
    var mode := if s.executable then MODE_EXECUTABLE else MODE_FILE;
    SplitThree(mode, s.oid, STAGE_MERGED);
    MetadataIsClean(mode, s.oid);
    RowRead(Metadata(s), mode, s.oid, STAGE_MERGED, s.rawName, utf8);
  }

  ghost function Entries(staged: seq<Staged>, utf8: Decoder): (r: seq<Entry>)
    requires AllWellStaged(staged, utf8)
    ensures |r| == |staged|
  {
    if staged == [] then []
    else
      assert WellStaged(staged[0], utf8);
      [EntryOf(staged[0], utf8)] + Entries(staged[1..], utf8)
  }

  lemma {:induction false} IndexOutputParses(staged: seq<Staged>, utf8: Decoder)
    requires AllWellStaged(staged, utf8)
    ensures ParseIndex(IndexOutput(staged), utf8) == Ok(Entries(staged, utf8))
  {
    if staged != [] {
      assert WellStaged(staged[0], utf8);
      IndexRowParses(staged[0], utf8);
      IndexOutputParses(staged[1..], utf8);
      RowThenRest(IndexRow(staged[0]), IndexOutput(staged[1..]), utf8);
    }
  }

  lemma RowThenRest(row: Bytes, rest: Bytes, utf8: Decoder)
    requires row != [] && NUL !in row && ParseRow(row, utf8).Ok? && ParseIndex(rest, utf8).Ok?
    ensures ParseIndex(row + [NUL] + rest, utf8) == Ok([ParseRow(row, utf8).value] + ParseIndex(rest, utf8).value)
  {
    var out := row + [NUL] + rest;
    IndexOfUnique(out, NUL, |row|);
    assert out[..|row|] == row && out[|row| + 1..] == rest;
  }

  // ---------------------------------------------------------------- index rows, written out

  /** Three words, a tab and a name: the mode of a regular file, the object id, stage 0. */
  ghost predicate RowIs(row: Bytes, metadata: Bytes, mode: Bytes, oid: Bytes, raw: Bytes) {
    && row == metadata + [9] + raw && 9 !in metadata
    && HasWords(metadata, mode, oid, [48]) && RegularMode(mode)
  }

  ghost predicate RowGives(row: Bytes, e: Entry, utf8: Decoder) {
    exists metadata, mode, raw :: RowIs(row, metadata, mode, e.oid, raw) && utf8(raw) == Some(e.name)
  }

  lemma RowIff(row: Bytes, e: Entry, utf8: Decoder)
    ensures ParseRow(row, utf8) == Ok(e) <==> RowGives(row, e, utf8)
  {
    if ParseRow(row, utf8) == Ok(e) {
      ParsedRowGives(row, e, utf8);
    }
    if metadata, mode, raw :| RowIs(row, metadata, mode, e.oid, raw) && utf8(raw) == Some(e.name) {
      RowRead(metadata, mode, e.oid, [48], raw, utf8);
    }
  }

  lemma ParsedRowGives(row: Bytes, e: Entry, utf8: Decoder)
    requires ParseRow(row, utf8) == Ok(e)
    ensures RowGives(row, e, utf8)
  {
    var tab := IndexOf(row, TAB);
    var metadata, raw := row[..tab], row[tab + 1..];
    assert row == metadata + [9] + raw;
    SplitsAreLaidOut(metadata);
    assert RowIs(row, metadata, Split(metadata)[0], e.oid, raw);
  }

  /** These rows with a NUL byte between them. */
  function Joined(rows: seq<Bytes>): Bytes
    requires rows != []
  {
    if |rows| == 1 then rows[0] else rows[0] + [0] + Joined(rows[1..])
  }

  ghost predicate PiecesOf(out: Bytes, rows: seq<Bytes>) {
    rows != [] && out == Joined(rows) && forall i | 0 <= i < |rows| :: 0 !in rows[i]
  }

  /** The entries are those of the rows that are not empty, in order. */
  ghost predicate IndexLists(rows: seq<Bytes>, entries: seq<Entry>, utf8: Decoder) {
    if rows == [] then entries == []
    else if rows[0] == [] then IndexLists(rows[1..], entries, utf8)
    else entries != [] && RowGives(rows[0], entries[0], utf8) && IndexLists(rows[1..], entries[1..], utf8)
  }

  lemma {:induction false} PiecesExist(out: Bytes) returns (rows: seq<Bytes>)
    ensures PiecesOf(out, rows)
    decreases |out|
  {
    var end := IndexOf(out, NUL);
    if end == |out| {
      rows := [out];
    } else {
      var rest := PiecesExist(out[end + 1..]);
      rows := [out[..end]] + rest;
      assert rows[1..] == rest && out == out[..end] + [0] + out[end + 1..];
    }
  }

  lemma LastRow(row: Bytes, entries: seq<Entry>, utf8: Decoder)
    requires 0 !in row
    ensures ParseIndex(row, utf8) == Ok(entries) <==> IndexLists([row], entries, utf8)
  {
    IndexOfUnique(row, NUL, |row|);
    assert row[..|row|] == row && [row][1..] == [];
    if row != [] && entries != [] {
      RowIff(row, entries[0], utf8);
      assert entries == [entries[0]] + entries[1..];
      assert IndexLists([], entries[1..], utf8) <==> entries[1..] == [];
      assert entries[1..] == [] ==> entries == [entries[0]];
    }
  }

  lemma RowThen(row: Bytes, rest: Bytes, entries: seq<Entry>, utf8: Decoder)
    requires 0 !in row
    ensures ParseIndex(row + [0] + rest, utf8) == Ok(entries) <==>
      if row == [] then ParseIndex(rest, utf8) == Ok(entries)
      else entries != [] && RowGives(row, entries[0], utf8) && ParseIndex(rest, utf8) == Ok(entries[1..])
  {
    var out := row + [0] + rest;
    IndexOfUnique(out, NUL, |row|);
    assert out[..|row|] == row && out[|row| + 1..] == rest;
    assert forall more: seq<Entry> :: [] + more == more;
    if row != [] && entries != [] {
      RowIff(row, entries[0], utf8);
      assert entries == [entries[0]] + entries[1..];
      if ParseIndex(out, utf8) == Ok(entries) {
        assert entries[0] == ParseRow(row, utf8).value && entries[1..] == ParseIndex(rest, utf8).value;
      }
    }
  }

  /** The index is read as these entries exactly when its NUL-separated rows list them. */
  lemma {:induction false} IndexIff(out: Bytes, rows: seq<Bytes>, entries: seq<Entry>, utf8: Decoder)
    requires PiecesOf(out, rows)
    ensures ParseIndex(out, utf8) == Ok(entries) <==> IndexLists(rows, entries, utf8)
    decreases |rows|
  {
    if |rows| == 1 {
      assert rows == [rows[0]];
      LastRow(rows[0], entries, utf8);
    } else {
      RowThen(rows[0], Joined(rows[1..]), entries, utf8);
      IndexIff(Joined(rows[1..]), rows[1..], if rows[0] == [] || entries == [] then entries else entries[1..], utf8);
    }
  }

  // ---------------------------------------------------------------- the whole round trip

  function BatchOutput(staged: seq<Staged>): Bytes {
    if staged == [] then []
    else Frame(CanonicalHeader(staged[0].oid, |staged[0].content|), staged[0].content) + BatchOutput(staged[1..])
  }

  ghost function PayloadsOf(staged: seq<Staged>, utf8: Decoder): (r: seq<Payload>)
    requires AllWellStaged(staged, utf8)
    ensures |r| == |staged|
    ensures forall i | 0 <= i < |staged| ::
      utf8(staged[i].rawName) == Some(r[i].name) && r[i].content == staged[i].content
  {
    if staged == [] then []
    else
      assert WellStaged(staged[0], utf8);
      [Payload(utf8(staged[0].rawName).value, staged[0].content)] + PayloadsOf(staged[1..], utf8)
  }

  lemma {:induction false} BatchOutputParses(staged: seq<Staged>, utf8: Decoder)
    requires AllWellStaged(staged, utf8)
    ensures ParseFrames(Entries(staged, utf8), BatchOutput(staged)) == Ok(PayloadsOf(staged, utf8))
  {
    if staged != [] {
      var s := staged[0];
      assert WellStaged(s, utf8);
      CanonicalHeaderAnnounces(s.oid, |s.content|);
      FrameParses(EntryOf(s, utf8), CanonicalHeader(s.oid, |s.content|), s.content, BatchOutput(staged[1..]));
      BatchOutputParses(staged[1..], utf8);
      assert Entries(staged, utf8)[1..] == Entries(staged[1..], utf8);
    }
  }

  /** Both outputs together: an index with at least one entry, and its frames. */
  lemma StagedPayloadsIff(index: Bytes, batch: Bytes, utf8: Decoder, payloads: seq<Payload>)
    ensures StagedPayloads(index, batch, utf8) == Ok(payloads) <==>
      exists entries :: entries != [] && ParseIndex(index, utf8) == Ok(entries)
                        && ParseFrames(entries, batch) == Ok(payloads)
    ensures ParseIndex(index, utf8) == Ok([]) ==> StagedPayloads(index, batch, utf8) == Err(NothingStaged)
  {
    if StagedPayloads(index, batch, utf8) == Ok(payloads) {
      assert ParseIndex(index, utf8) == Ok(ParseIndex(index, utf8).value);
    }
  }

  /** Listing and dumping a non-empty index, then reading both outputs, gives back every blob. */
  lemma StagedRoundTrip(staged: seq<Staged>, utf8: Decoder)
    requires staged != [] && AllWellStaged(staged, utf8)
    ensures StagedPayloads(IndexOutput(staged), BatchOutput(staged), utf8) == Ok(PayloadsOf(staged, utf8))
  {
    IndexOutputParses(staged, utf8);
    BatchOutputParses(staged, utf8);
  }

  // ---------------------------------------------------------------- the audit

  datatype Finding = Finding(path: string, rule: string)
  datatype Audit = Audit(passed: bool, payloadCount: nat, payloadBytes: nat, findings: seq<Finding>)

  /** `inspect_payload`: the findings for one payload. */
  type Inspector = (string, Bytes) -> seq<Finding>

  function TotalBytes(payloads: seq<Payload>): nat {
    if payloads == [] then 0 else TotalBytes(payloads[..|payloads| - 1]) + |payloads[|payloads| - 1].content|
  }

  function AllFindings(payloads: seq<Payload>, inspect: Inspector): seq<Finding> {
    if payloads == [] then []
    else
      var last := payloads[|payloads| - 1];
      AllFindings(payloads[..|payloads| - 1], inspect) + inspect(last.name, last.content)
  }

  lemma {:induction false} NoFindingsIff(payloads: seq<Payload>, inspect: Inspector)
    ensures AllFindings(payloads, inspect) == [] <==> forall p | p in payloads :: inspect(p.name, p.content) == []
  {
    if payloads != [] {
      var last := |payloads| - 1;
      assert payloads == payloads[..last] + [payloads[last]];
      NoFindingsIff(payloads[..last], inspect);
    }
  }

  /** `audit`: it passes exactly when there is something to audit and nothing to report. */
  method RunAudit(payloads: seq<Payload>, inspect: Inspector) returns (r: Audit)
    ensures r.passed <==> payloads != [] && forall p | p in payloads :: inspect(p.name, p.content) == []
    ensures r.payloadCount == |payloads| && r.payloadBytes == TotalBytes(payloads)
    ensures r.findings == AllFindings(payloads, inspect)
  {
    var findings: seq<Finding>, count, totalBytes := [], 0, 0;
    for i := 0 to |payloads|
      invariant count == i && totalBytes == TotalBytes(payloads[..i]) && findings == AllFindings(payloads[..i], inspect)
    {
      assert payloads[..i + 1][..i] == payloads[..i];
      count := count + 1;
      totalBytes := totalBytes + |payloads[i].content|;
      findings := findings + inspect(payloads[i].name, payloads[i].content);
    }
    assert payloads[..|payloads|] == payloads;
    NoFindingsIff(payloads, inspect);
    r := Audit(count > 0 && findings == [], count, totalBytes, findings);
  }

  /** An accepted stream holds the audited bytes plus, per payload, two newlines and its header. */
  lemma EveryByteIsAccountedFor(entries: seq<Entry>, stream: Bytes, payloads: seq<Payload>)
    requires ParseFrames(entries, stream) == Ok(payloads)
    ensures exists headers ::
      && Frames(entries, payloads, headers)
      && |stream| == TotalBytes(payloads) + 2 * |payloads| + HeaderBytes(headers)
  {
    var headers := AcceptedStreamIsFramed(entries, stream);
    StreamLength(headers, payloads);
  }

  lemma {:induction false} StreamLength(headers: seq<Bytes>, payloads: seq<Payload>)
    requires |headers| == |payloads|
    ensures |Stream(headers, payloads)| == TotalBytes(payloads) + 2 * |payloads| + HeaderBytes(headers)
  {
    if headers != [] {
      StreamLength(headers[1..], payloads[1..]);
      TotalBytesFromFront(payloads);
    }
  }

  function HeaderBytes(headers: seq<Bytes>): nat {
    if headers == [] then 0 else |headers[0]| + HeaderBytes(headers[1..])
  }

  lemma {:induction false} TotalBytesFromFront(payloads: seq<Payload>)
    requires payloads != []
    ensures TotalBytes(payloads) == |payloads[0].content| + TotalBytes(payloads[1..])
  {
    var last := |payloads| - 1;
    if last > 0 {
      TotalBytesFromFront(payloads[..last]);
      assert payloads[1..][..last - 1] == payloads[..last][1..];
    }
  }
}
