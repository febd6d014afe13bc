/** The staged-blob reader of tools/audit_publication.py. */
module StagedBlobs {
  import opened Wrappers

  type Byte = b: int | 0 <= b < 256
  type Bytes = seq<Byte>

  const NUL: Byte := 0
  const TAB: Byte := 9
  const NL: Byte := 10
  const SPACE: Byte := 32
  const PLUS: Byte := 43
  const MINUS: Byte := 45
  const ZERO: Byte := 48
  const UNDERSCORE: Byte := 95
  const MODE_FILE: Bytes := [49, 48, 48, 54, 52, 52]
  const MODE_EXECUTABLE: Bytes := [49, 48, 48, 55, 53, 53]
  const STAGE_MERGED: Bytes := [48]
  const BLOB: Bytes := [98, 108, 111, 98]

  datatype FrameError =
    | MalformedRow
    | RefusedEntry
    | UndecodableName
    | NothingStaged
    | MalformedHeader
    | UnexpectedObject
    | TruncatedObject
    | TrailingOutput

  datatype Entry = Entry(name: string, oid: Bytes)
  datatype Payload = Payload(name: string, content: Bytes)

  // ---------------------------------------------------------------- bytes.split and int

  /** The ASCII whitespace on which `bytes.split()` breaks. */
  predicate IsSpace(b: Byte) {
    b == SPACE || 9 <= b <= 13
  }

  /** The length of the leading run without whitespace. */
  function WordEnd(s: Bytes): (n: nat)
    ensures n <= |s| && (forall i | 0 <= i < n :: !IsSpace(s[i])) && (n < |s| ==> IsSpace(s[n]))
  {
    if s == [] || IsSpace(s[0]) then 0 else 1 + WordEnd(s[1..])
  }

  /** `s.split()`: the maximal runs without whitespace. */
  function Split(s: Bytes): seq<Bytes> {
    if s == [] then []
    else if IsSpace(s[0]) then Split(s[1..])
    else [s[..WordEnd(s)]] + Split(s[WordEnd(s)..])
  }

  predicate IsDigit(b: Byte) {
    ZERO <= b <= ZERO + 9
  }

  /** Decimal digits, single underscores allowed between two of them. */
  function Digits(s: Bytes, value: nat, afterDigit: bool): Option<nat> {
    if s == [] then if afterDigit then Some(value) else None
    else if IsDigit(s[0]) then Digits(s[1..], 10 * value + (s[0] - ZERO), true)
    else if s[0] == UNDERSCORE && afterDigit then Digits(s[1..], value, false)
    else None
  }

  /** `int(s)` on a word: an optional sign and decimal digits. */
  function ParseInt(s: Bytes): Option<int> {
    if s != [] && s[0] == MINUS then
      var n := Digits(s[1..], 0, false);
      if n.Some? then Some(0 - n.value as int) else None
    else if s != [] && s[0] == PLUS then
      var n := Digits(s[1..], 0, false);
      if n.Some? then Some(n.value) else None
    else
      var n := Digits(s, 0, false);
      if n.Some? then Some(n.value) else None
  }

  // ---------------------------------------------------------------- index rows

  /** The length of the prefix before the first b. */
  function IndexOf(s: Bytes, b: Byte): (n: nat)
    ensures n <= |s| && (forall i | 0 <= i < n :: s[i] != b) && (n < |s| ==> s[n] == b)
  {
    if s == [] || s[0] == b then 0 else 1 + IndexOf(s[1..], b)
  }

  type Decoder = Bytes -> Option<string>

  /** One row of `git ls-files --stage -z`. */
  function ParseRow(row: Bytes, utf8: Decoder): Result<Entry, FrameError> {
    var tab := IndexOf(row, TAB);
    if tab == |row| then Err(MalformedRow)
    else
      var metadata := Split(row[..tab]);
      if |metadata| != 3 then Err(MalformedRow)
      else if (metadata[0] != MODE_FILE && metadata[0] != MODE_EXECUTABLE) || metadata[2] != STAGE_MERGED then
        Err(RefusedEntry)
      else
        var name := utf8(row[tab + 1..]);
        if name.None? then Err(UndecodableName) else Ok(Entry(name.value, metadata[1]))
  }

  /** `for row in stdout.split(b"\0")`, skipping empty rows. */
  function ParseIndex(out: Bytes, utf8: Decoder): Result<seq<Entry>, FrameError>
    decreases |out|
  {
    var end := IndexOf(out, NUL);
    var row := out[..end];
    var entry := ParseRow(row, utf8);
    if row != [] && entry.Err? then Err(entry.error)
    else if end == |out| then Ok(if row == [] then [] else [entry.value])
    else
      var rest := ParseIndex(out[end + 1..], utf8);
      if rest.Err? then rest
      else Ok((if row == [] then [] else [entry.value]) + rest.value)
  }

  // ---------------------------------------------------------------- cat-file frames

  /** `stream.readline().rstrip(b"\n").split()` followed by unpacking into three words. */
  function Header(line: Bytes, oid: Bytes): Result<int, FrameError> {
    var words := Split(line);
    if |words| != 3 then Err(MalformedHeader)
    else if words[0] != oid || words[1] != BLOB then Err(UnexpectedObject)
    else
      var size := ParseInt(words[2]);
      if size.None? then Err(MalformedHeader) else Ok(size.value)
  }

  /** One frame: a header line, as many bytes as it announces, and a closing newline. */
  function ParseFrame(entry: Entry, stream: Bytes): (r: Result<(Payload, Bytes), FrameError>)
    ensures r.Ok? ==> |r.value.1| < |stream|
  {
    var end := IndexOf(stream, NL);
    var header := Header(stream[..end], entry.oid);
    var start := if end < |stream| then end + 1 else end;
    if header.Err? then Err(header.error)
    else
      var body := Body(stream[start..], header.value);
      if body.None? then Err(TruncatedObject) else Ok((Payload(entry.name, body.value.0), body.value.1))
  }

  /** So many bytes and a closing newline, and what follows them. */
  function Body(stream: Bytes, size: int): (r: Option<(Bytes, Bytes)>)
    ensures r.Some? ==> |r.value.1| < |stream|
  {
    if size < 0 || size >= |stream| || stream[size] != NL then None
    else Some((stream[..size], stream[size + 1..]))
  }

  /** The contents framed by the stream, one for each entry, with nothing left over. */
  function ParseFrames(entries: seq<Entry>, stream: Bytes): Result<seq<Payload>, FrameError>
    decreases |entries|
  {
    if entries == [] then if stream == [] then Ok([]) else Err(TrailingOutput)
    else
      match ParseFrame(entries[0], stream)
      case Err(e) => Err(e)
      case Ok((payload, after)) => Prepend([payload], ParseFrames(entries[1..], after))
  }

  function Prepend(done: seq<Payload>, r: Result<seq<Payload>, FrameError>): Result<seq<Payload>, FrameError> {
    match r
    case Err(e) => Err(e)
    case Ok(rest) => Ok(done + rest)
  }

  function StagedPayloads(index: Bytes, batch: Bytes, utf8: Decoder): Result<seq<Payload>, FrameError> {
    var entries := ParseIndex(index, utf8);
    if entries.Err? then Err(entries.error)
    else if entries.value == [] then Err(NothingStaged)
    else ParseFrames(entries.value, batch)
  }

  // ---------------------------------------------------------------- the byte cursor

  /** `io.BytesIO` as the reader uses it. */
  class ByteReader {
    const data: Bytes
    var pos: nat

    ghost predicate Valid()
      reads this
    {
      pos <= |data|
    }

    /** What has not been read yet. */
    ghost function Rest(): Bytes
      reads this
      requires Valid()
    {
      data[pos..]
    }

    constructor (data: Bytes)
      ensures Valid() && Rest() == data && this.data == data
    {
      this.data := data;
      pos := 0;
    }

    /** `readline().rstrip(b"\n")`. */
    method ReadLine() returns (line: Bytes)
      requires Valid()
      modifies this
      ensures Valid()
      ensures line == old(Rest())[..IndexOf(old(Rest()), NL)]
      ensures Rest() == old(Rest())[if |line| < |old(Rest())| then |line| + 1 else |line|..]
    {
      var start := pos;
      while pos < |data| && data[pos] != NL
        invariant start <= pos <= |data|
        invariant forall i | start <= i < pos :: data[i] != NL
      {
        pos := pos + 1;
      }
      line := data[start..pos];
      assert |line| == IndexOf(data[start..], NL) by {
        IndexOfUnique(data[start..], NL, pos - start);
      }
      if pos < |data| {
        pos := pos + 1;
      }
    }

    /** `read(n)`: everything for a negative n, otherwise as much as there is up to n bytes. */
    method Read(n: int) returns (chunk: Bytes)
      requires Valid()
      modifies this
      ensures Valid()
      ensures chunk == if 0 <= n <= |old(Rest())| then old(Rest())[..n] else old(Rest())
      ensures Rest() == old(Rest())[|chunk|..]
    {
      var end := if 0 <= n <= |data| - pos then pos + n else |data|;
      chunk := data[pos..end];
      pos := end;
    }
  }

  lemma {:induction false} IndexOfUnique(s: Bytes, b: Byte, n: nat)
    requires n <= |s| && (forall i | 0 <= i < n :: s[i] != b) && (n < |s| ==> s[n] == b)
    ensures IndexOf(s, b) == n
  {
    if n > 0 {
      IndexOfUnique(s[1..], b, n - 1);
    }
  }

  method ReadBody(stream: ByteReader, size: int) returns (r: Option<Bytes>)
    requires stream.Valid()
    modifies stream
    ensures stream.Valid()
    ensures match Body(old(stream.Rest()), size)
      case None => r == None
      case Some((content, after)) => r == Some(content) && stream.Rest() == after
  {
    var content := stream.Read(size);
    var closing := stream.Read(1);
    r := if |content| != size || closing != [NL] then None else Some(content);
  }

  method ReadFrame(entry: Entry, stream: ByteReader) returns (r: Result<Payload, FrameError>)
    requires stream.Valid()
    modifies stream
    ensures stream.Valid()
    ensures match ParseFrame(entry, old(stream.Rest()))
      case Err(e) => r == Err(e)
      case Ok((payload, after)) => r == Ok(payload) && stream.Rest() == after
  {
    var line := stream.ReadLine();
    var header := Header(line, entry.oid);
    if header.Err? {
      return Err(header.error);
    }
    var content := ReadBody(stream, header.value);
    r := if content.None? then Err(TruncatedObject) else Ok(Payload(entry.name, content.value));
  }

  /** The loop over the entries, advancing the cursor through the `cat-file` output. */
  method ReadFrames(entries: seq<Entry>, batch: Bytes) returns (r: Result<seq<Payload>, FrameError>)
    ensures r == ParseFrames(entries, batch)
  {
    var stream := new ByteReader(batch);
    var payloads: seq<Payload> := [];
    assert entries[0..] == entries;
    PrependNothing(ParseFrames(entries, batch));
    for i := 0 to |entries|
      invariant stream.Valid()
      invariant ParseFrames(entries, batch) == Prepend(payloads, ParseFrames(entries[i..], stream.Rest()))
    {
      ParseFramesStep(payloads, entries, i, stream.Rest());
      var payload := ReadFrame(entries[i], stream);
      if payload.Err? {
        return Err(payload.error);
      }
      payloads := payloads + [payload.value];
    }
    assert entries[|entries|..] == [] && payloads + [] == payloads;
    var trailing := stream.Read(-1);
    r := if trailing != [] then Err(TrailingOutput) else Ok(payloads);
  }

  lemma ParseFramesStep(done: seq<Payload>, entries: seq<Entry>, i: nat, stream: Bytes)
    requires i < |entries|
    ensures Prepend(done, ParseFrames(entries[i..], stream)) ==
      match ParseFrame(entries[i], stream)
      case Err(e) => Err(e)
      case Ok((payload, after)) => Prepend(done + [payload], ParseFrames(entries[i + 1..], after))
  {
    assert entries[i..][0] == entries[i] && entries[i..][1..] == entries[i + 1..];
    var frame := ParseFrame(entries[i], stream);
    if frame.Ok? {
      PrependTwice(done, [frame.value.0], ParseFrames(entries[i + 1..], frame.value.1));
    }
  }

  lemma PrependNothing(r: Result<seq<Payload>, FrameError>)
    ensures Prepend([], r) == r
  {
    if r.Ok? {
      assert [] + r.value == r.value;
    }
  }

  lemma PrependTwice(a: seq<Payload>, b: seq<Payload>, r: Result<seq<Payload>, FrameError>)
    ensures Prepend(a, Prepend(b, r)) == Prepend(a + b, r)
  {
    if r.Ok? {
      assert a + (b + r.value) == a + b + r.value;
    }
  }
}
