/** The export verifier of tools/verify_request_workflow_export.py. */
module WorkflowExport {
  import opened Wrappers
  import opened Json

  // ---------------------------------------------------------------- same_json

  predicate SameJson(left: Json, right: Json) {
    if left.Bool? || right.Bool? then left == right
    else if IsNumber(left) && IsNumber(right) then FloatEqual(AsFloat(left), AsFloat(right))
    else if left.Object? && right.Object? then
      left.fields.Keys == right.fields.Keys && forall k | k in left.fields :: SameJson(left.fields[k], right.fields[k])
    else if left.List? && right.List? then
      |left.items| == |right.items| && forall i | 0 <= i < |left.items| :: SameJson(left.items[i], right.items[i])
    else left == right
  }

  /** Numbers replaced by their exact value; everything else, booleans included, keeps its kind. */
  function Normal(x: Json): Json {
    match x
    case Int(i) => Number(Finite(i as real))
    case List(items) => List(seq(|items|, i requires 0 <= i < |items| => Normal(items[i])))
    case Object(fields) => Object(map k | k in fields :: Normal(fields[k]))
    case _ => x
  }

  predicate NaNFree(x: Json) {
    match x
    case Number(f) => !f.NaN?
    case List(items) => forall i | 0 <= i < |items| :: NaNFree(items[i])
    case Object(fields) => forall k | k in fields :: NaNFree(fields[k])
    case _ => true
  }

  /** `same_json` is equality of normal forms, and never holds of anything with a NaN in it. */
  lemma {:induction false} SameJsonIff(x: Json, y: Json)
    ensures SameJson(x, y) <==> NaNFree(x) && Normal(x) == Normal(y)
    decreases x
  {
    if x.List? && y.List? {
      SameListIff(x, y);
    } else if x.Object? && y.Object? {
      SameObjectIff(x, y);
    }
  }

  lemma {:induction false} SameListIff(x: Json, y: Json)
    requires x.List? && y.List?
    ensures SameJson(x, y) <==> NaNFree(x) && Normal(x) == Normal(y)
    decreases x, 0
  {
    var a, b := Normal(x).items, Normal(y).items;
    forall i | 0 <= i < |x.items| && i < |y.items|
      ensures SameJson(x.items[i], y.items[i]) <==> NaNFree(x.items[i]) && a[i] == b[i]
    {
      SameJsonIff(x.items[i], y.items[i]);
    }
    if SameJson(x, y) {
      assert a == b;
    } else if NaNFree(x) && |x.items| == |y.items| {
      var i :| 0 <= i < |x.items| && !SameJson(x.items[i], y.items[i]);
      assert a[i] != b[i];
    } else {
      assert |x.items| != |y.items| ==> |a| != |b|;
    }
  }

  lemma {:induction false} SameObjectIff(x: Json, y: Json)
    requires x.Object? && y.Object?
    ensures SameJson(x, y) <==> NaNFree(x) && Normal(x) == Normal(y)
    decreases x, 0
  {
    var a, b := Normal(x).fields, Normal(y).fields;
    forall k | k in x.fields && k in y.fields
      ensures SameJson(x.fields[k], y.fields[k]) <==> NaNFree(x.fields[k]) && a[k] == b[k]
    {
      SameJsonIff(x.fields[k], y.fields[k]);
    }
    assert a.Keys == x.fields.Keys && b.Keys == y.fields.Keys;
    if SameJson(x, y) {
      assert a == b;
    } else if NaNFree(x) && x.fields.Keys == y.fields.Keys {
      var k :| k in x.fields && !SameJson(x.fields[k], y.fields[k]);
      assert a[k] != b[k];
    } else {
      assert x.fields.Keys != y.fields.Keys ==> a != b;
    }
  }

  /** An equivalence on NaN-free values; reflexive on no others. */
  lemma SameJsonIsEquivalence(x: Json, y: Json, z: Json)
    ensures SameJson(x, x) <==> NaNFree(x)
    ensures SameJson(x, y) ==> SameJson(y, x)
    ensures SameJson(x, y) && SameJson(y, z) ==> SameJson(x, z)
  {
    SameJsonIff(x, x);
    SameJsonIff(x, y);
    SameJsonIff(y, x);
    SameJsonIff(y, z);
    SameJsonIff(x, z);
    if Normal(x) == Normal(y) {
      NaNFreeOfNormal(x);
      NaNFreeOfNormal(y);
    }
  }

  lemma {:induction false} NaNFreeOfNormal(x: Json)
    ensures NaNFree(Normal(x)) <==> NaNFree(x)
  {
    if x.List? {
      forall i | 0 <= i < |x.items| ensures NaNFree(Normal(x).items[i]) <==> NaNFree(x.items[i]) {
        NaNFreeOfNormal(x.items[i]);
      }
      assert |Normal(x).items| == |x.items|;
    } else if x.Object? {
      forall k | k in x.fields ensures NaNFree(Normal(x).fields[k]) <==> NaNFree(x.fields[k]) {
        NaNFreeOfNormal(x.fields[k]);
      }
      assert Normal(x).fields.Keys == x.fields.Keys;
    }
  }

  /** Wherever both values have something at a position, either both or neither have a boolean. */
  predicate BooleansAligned(x: Json, y: Json) {
    && (x.Bool? <==> y.Bool?)
    && (x.List? && y.List? && |x.items| == |y.items| ==>
          forall i | 0 <= i < |x.items| :: BooleansAligned(x.items[i], y.items[i]))
    && (x.Object? && y.Object? ==>
          forall k | k in x.fields && k in y.fields :: BooleansAligned(x.fields[k], y.fields[k]))
  }

  /** `same_json` is Python's own equality with booleans kept apart from numbers. */
  lemma {:induction false} SameJsonRefinesPythonEquality(x: Json, y: Json)
    ensures SameJson(x, y) <==> PyEqual(x, y) && BooleansAligned(x, y)
  {
    if x.List? && y.List? && |x.items| == |y.items| {
      forall i | 0 <= i < |x.items|
        ensures SameJson(x.items[i], y.items[i]) <==>
          PyEqual(x.items[i], y.items[i]) && BooleansAligned(x.items[i], y.items[i])
      {
        SameJsonRefinesPythonEquality(x.items[i], y.items[i]);
      }
    } else if x.Object? && y.Object? && x.fields.Keys == y.fields.Keys {
      forall k | k in x.fields
        ensures SameJson(x.fields[k], y.fields[k]) <==>
          PyEqual(x.fields[k], y.fields[k]) && BooleansAligned(x.fields[k], y.fields[k])
      {
        SameJsonRefinesPythonEquality(x.fields[k], y.fields[k]);
      }
    }
  }

  /** The refinement is strict, at any depth. */
  lemma SameJsonIsStrictlyFiner(key: string)
    ensures PyEqual(Object(map[key := Bool(true)]), Object(map[key := Int(1)]))
    ensures !SameJson(Object(map[key := Bool(true)]), Object(map[key := Int(1)]))
  {
    var x, y := Object(map[key := Bool(true)]), Object(map[key := Int(1)]);
    assert x.fields[key] == Bool(true) && y.fields[key] == Int(1);
  }

  /** The same with booleans read as the numbers 0 and 1, as Python's `==` does. */
  function PyNormal(x: Json): Json {
    match x
    case Bool(b) => Number(Finite(if b then 1.0 else 0.0))
    case Int(i) => Number(Finite(i as real))
    case List(items) => List(seq(|items|, i requires 0 <= i < |items| => PyNormal(items[i])))
    case Object(fields) => Object(map k | k in fields :: PyNormal(fields[k]))
    case _ => x
  }

  /** Python's `==` on JSON values, written out. */
  lemma {:induction false} PyEqualIff(x: Json, y: Json)
    ensures PyEqual(x, y) <==> NaNFree(x) && PyNormal(x) == PyNormal(y)
    decreases x
  {
    if x.List? && y.List? {
      EqualListIff(x, y);
    } else if x.Object? && y.Object? {
      EqualObjectIff(x, y);
    }
  }

  lemma {:induction false} EqualListIff(x: Json, y: Json)
    requires x.List? && y.List?
    ensures PyEqual(x, y) <==> NaNFree(x) && PyNormal(x) == PyNormal(y)
    decreases x, 0
  {
    var a, b := PyNormal(x).items, PyNormal(y).items;
    forall i | 0 <= i < |x.items| && i < |y.items|
      ensures PyEqual(x.items[i], y.items[i]) <==> NaNFree(x.items[i]) && a[i] == b[i]
    {
      PyEqualIff(x.items[i], y.items[i]);
    }
    if PyEqual(x, y) {
      assert a == b;
    } else if NaNFree(x) && |x.items| == |y.items| {
      var i :| 0 <= i < |x.items| && !PyEqual(x.items[i], y.items[i]);
      assert a[i] != b[i];
    } else {
      assert |x.items| != |y.items| ==> |a| != |b|;
    }
  }

  lemma {:induction false} EqualObjectIff(x: Json, y: Json)
    requires x.Object? && y.Object?
    ensures PyEqual(x, y) <==> NaNFree(x) && PyNormal(x) == PyNormal(y)
    decreases x, 0
  {
    var a, b := PyNormal(x).fields, PyNormal(y).fields;
    forall k | k in x.fields && k in y.fields
      ensures PyEqual(x.fields[k], y.fields[k]) <==> NaNFree(x.fields[k]) && a[k] == b[k]
    {
      PyEqualIff(x.fields[k], y.fields[k]);
    }
    assert a.Keys == x.fields.Keys && b.Keys == y.fields.Keys;
    if PyEqual(x, y) {
      assert a == b;
    } else if NaNFree(x) && x.fields.Keys == y.fields.Keys {
      var k :| k in x.fields && !PyEqual(x.fields[k], y.fields[k]);
      assert a[k] != b[k];
    } else {
      assert x.fields.Keys != y.fields.Keys ==> a != b;
    }
  }

  // ---------------------------------------------------------------- verify

  datatype ExportError =
    | NoAttempts
    | ClaimsApproval
    | CanonicalMissing
    | HashMismatch
    | NotJson
    | ResultDiffers
    | IdentityMismatch
    | NotADict
    | MissingId

  /** The hash of a text and the JSON reader. */
  datatype Tools = Tools(sha256: string -> string, loads: string -> Option<Json>)

  /** Both flags are literally False. */
  predicate ClaimsNothing(x: Json)
    requires x.Object?
  {
    Get(x, "gate_evidence") == Bool(false) && Get(x, "human_review_verified") == Bool(false)
  }

  /** `{k: v for k, v in result.items() if k != "evidence_hash"}`. */
  function WithoutHash(result: Json): Json
    requires result.Object?
  {
    Object(result.fields - {"evidence_hash"})
  }

  /** One pass of the loop: the verified hash, or the first complaint. */
  function CheckAttempt(row: Json, tools: Tools): Result<(Json, string), ExportError> {
    if !row.Object? then Err(NotADict)
    else if !ClaimsNothing(row) then Err(ClaimsApproval)
    else
      var result, envelope := Get(row, "result"), Get(row, "evidence");
      if !Truthy(result) || !Truthy(envelope) then Err(CanonicalMissing)
      else if !envelope.Object? then Err(NotADict)
      else if !Get(envelope, "canonical_json").Str? then Err(CanonicalMissing)
      else
        var text := Get(envelope, "canonical_json").s;
        var actual := tools.sha256(text);
        if Get(envelope, "sha256") != Str(actual) then Err(HashMismatch)
        else if !result.Object? then Err(NotADict)
        else if Get(result, "evidence_hash") != Str(actual) then Err(HashMismatch)
        else if tools.loads(text).None? then Err(NotJson)
        else
          var decoded := tools.loads(text).value;
          if !SameJson(decoded, WithoutHash(result)) then Err(ResultDiffers)
          else if !PyEqual(Get(decoded, "attempt_id"), Get(row, "id")) then Err(IdentityMismatch)
          else if !PyEqual(Get(decoded, "source"), Get(row, "source")) then Err(IdentityMismatch)
          else if !ClaimsNothing(decoded) then Err(ClaimsApproval)
          else if "id" !in row.fields then Err(MissingId)
          else Ok((row.fields["id"], actual))
  }

  function Attempts(document: Json): Result<seq<Json>, ExportError> {
    if !document.Object? then Err(NotADict)
    else
      var attempts := if "attempts" in document.fields then document.fields["attempts"] else List([document]);
      if !attempts.List? || attempts.items == [] then Err(NoAttempts) else Ok(attempts.items)
  }

  ghost predicate FirstComplaint(attempts: seq<Json>, tools: Tools, e: ExportError) {
    exists i ::
      && 0 <= i < |attempts| && CheckAttempt(attempts[i], tools) == Err(e)
      && forall j | 0 <= j < i :: CheckAttempt(attempts[j], tools).Ok?
  }

  /** `verify`: every attempt must pass; their hashes are reported in order. */
  method Verify(document: Json, tools: Tools) returns (r: Result<seq<(Json, string)>, ExportError>)
    ensures r.Ok? <==>
      Attempts(document).Ok? && forall row | row in Attempts(document).value :: CheckAttempt(row, tools).Ok?
    ensures r.Ok? ==>
      && |r.value| == |Attempts(document).value|
      && forall i | 0 <= i < |r.value| :: Ok(r.value[i]) == CheckAttempt(Attempts(document).value[i], tools)
    ensures r.Err? ==>
      if Attempts(document).Err? then r.error == Attempts(document).error
      else FirstComplaint(Attempts(document).value, tools, r.error)
  {
    var attempts := Attempts(document);
    if attempts.Err? {
      return Err(attempts.error);
    }
    var hashes: seq<(Json, string)> := [];
    for i := 0 to |attempts.value|
      invariant |hashes| == i
      invariant forall j | 0 <= j < i :: CheckAttempt(attempts.value[j], tools) == Ok(hashes[j])
    {
      var checked := CheckAttempt(attempts.value[i], tools);
      if checked.Err? {
        return Err(checked.error);
      }
      hashes := hashes + [checked.value];
    }
    r := Ok(hashes);
  }

  /** The attempts of a document: its non-empty list of them, or itself when it has no such key. */
  lemma AttemptsAre(document: Json, items: seq<Json>)
    ensures Attempts(document) == Ok(items) <==>
      && document.Object? && items != []
      && (if "attempts" in document.fields then document.fields["attempts"] == List(items) else items == [document])
  {
  }

  ghost predicate Disclaims(fields: map<string, Json>) {
    && "gate_evidence" in fields && fields["gate_evidence"] == Bool(false)
    && "human_review_verified" in fields && fields["human_review_verified"] == Bool(false)
  }

  /** Equal to Python, a missing entry counting as None. */
  ghost predicate SameEntry(a: map<string, Json>, k: string, b: map<string, Json>, l: string) {
    PyEqual(if k in a then a[k] else Null, if l in b then b[l] else Null)
  }

  /** An attempt that verifies: the canonical text under its hash, decoding to what is displayed. */
  ghost predicate Verifies(row: map<string, Json>, result: map<string, Json>, evidence: map<string, Json>,
                           text: string, decoded: map<string, Json>, tools: Tools) {
    && Disclaims(row) && "id" in row
    && "result" in row && row["result"] == Object(result)
    && "evidence" in row && row["evidence"] == Object(evidence)
    && "canonical_json" in evidence && evidence["canonical_json"] == Str(text)
    && "sha256" in evidence && evidence["sha256"] == Str(tools.sha256(text))
    && "evidence_hash" in result && result["evidence_hash"] == Str(tools.sha256(text))
    && tools.loads(text) == Some(Object(decoded)) && Disclaims(decoded)
    && NaNFree(Object(decoded)) && Normal(Object(decoded)) == Normal(Object(result - {"evidence_hash"}))
    && SameEntry(decoded, "attempt_id", row, "id") && SameEntry(decoded, "source", row, "source")
  }

  /** The check of one attempt, written out. */
  lemma CheckAttemptIff(row: Json, tools: Tools, id: Json, hash: string)
    ensures CheckAttempt(row, tools) == Ok((id, hash)) <==>
      row.Object? && exists result, evidence, text, decoded ::
        && Verifies(row.fields, result, evidence, text, decoded, tools)
        && id == row.fields["id"] && hash == tools.sha256(text)
  {
    if CheckAttempt(row, tools) == Ok((id, hash)) {
      CheckedVerifies(row, tools);
    }
    if row.Object? {
      forall result, evidence, text, decoded | Verifies(row.fields, result, evidence, text, decoded, tools)
        ensures CheckAttempt(row, tools) == Ok((row.fields["id"], tools.sha256(text)))
      {
        VerifiesChecks(row.fields, result, evidence, text, decoded, tools);
      }
    }
  }

  /** What Python counts as false. */
  lemma TruthyIff(x: Json)
    ensures !Truthy(x) <==>
      || x == Null || x == Bool(false) || x == Int(0) || x == Number(Finite(0.0))
      || x == Str("") || x == List([]) || x == Object(map[])
  {
    if x.Object? {
      assert x.fields.Keys == {} <==> x.fields == map[];
    }
  }

  ghost predicate HasText(evidence: Json) {
    evidence.Object? && "canonical_json" in evidence.fields && evidence.fields["canonical_json"].Str?
  }

  /** Both hashes the row claims for its text are right, the one on the envelope and the one on display. */
  ghost predicate HashesMatch(result: Json, evidence: Json, tools: Tools)
    requires result.Object? && HasText(evidence)
  {
    var hash := Str(tools.sha256(evidence.fields["canonical_json"].s));
    && "sha256" in evidence.fields && evidence.fields["sha256"] == hash
    && "evidence_hash" in result.fields && result.fields["evidence_hash"] == hash
  }

  /** Which complaint a row earns, first complaint first. */
  lemma ComplaintIs(row: map<string, Json>, tools: Tools)
    ensures var (result, evidence) := (Get(Object(row), "result"), Get(Object(row), "evidence"));
      match CheckAttempt(Object(row), tools)
      case Ok(_) => true
      case Err(e) =>
        if !Disclaims(row) then e == ClaimsApproval
        else if !Truthy(result) || !Truthy(evidence) then e == CanonicalMissing
        else if !evidence.Object? then e == NotADict
        else if !HasText(evidence) then e == CanonicalMissing
        else if !result.Object? then e == HashMismatch || e == NotADict
        else if !HashesMatch(result, evidence, tools) then e == HashMismatch
        else
          var decoded := tools.loads(evidence.fields["canonical_json"].s);
          if decoded.None? then e == NotJson
          else if !SameJson(decoded.value, Object(result.fields - {"evidence_hash"})) then e == ResultDiffers
          else if !SameEntry(decoded.value.fields, "attempt_id", row, "id")
               || !SameEntry(decoded.value.fields, "source", row, "source") then e == IdentityMismatch
          else if !Disclaims(decoded.value.fields) then e == ClaimsApproval
          else e == MissingId
  {
  }

  lemma CheckedVerifies(row: Json, tools: Tools)
    requires CheckAttempt(row, tools).Ok?
    ensures row.Object? && exists result, evidence, text, decoded ::
      && Verifies(row.fields, result, evidence, text, decoded, tools)
      && CheckAttempt(row, tools).value == (row.fields["id"], tools.sha256(text))
  {
    var result, evidence := Get(row, "result").fields, Get(row, "evidence").fields;
    var text := evidence["canonical_json"].s;
    var decoded := tools.loads(text).value;
    SameJsonIff(decoded, WithoutHash(Object(result)));
    assert Verifies(row.fields, result, evidence, text, decoded.fields, tools);
  }

  lemma VerifiesChecks(row: map<string, Json>, result: map<string, Json>, evidence: map<string, Json>,
                       text: string, decoded: map<string, Json>, tools: Tools)
    requires Verifies(row, result, evidence, text, decoded, tools)
    ensures CheckAttempt(Object(row), tools) == Ok((row["id"], tools.sha256(text)))
  {
    SameJsonIff(Object(decoded), Object(result - {"evidence_hash"}));
  }

  /** What a verified attempt displays is, up to number spelling, its canonical evidence. */
  lemma VerifiedAttemptShowsItsEvidence(row: Json, tools: Tools)
    requires CheckAttempt(row, tools).Ok?
    ensures row.Object? && Get(row, "evidence").Object? && Get(row, "result").Object?
    ensures var (result, text) := (Get(row, "result"), Get(Get(row, "evidence"), "canonical_json"));
      && text.Str? && tools.loads(text.s).Some?
      && Get(result, "evidence_hash") == Str(tools.sha256(text.s))
      && Normal(tools.loads(text.s).value) == Normal(WithoutHash(result))
      && NaNFree(tools.loads(text.s).value)
      && ClaimsNothing(row) && ClaimsNothing(result)
  {
    var result := Get(row, "result");
    var decoded := tools.loads(Get(Get(row, "evidence"), "canonical_json").s).value;
    SameJsonIff(decoded, WithoutHash(result));
    FlagSurvives(decoded, result, "gate_evidence");
    FlagSurvives(decoded, result, "human_review_verified");
  }

  lemma FlagSurvives(decoded: Json, result: Json, flag: string)
    requires decoded.Object? && result.Object? && SameJson(decoded, WithoutHash(result))
    requires Get(decoded, flag) == Bool(false)
    ensures Get(result, flag) == Bool(false)
  {
    assert flag in decoded.fields;
    assert SameJson(decoded.fields[flag], WithoutHash(result).fields[flag]);
  }

  /** The canonical text of an attempt. */
  function CanonicalText(row: Json): string {
    if row.Object? && Get(row, "evidence").Object? && Get(Get(row, "evidence"), "canonical_json").Str?
    then Get(Get(row, "evidence"), "canonical_json").s else ""
  }

  lemma SameJsonEuclidean(x: Json, y: Json, z: Json)
    requires SameJson(x, y) && SameJson(x, z)
    ensures SameJson(y, z)
  {
    SameJsonIsEquivalence(x, y, x);
    SameJsonIsEquivalence(y, x, z);
  }

  lemma CheckedAttempt(row: Json, tools: Tools)
    requires CheckAttempt(row, tools).Ok?
    ensures row.Object? && Get(row, "result").Object? && tools.loads(CanonicalText(row)).Some?
    ensures SameJson(tools.loads(CanonicalText(row)).value, WithoutHash(Get(row, "result")))
    ensures CheckAttempt(row, tools).value.1 == tools.sha256(CanonicalText(row))
    ensures "evidence_hash" in Get(row, "result").fields
    ensures Get(row, "result").fields["evidence_hash"] == Str(tools.sha256(CanonicalText(row)))
  {
  }

  lemma SameUpToHash(a: Json, b: Json)
    requires a.Object? && b.Object? && "evidence_hash" in a.fields && "evidence_hash" in b.fields
    requires a.fields["evidence_hash"] == b.fields["evidence_hash"] && a.fields["evidence_hash"].Str?
    requires SameJson(WithoutHash(a), WithoutHash(b))
    ensures SameJson(a, b)
  {
    forall k | k in a.fields && k in b.fields ensures SameJson(a.fields[k], b.fields[k]) {
      assert k != "evidence_hash" ==> SameJson(WithoutHash(a).fields[k], WithoutHash(b).fields[k]);
    }
    assert a.fields.Keys == WithoutHash(a).fields.Keys + {"evidence_hash"};
    assert b.fields.Keys == WithoutHash(b).fields.Keys + {"evidence_hash"};
  }

  /**
   * The evidence hash pins the displayed content: two verified attempts with the same hash, whose
   * texts do not collide, display the same result.
   */
  lemma EvidenceHashPinsResult(a: Json, b: Json, tools: Tools)
    requires CheckAttempt(a, tools).Ok? && CheckAttempt(b, tools).Ok?
    requires CheckAttempt(a, tools).value.1 == CheckAttempt(b, tools).value.1
    requires tools.sha256(CanonicalText(a)) == tools.sha256(CanonicalText(b)) ==> CanonicalText(a) == CanonicalText(b)
    ensures SameJson(Get(a, "result"), Get(b, "result"))
  {
    CheckedAttempt(a, tools);
    CheckedAttempt(b, tools);
    var decoded := tools.loads(CanonicalText(a)).value;
    var ra, rb := Get(a, "result"), Get(b, "result");
    SameJsonEuclidean(decoded, WithoutHash(ra), WithoutHash(rb));
    SameUpToHash(ra, rb);
  }

  /** With the evidence left alone, the displays that verify are exactly one class of `same_json`. */
  lemma TamperedResultIsCaught(row: Json, tampered: Json, tools: Tools)
    requires CheckAttempt(row, tools).Ok?
    ensures CheckAttempt(Object(row.fields["result" := tampered]), tools).Ok?
       <==> SameJson(Get(row, "result"), tampered)
  {
    if CheckAttempt(Object(row.fields["result" := tampered]), tools).Ok? {
      VerifiedDisplayIsSame(row, tampered, tools);
    }
    if SameJson(Get(row, "result"), tampered) {
      SameDisplayVerifies(row, tampered, tools);
    }
  }

  lemma VerifiedDisplayIsSame(row: Json, tampered: Json, tools: Tools)
    requires CheckAttempt(row, tools).Ok? && CheckAttempt(Object(row.fields["result" := tampered]), tools).Ok?
    ensures SameJson(Get(row, "result"), tampered)
  {
    var other := Object(row.fields["result" := tampered]);
    CheckedAttempt(row, tools);
    CheckedAttempt(other, tools);
    assert Get(other, "evidence") == Get(row, "evidence");
    SameJsonEuclidean(tools.loads(CanonicalText(row)).value, WithoutHash(Get(row, "result")), WithoutHash(tampered));
    SameUpToHash(Get(row, "result"), tampered);
  }

  lemma SameDisplayVerifies(row: Json, tampered: Json, tools: Tools)
    requires CheckAttempt(row, tools).Ok? && SameJson(Get(row, "result"), tampered)
    ensures CheckAttempt(Object(row.fields["result" := tampered]), tools).Ok?
  {
    var decoded, result := tools.loads(CanonicalText(row)).value, Get(row, "result");
    CheckedAttempt(row, tools);
    SameWithoutHash(result, tampered);
    SameJsonIsEquivalence(decoded, WithoutHash(result), WithoutHash(tampered));
    ReplacedDisplayVerifies(row, tampered, tools);
  }

  lemma ReplacedDisplayVerifies(row: Json, tampered: Json, tools: Tools)
    requires CheckAttempt(row, tools).Ok? && tampered.Object?
    requires Get(tampered, "evidence_hash") == Get(Get(row, "result"), "evidence_hash")
    requires SameJson(tools.loads(CanonicalText(row)).value, WithoutHash(tampered))
    ensures CheckAttempt(Object(row.fields["result" := tampered]), tools).Ok?
  {
    var other := Object(row.fields["result" := tampered]);
    assert forall k | k != "result" :: Get(other, k) == Get(row, k);
    assert "evidence_hash" in tampered.fields;
  }

  lemma SameWithoutHash(a: Json, b: Json)
    requires a.Object? && "evidence_hash" in a.fields && a.fields["evidence_hash"].Str? && SameJson(a, b)
    ensures b.Object? && "evidence_hash" in b.fields && b.fields["evidence_hash"] == a.fields["evidence_hash"]
    ensures SameJson(WithoutHash(a), WithoutHash(b))
  {
    assert SameJson(a.fields["evidence_hash"], b.fields["evidence_hash"]);
    var x, y := WithoutHash(a), WithoutHash(b);
    assert x.fields.Keys == y.fields.Keys;
    forall k | k in x.fields && k in y.fields ensures SameJson(x.fields[k], y.fields[k]) {
      assert SameJson(a.fields[k], b.fields[k]);
    }
  }
}
