/** The canonical text of a planned action, `json.dumps` with sorted keys, and what it identifies. */
module PlanText {
  import opened Order
  import opened Json

  datatype Action = Action(tool: string, arguments: map<string, Json>)

  /** How `json.dumps` spells a value that is not a string: never empty, never opening with a quote. */
  type Speller = f: Json -> string
    | forall v: Json :: f(v) != "" && f(v)[0] != '\"'
    witness (_ => "0")

  const BACKSPACE := '\U{08}'
  const FORM_FEED := '\U{0C}'

  function HexDigit(d: nat): char
    requires d < 16
  {
    if d < 10 then '0' + d as char else 'a' + (d - 10) as char
  }

  /** The escapes of `json.dumps` with `ensure_ascii=False`. */
  function Escape(c: char): string {
    if c == '\"' then "\\\""
    else if c == '\\' then "\\\\"
    else if c == '\n' then "\\n"
    else if c == '\r' then "\\r"
    else if c == '\t' then "\\t"
    else if c == BACKSPACE then "\\b"
    else if c == FORM_FEED then "\\f"
    else if c < ' ' then "\\u00" + [HexDigit(c as int / 16), HexDigit(c as int % 16)]
    else [c]
  }

  /** The rest of a string literal, closing quote included. */
  function Closed(s: string): string {
    if s == "" then "\"" else Escape(s[0]) + Closed(s[1..])
  }

  function Quoted(s: string): string {
    "\"" + Closed(s)
  }

  function ValueText(v: Json, spell: Speller): string {
    if v.Str? then Quoted(v.s) else spell(v)
  }

  function Comma(first: bool): string {
    if first then "" else ", "
  }

  /** The rest of an object from these keys on, closing brace included. */
  function MembersText(keys: seq<string>, fields: map<string, Json>, first: bool, spell: Speller): string
    requires forall k | k in keys :: k in fields
  {
    if keys == [] then "}"
    else
      Comma(first) + Quoted(keys[0]) + ": " + ValueText(fields[keys[0]], spell)
      + MembersText(keys[1..], fields, false, spell)
  }

  const OPENING := "{\"arguments\": {"
  const BETWEEN := ", \"tool\": "

  /** `json.dumps(action, sort_keys=True, ensure_ascii=False)`. */
  function ActionText(a: Action, spell: Speller): string {
    OPENING + MembersText(InOrder(a.arguments.Keys), a.arguments, true, spell) + BETWEEN + Quoted(a.tool) + "}"
  }

  // ---------------------------------------------------------------- what a text determines

  lemma SameStart(p: string, x: string, y: string)
    requires p + x == p + y
    ensures x == y
  {
    assert x == (p + x)[|p|..] && y == (p + y)[|p|..];
  }

  lemma EscapeHead(c: char, x: string)
    ensures var t := Escape(c) + x; t[0] != '\"' && (t[0] == '\\' <==> Escape(c) != [c])
    ensures Escape(c) != [c] ==> |Escape(c)| >= 2 && (|Escape(c)| == 2 || Escape(c)[1] == 'u')
  {
  }

  lemma EscapeTwo(c: char, d: char)
    requires |Escape(c)| >= 2 && |Escape(d)| >= 2 && Escape(c)[1] == Escape(d)[1]
    requires |Escape(c)| == 2 || |Escape(d)| == 2
    ensures c == d
  {
  }

  lemma EscapeSix(c: char, d: char)
    requires |Escape(c)| == |Escape(d)| == 6 && Escape(c)[4] == Escape(d)[4] && Escape(c)[5] == Escape(d)[5]
    ensures c == d
  {
    assert c as int == 16 * (c as int / 16) + c as int % 16;
    assert d as int == 16 * (d as int / 16) + d as int % 16;
  }

  /** No escape is a prefix of another character's. */
  lemma EscapesAreSeparable(c: char, d: char, x: string, y: string)
    requires Escape(c) + x == Escape(d) + y
    ensures c == d && x == y
  {
    var s, t := Escape(c) + x, Escape(d) + y;
    EscapeHead(c, x);
    EscapeHead(d, y);
    if |Escape(c)| == 1 {
      assert c == s[0] == t[0] == d;
    } else {
      assert Escape(c)[1] == s[1] == t[1] == Escape(d)[1];
      if |Escape(c)| == 2 || |Escape(d)| == 2 {
        EscapeTwo(c, d);
      } else {
        assert Escape(c)[4] == s[4] == t[4] == Escape(d)[4] && Escape(c)[5] == s[5] == t[5] == Escape(d)[5];
        EscapeSix(c, d);
      }
    }
    SameStart(Escape(c), x, y);
  }

  lemma Regroup(a: string, b: string, c: string)
    ensures (a + b) + c == a + (b + c)
  {
  }

  lemma ClosedUnfold(s: string, x: string)
    requires s != ""
    ensures Closed(s) + x == Escape(s[0]) + (Closed(s[1..]) + x)
    ensures (Closed(s) + x)[0] != '\"'
  {
    Regroup(Escape(s[0]), Closed(s[1..]), x);
    EscapeHead(s[0], Closed(s[1..]) + x);
  }

  /** Where a string literal ends can be read off the text, and so can the string. */
  lemma {:induction false} ClosedIsSeparable(s: string, t: string, x: string, y: string)
    requires Closed(s) + x == Closed(t) + y
    ensures s == t && x == y
  {
    if s != "" { ClosedUnfold(s, x); }
    if t != "" { ClosedUnfold(t, y); }
    if s == "" || t == "" {
      assert s == t == "";
      SameStart("\"", x, y);
    } else {
      EscapesAreSeparable(s[0], t[0], Closed(s[1..]) + x, Closed(t[1..]) + y);
      ClosedIsSeparable(s[1..], t[1..], x, y);
      assert s == [s[0]] + s[1..] && t == [t[0]] + t[1..];
    }
  }

  lemma QuotedIsSeparable(s: string, t: string, x: string, y: string)
    requires Quoted(s) + x == Quoted(t) + y
    ensures s == t && x == y
  {
    Regroup("\"", Closed(s), x);
    Regroup("\"", Closed(t), y);
    SameStart("\"", Closed(s) + x, Closed(t) + y);
    ClosedIsSeparable(s, t, x, y);
  }

  /** A string's text is no other value's. */
  lemma ValueIsSeparable(s: string, v: Json, spell: Speller, x: string, y: string)
    requires Quoted(s) + x == ValueText(v, spell) + y
    ensures v == Str(s) && x == y
  {
    HeadOf(Quoted(s), x);
    HeadOf(ValueText(v, spell), y);
    QuotedIsSeparable(s, v.s, x, y);
  }

  lemma HeadOf(t: string, x: string)
    requires t != ""
    ensures (t + x)[0] == t[0]
  {
  }

  ghost predicate TextArguments(fields: map<string, Json>) {
    forall k | k in fields :: fields[k].Str?
  }

  /** One member and what follows it. */
  lemma FirstMember(comma: string, k: string, l: string, s: string, v: Json, spell: Speller, x: string, y: string)
    requires comma + (Quoted(k) + (": " + (Quoted(s) + x))) == comma + (Quoted(l) + (": " + (ValueText(v, spell) + y)))
    ensures k == l && v == Str(s) && x == y
  {
    SameStart(comma, Quoted(k) + (": " + (Quoted(s) + x)), Quoted(l) + (": " + (ValueText(v, spell) + y)));
    QuotedIsSeparable(k, l, ": " + (Quoted(s) + x), ": " + (ValueText(v, spell) + y));
    SameStart(": ", Quoted(s) + x, ValueText(v, spell) + y);
    ValueIsSeparable(s, v, spell, x, y);
  }

  lemma MembersUnfold(keys: seq<string>, fields: map<string, Json>, first: bool, spell: Speller, x: string)
    requires keys != [] && forall k | k in keys :: k in fields
    ensures MembersText(keys, fields, first, spell) + x == Comma(first) +
      (Quoted(keys[0]) + (": " + (ValueText(fields[keys[0]], spell)
        + (MembersText(keys[1..], fields, false, spell) + x))))
  {
    RegroupMember(Comma(first), Quoted(keys[0]), ": ", ValueText(fields[keys[0]], spell),
                  MembersText(keys[1..], fields, false, spell), x);
  }

  lemma RegroupMember(a: string, b: string, c: string, d: string, e: string, x: string)
    ensures (a + b + c + d + e) + x == a + (b + (c + (d + (e + x))))
  {
  }

  /** A closing brace cannot be mistaken for another member. */
  lemma MembersHead(keys: seq<string>, fields: map<string, Json>, first: bool, spell: Speller, x: string)
    requires forall k | k in keys :: k in fields
    ensures var text := MembersText(keys, fields, first, spell) + x; text != "" && (text[0] == '}' <==> keys == [])
  {
    if keys != [] {
      MembersUnfold(keys, fields, first, spell, x);
    }
  }

  lemma {:induction false} MembersAreSeparable(keys: seq<string>, fields: map<string, Json>,
                                               keys': seq<string>, fields': map<string, Json>,
                                               first: bool, spell: Speller, x: string, y: string)
    requires (forall k | k in keys :: k in fields) && (forall k | k in keys' :: k in fields')
    requires TextArguments(fields)
    requires MembersText(keys, fields, first, spell) + x == MembersText(keys', fields', first, spell) + y
    ensures keys == keys' && x == y && forall k | k in keys :: fields[k] == fields'[k]
  {
    MembersHead(keys, fields, first, spell, x);
    MembersHead(keys', fields', first, spell, y);
    if keys == [] {
      SameStart("}", x, y);
    } else {
      var k, l, rest, rest' := keys[0], keys'[0], keys[1..], keys'[1..];
      var more, more' := MembersText(rest, fields, false, spell) + x, MembersText(rest', fields', false, spell) + y;
      MembersUnfold(keys, fields, first, spell, x);
      MembersUnfold(keys', fields', first, spell, y);
      FirstMember(Comma(first), k, l, fields[k].s, fields'[l], spell, more, more');
      MembersAreSeparable(rest, fields, rest', fields', false, spell, x, y);
      assert keys == [k] + rest && keys' == [l] + rest';
    }
  }

  /**
   * The canonical text of an action whose arguments are all strings is the text of no other
   * action, whatever the arguments of that one are.
   */
  lemma TextIdentifiesAction(a: Action, b: Action, spell: Speller)
    requires TextArguments(a.arguments)
    ensures ActionText(a, spell) == ActionText(b, spell) <==> a == b
  {
    if ActionText(a, spell) == ActionText(b, spell) {
      var keys, keys' := InOrder(a.arguments.Keys), InOrder(b.arguments.Keys);
      var x, y := BETWEEN + (Quoted(a.tool) + "}"), BETWEEN + (Quoted(b.tool) + "}");
      ActionUnfold(a, spell);
      ActionUnfold(b, spell);
      SameStart(OPENING, MembersText(keys, a.arguments, true, spell) + x,
                MembersText(keys', b.arguments, true, spell) + y);
      MembersAreSeparable(keys, a.arguments, keys', b.arguments, true, spell, x, y);
      SameStart(BETWEEN, Quoted(a.tool) + "}", Quoted(b.tool) + "}");
      QuotedIsSeparable(a.tool, b.tool, "}", "}");
      assert forall k :: k in a.arguments <==> k in keys;
      assert forall k :: k in b.arguments <==> k in keys';
      assert a.arguments == b.arguments;
    }
  }

  lemma ActionUnfold(a: Action, spell: Speller)
    ensures ActionText(a, spell) ==
      OPENING + (MembersText(InOrder(a.arguments.Keys), a.arguments, true, spell) + (BETWEEN + (Quoted(a.tool) + "}")))
  {
    var m, q := MembersText(InOrder(a.arguments.Keys), a.arguments, true, spell), Quoted(a.tool);
    assert OPENING + m + BETWEEN + q + "}" == OPENING + (m + (BETWEEN + (q + "}")));
  }
}
