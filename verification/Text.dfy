/** Python's `part in s` on strings. */
module Text {

  predicate OccursAt(s: string, part: string, i: nat) {
    i + |part| <= |s| && s[i..i + |part|] == part
  }

  predicate Contains(s: string, part: string) {
    exists i: nat | i <= |s| :: OccursAt(s, part, i)
  }

  /** Written out: something before it and something after it make up the whole. */
  lemma ContainsIff(s: string, part: string)
    ensures Contains(s, part) <==> exists before, after :: s == before + (part + after)
  {
    if i: nat :| i <= |s| && OccursAt(s, part, i) {
      assert s == s[..i] + (part + s[i + |part|..]);
    }
    if before, after :| s == before + (part + after) {
      assert s[|before|..|before| + |part|] == part;
      assert OccursAt(s, part, |before|);
    }
  }
}
