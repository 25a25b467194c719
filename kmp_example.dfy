/** The `kmp_search` test of run_examples.py, line 82. */
module KmpExample {
  import opened Kmp

  /** A single disagreeing character rules out an occurrence. */
  lemma Mismatch(t: string, p: string, s: int, k: int)
    requires 0 <= k < |p| && 0 <= s && s + k < |t| && t[s + k] != p[k]
    ensures !MatchAt(t, p, s)
  {
  }

  /** The pattern first occurs in the text at position 10. */
  lemma FirstAtTen(t: string, p: string)
    requires t == "ABABDABACDABABCABAB" && p == "ABABCABAB"
    ensures MatchAt(t, p, 10) && NoMatchBefore(t, p, 10)
  {
    assert t[10..] == p;
    forall s | 0 <= s < 10 ensures !MatchAt(t, p, s) {
      var k := if s == 0 then 4 else if s == 2 then 2 else if s == 5 then 3 else if s == 7 then 1 else 0;
      Mismatch(t, p, s, k);
    }
  }

  /** `kmp_search("ABABDABACDABABCABAB", "ABABCABAB")` is 10. */
  method Example() returns (r: int)
    ensures r == 10
  {
    var t, p := "ABABDABACDABABCABAB", "ABABCABAB";
    r := KmpSearch(t, p);
    FirstAtTen(t, p);
  }
}
