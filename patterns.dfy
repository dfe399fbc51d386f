/**
 * The header and query-parameter checks: every entry of a map from key to
 * regular expression must match the request's value for that key, an absent
 * value being looked up as "". A nil map passes.
 */
module Patterns {
  import opened Wrappers
  import opened Http

  /** Every pattern compiles, so that `regexp.MustCompile` does not panic. */
  predicate AllCompile(patterns: Option<map<string, string>>, regex: Regex)
  {
    patterns.Some? ==> forall k :: k in patterns.value ==> regex.compiles(patterns.value[k])
  }

  /** The check the loop computes, stated as a conjunction over the keys. */
  predicate AllMatch(patterns: Option<map<string, string>>, values: map<string, string>, regex: Regex)
  {
    patterns.None? ||
    forall k :: k in patterns.value ==> regex.matchString(patterns.value[k], Lookup(values, k))
  }

  /**
   * The loop of `doHeadersMatch` and `doQueryParametersMatch`: visit the
   * keys in some order (Go's map order is unspecified) and stop at the first
   * pattern that does not match.
   */
  method MatchAll(patterns: Option<map<string, string>>, values: map<string, string>, regex: Regex)
    returns (ok: bool)
    requires AllCompile(patterns, regex)
    ensures ok <==> AllMatch(patterns, values, regex)
  {
    if patterns.Some? {
      var m := patterns.value;
      var remaining := m.Keys;
      while remaining != {}
        invariant remaining <= m.Keys
        invariant forall k :: k in m && k !in remaining ==> regex.matchString(m[k], Lookup(values, k))
        decreases remaining
      {
        var k :| k in remaining;
        var value := Lookup(values, k);
        if !regex.matchString(m[k], value) {
          return false;
        }
        remaining := remaining - {k};
      }
    }
    return true;
  }

  /** A key the request lacks is checked against "": such a rule passes only if its pattern matches "". */
  lemma AbsentValueIsEmpty(patterns: map<string, string>, values: map<string, string>, regex: Regex, k: string)
    requires k in patterns && k !in values
    ensures AllMatch(Some(patterns), values, regex) ==> regex.matchString(patterns[k], "")
  {
  }
}
