/**
 * Route registration: each distinct URI of the rule list is handed to the
 * `ServeMux` once, in the order of its first occurrence (a second
 * registration of the same pattern would make `HandleFunc` panic).
 */
module Routes {

  /** The distinct elements of `s`, in the order of their first occurrence. */
  function Distinct(s: seq<string>): (d: seq<string>)
    ensures forall x :: x in d <==> x in s
    ensures forall i, j :: 0 <= i < j < |d| ==> d[i] != d[j]
    decreases |s|
  {
    if s == [] then []
    else
      var prefix := Distinct(s[..|s| - 1]);
      var last := s[|s| - 1];
      assert s == s[..|s| - 1] + [last];
      if last in prefix then prefix else prefix + [last]
  }

  /** The index of the first occurrence of `x` in `s`. */
  function IndexOf(s: seq<string>, x: string): (i: nat)
    requires x in s
    ensures i < |s| && s[i] == x
    ensures forall j :: 0 <= j < i ==> s[j] != x
  {
    if s[0] == x then 0 else 1 + IndexOf(s[1..], x)
  }

  lemma {:induction false} IndexOfExtended(s: seq<string>, x: string, y: string)
    requires y in s
    ensures IndexOf(s + [x], y) == IndexOf(s, y)
  {
    if s[0] != y {
      assert (s + [x])[1..] == s[1..] + [x];
      IndexOfExtended(s[1..], x, y);
    }
  }

  /** The registered URIs appear in the order in which they first occur in the rule list. */
  lemma {:induction false} DistinctKeepsFirstOccurrenceOrder(s: seq<string>)
    ensures forall i, j :: 0 <= i < j < |Distinct(s)| ==> IndexOf(s, Distinct(s)[i]) < IndexOf(s, Distinct(s)[j])
  {
    if s != [] {
      var p, last := s[..|s| - 1], s[|s| - 1];
      assert s == p + [last];
      var d := Distinct(s);
      DistinctKeepsFirstOccurrenceOrder(p);
      forall x | x in p
        ensures IndexOf(s, x) == IndexOf(p, x)
      {
        IndexOfExtended(p, last, x);
      }
      if last !in p {
        assert IndexOf(s, last) == |p|;
      }
    }
  }

  /**
   * The registration loop of `NewMockServer` and `NewMockHttpServer`: for
   * each URI, scan what is registered so far with an `alreadyRegistered`
   * flag and append the URI if it is new.
   */
  method RegisterUris(uris: seq<string>) returns (registered: seq<string>)
    ensures registered == Distinct(uris)
  {
    registered := [];
    for i := 0 to |uris|
      invariant registered == Distinct(uris[..i])
    {
      var alreadyRegistered := false;
      for j := 0 to |registered|
        invariant alreadyRegistered <==> uris[i] in registered[..j]
      {
        if registered[j] == uris[i] {
          alreadyRegistered := true;
        }
      }
      assert registered[..|registered|] == registered;
      assert uris[..i + 1][..i] == uris[..i];
      if !alreadyRegistered {
        registered := registered + [uris[i]];
      }
    }
    assert uris[..|uris|] == uris;
  }
}
