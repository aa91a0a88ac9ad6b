/** Small shared vocabulary: an optional value and predicates about sequences
    that stand for the unspecified iteration order of a hash container. */
module Common {

  /** A value that may be absent; stands for a nullable pointer. */
  datatype Option<+T> = None | Some(value: T)

  /** No element occurs twice in `s`. */
  ghost predicate Distinct<T>(s: seq<T>) {
    forall i, j :: 0 <= i < j < |s| ==> s[i] != s[j]
  }

  /** `s` lists every element of `S` exactly once, in some order: one possible
      iteration order of a hash container whose keys are `S`. */
  ghost predicate Enumerates<T>(s: seq<T>, S: set<T>) {
    && Distinct(s)
    && (forall x :: x in s ==> x in S)
    && (forall x :: x in S ==> x in s)
  }

  /** The numbers of `S` below `n`, in increasing order. */
  function Below(n: nat, S: set<nat>): (s: seq<nat>)
    ensures forall x :: x in s <==> x in S && x < n
    ensures forall i, j :: 0 <= i < j < |s| ==> s[i] < s[j]
    ensures Distinct(s)
  {
    if n == 0 then []
    else
      var prefix := Below(n - 1, S);
      forall i | 0 <= i < |prefix|
        ensures prefix[i] < n - 1
      {
        assert prefix[i] in prefix;
      }
      if n - 1 in S then prefix + [n - 1] else prefix
  }

  /** Every element of `s` once, in order of first occurrence. */
  function FirstOccurrences(s: seq<nat>): (r: seq<nat>)
    ensures Distinct(r)
    ensures forall x :: x in r <==> x in s
  {
    if s == [] then []
    else
      var prefix := FirstOccurrences(s[..|s| - 1]);
      var x := s[|s| - 1];
      if x in prefix then prefix else prefix + [x]
  }
}
