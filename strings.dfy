/** The part of Go's `strings` package the registry code relies on. */
module Strings {

  /**
   * `strings.LastIndex(s, sep)` for a one-character separator: the index of the
   * last occurrence of `c` in `s`, or -1 when `c` does not occur.
   */
  function LastIndex(s: string, c: char): (r: int)
    ensures -1 <= r < |s|
    ensures 0 <= r ==> s[r] == c
    ensures forall j :: r < j < |s| ==> s[j] != c
  {
    if |s| == 0 then -1
    else if s[|s| - 1] == c then |s| - 1
    else LastIndex(s[..|s| - 1], c)
  }

  /** -1 is returned exactly when the character does not occur. */
  lemma LastIndexAbsent(s: string, c: char)
    ensures LastIndex(s, c) == -1 <==> c !in s
  {
  }

  /** The separator found is the one right after `prefix` whenever `suffix` does not contain it. */
  lemma {:induction false} LastIndexOfJoin(prefix: string, c: char, suffix: string)
    requires c !in suffix
    ensures LastIndex(prefix + [c] + suffix, c) == |prefix|
  {
    var s := prefix + [c] + suffix;
    assert s[|prefix|] == c;
    assert forall j :: |prefix| < j < |s| ==> s[j] == suffix[j - |prefix| - 1];
  }
}
