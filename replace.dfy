/** `s.replace(re, …)` for a global regex `re` that never matches the empty
    string: the regex is tried at each position from the left; a match is
    replaced and the scan goes on after it, otherwise the character is kept.
    A regex is given by its sticky matcher: what it matches at the very start
    of a string (its length) and what that match is replaced by. */
module GlobalReplace {
  import opened Wrappers

  /** A match at the start of a string: its length and its replacement. */
  datatype Hit = Hit(length: nat, replacement: string)

  /** The matcher matches at the start of `s`, with a non-empty match inside `s`. */
  predicate HitsAt(at: string -> Option<Hit>, s: string) {
    at(s).Some? && 0 < at(s).value.length <= |s|
  }

  /** `s.replace(re, …)` with the `g` flag. */
  function ReplaceAll(s: string, at: string -> Option<Hit>): string
    decreases |s|
  {
    if s == [] then []
    else if HitsAt(at, s) then at(s).value.replacement + ReplaceAll(s[at(s).value.length..], at)
    else [s[0]] + ReplaceAll(s[1..], at)
  }

  /** A string in which the regex matches nowhere is left unchanged. */
  lemma {:induction false} ReplaceAllNoHit(s: string, at: string -> Option<Hit>)
    requires forall i :: 0 <= i < |s| ==> !HitsAt(at, s[i..])
    ensures ReplaceAll(s, at) == s
    decreases |s|
  {
    if s != [] {
      assert s[0..] == s;
      forall i | 0 <= i < |s[1..]|
        ensures !HitsAt(at, s[1..][i..])
      {
        assert s[1..][i..] == s[i + 1..];
      }
      ReplaceAllNoHit(s[1..], at);
    }
  }

  /** A match of `m` at the start is replaced, and the scan resumes after it. */
  lemma ReplaceAllHit(m: string, rest: string, at: string -> Option<Hit>, replacement: string)
    requires m != [] && at(m + rest) == Some(Hit(|m|, replacement))
    ensures ReplaceAll(m + rest, at) == replacement + ReplaceAll(rest, at)
  {
    assert (m + rest)[|m|..] == rest;
  }

  /** Where the regex does not match at the start, the first character is kept. */
  lemma ReplaceAllKeep(c: char, rest: string, at: string -> Option<Hit>)
    requires !HitsAt(at, [c] + rest)
    ensures ReplaceAll([c] + rest, at) == [c] + ReplaceAll(rest, at)
  {
    assert ([c] + rest)[1..] == rest;
  }

  /** A regex whose every replacement is no longer than its match never
      lengthens the string. */
  lemma {:induction false} ReplaceAllShrinks(s: string, at: string -> Option<Hit>)
    requires forall t :: HitsAt(at, t) ==> |at(t).value.replacement| <= at(t).value.length
    ensures |ReplaceAll(s, at)| <= |s|
    decreases |s|
  {
    if s != [] {
      if HitsAt(at, s) {
        ReplaceAllShrinks(s[at(s).value.length..], at);
      } else {
        ReplaceAllShrinks(s[1..], at);
      }
    }
  }
}
