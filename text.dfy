/** String helpers shared by the display splitters and the two scraping routes.
    They model the JavaScript built-ins the source calls (`trim`, `indexOf`,
    `join`, the `\s` class, case-insensitive regex matching), on `seq<char>`. */
module Text {

  /** The characters JavaScript treats as white space: the `\s` regex class and
      what `String.prototype.trim` removes (white space plus line terminators). */
  predicate IsSpace(c: char) {
    || c == ' ' || c == '\t' || c == '\n' || c == '\r' || c == '\U{000B}' || c == '\U{000C}'
    || c == '\U{00A0}' || c == '\U{1680}'
    || c == '\U{2000}' || c == '\U{2001}' || c == '\U{2002}' || c == '\U{2003}' || c == '\U{2004}'
    || c == '\U{2005}' || c == '\U{2006}' || c == '\U{2007}' || c == '\U{2008}' || c == '\U{2009}' || c == '\U{200A}'
    || c == '\U{2028}' || c == '\U{2029}' || c == '\U{202F}' || c == '\U{205F}'
    || c == '\U{3000}' || c == '\U{FEFF}'
  }

  /** The characters the regex `.` does not match. */
  predicate IsLineTerminator(c: char) {
    c == '\n' || c == '\r' || c == '\U{2028}' || c == '\U{2029}'
  }

  predicate IsDigit(c: char) {
    '0' <= c <= '9'
  }

  /** `s.trimStart()`: drops the leading white-space run and nothing else. */
  function TrimStart(s: string): (r: string)
    ensures |r| <= |s|
    ensures r == [] || !IsSpace(r[0])
  {
    if |s| > 0 && IsSpace(s[0]) then TrimStart(s[1..]) else s
  }

  /** `trimStart` drops a prefix, and that prefix is white space. */
  lemma {:induction false} TrimStartDropsSpace(s: string)
    ensures s == s[..|s| - |TrimStart(s)|] + TrimStart(s)
    ensures forall i :: 0 <= i < |s| - |TrimStart(s)| ==> IsSpace(s[i])
  {
    var t := TrimStart(s);
    if |s| > 0 && IsSpace(s[0]) {
      var tail := s[1..];
      TrimStartDropsSpace(tail);
      assert t == TrimStart(tail);
      var k := |tail| - |t|;
      assert tail == tail[..k] + t;
      assert s[..k + 1] == [s[0]] + tail[..k];
      assert s == [s[0]] + tail;
    } else {
      assert s[..0] == [];
    }
  }

  /** `s.trimEnd()`: drops the trailing white-space run and nothing else. */
  function TrimEnd(s: string): (r: string)
    ensures |r| <= |s|
    ensures r == [] || !IsSpace(r[|r| - 1])
    ensures r != [] ==> r[0] == s[0]
  {
    if |s| > 0 && IsSpace(s[|s| - 1]) then TrimEnd(s[..|s| - 1]) else s
  }

  /** `trimEnd` keeps a prefix, and what it drops after it is white space. */
  lemma {:induction false} TrimEndDropsSpace(s: string)
    ensures s == TrimEnd(s) + s[|TrimEnd(s)|..]
    ensures forall i :: |TrimEnd(s)| <= i < |s| ==> IsSpace(s[i])
  {
    if |s| > 0 && IsSpace(s[|s| - 1]) {
      TrimEndDropsSpace(s[..|s| - 1]);
      assert s == s[..|s| - 1] + [s[|s| - 1]];
    }
  }

  /** `s.trim()` */
  function Trim(s: string): (r: string)
    ensures |r| <= |s|
    ensures r == [] || (!IsSpace(r[0]) && !IsSpace(r[|r| - 1]))
  {
    TrimEnd(TrimStart(s))
  }

  /** `s.trim()` is the piece of `s` that starts at index `d`. */
  lemma TrimInside(s: string) returns (d: nat)
    ensures d + |Trim(s)| <= |s|
    ensures forall i :: 0 <= i < |Trim(s)| ==> Trim(s)[i] == s[d + i]
  {
    var t := TrimStart(s);
    var u := TrimEnd(t);
    TrimStartDropsSpace(s);
    TrimEndDropsSpace(t);
    d := |s| - |t|;
    forall i | 0 <= i < |u|
      ensures u[i] == s[d + i]
    {
      assert s[d + i] == (s[..d] + t)[d + i] == t[i];
      assert t[i] == (u + t[|u|..])[i] == u[i];
    }
  }

  /** Trimming a suffix of `h` gives a piece of `h`. */
  lemma TrimOfSuffix(h: string, x: string) returns (d: nat)
    requires |x| <= |h| && x == h[|h| - |x|..]
    ensures d + |Trim(x)| <= |h|
    ensures Trim(x) == h[d..d + |Trim(x)|]
  {
    var r := Trim(x);
    var e := TrimInside(x);
    d := |h| - |x| + e;
    assert r == x[e..e + |r|];
  }

  /** Trimming is the identity on a string with no white space at either end. */
  lemma TrimNoop(s: string)
    requires s == [] || (!IsSpace(s[0]) && !IsSpace(s[|s| - 1]))
    ensures Trim(s) == s
  {
  }

  /** A trailing white-space run after text that ends in a non-space character
      is exactly what `trimEnd` removes. */
  lemma {:induction false} TrimEndSpaces(b: string, w: string)
    requires b == [] || !IsSpace(b[|b| - 1])
    requires forall i :: 0 <= i < |w| ==> IsSpace(w[i])
    ensures TrimEnd(b + w) == b
  {
    if w != [] {
      var k := |w| - 1;
      assert (b + w)[|b + w| - 1] == w[k] && (b + w)[..|b + w| - 1] == b + w[..k];
      TrimEndSpaces(b, w[..k]);
    } else {
      assert b + w == b;
    }
  }

  /** `trim` removes exactly the white space around a word. */
  lemma TrimPadded(u: string, x: string, v: string)
    requires forall i :: 0 <= i < |u| ==> IsSpace(u[i])
    requires x != [] && !IsSpace(x[0]) && !IsSpace(x[|x| - 1])
    requires forall i :: 0 <= i < |v| ==> IsSpace(v[i])
    ensures Trim(u + x + v) == x
  {
    assert u + x + v == u + (x + v);
    TrimStartSpaces(u, x + v);
    TrimEndSpaces(x, v);
  }

  /** Trimming keeps every character that is not white space. */
  lemma TrimKeepsText(s: string)
    ensures NonSpace(Trim(s)) == NonSpace(s)
  {
    TrimStartKeepsText(s);
    TrimEndKeepsText(TrimStart(s));
  }

  lemma TrimStartKeepsText(s: string)
    ensures NonSpace(TrimStart(s)) == NonSpace(s)
  {
    var t := TrimStart(s);
    var k := |s| - |t|;
    TrimStartDropsSpace(s);
    NonSpaceAppend(s[..k], t);
    AllSpace(s[..k]);
  }

  lemma TrimEndKeepsText(t: string)
    ensures NonSpace(TrimEnd(t)) == NonSpace(t)
  {
    var e := TrimEnd(t);
    TrimEndDropsSpace(t);
    NonSpaceAppend(e, t[|e|..]);
    AllSpace(t[|e|..]);
  }

  /** A string with no white space at either end. */
  predicate Trimmed(s: string) {
    s == [] || (!IsSpace(s[0]) && !IsSpace(s[|s| - 1]))
  }

  /** Trimming never touches a last character that is not white space. */
  lemma TrimKeepsLast(s: string)
    requires s != [] && !IsSpace(s[|s| - 1])
    ensures Trim(s) != [] && Trim(s)[|Trim(s)| - 1] == s[|s| - 1]
  {
    TrimStartKeepsLast(s);
  }

  lemma {:induction false} TrimStartKeepsLast(s: string)
    requires s != [] && !IsSpace(s[|s| - 1])
    ensures TrimStart(s) != [] && TrimStart(s)[|TrimStart(s)| - 1] == s[|s| - 1]
  {
    if IsSpace(s[0]) {
      TrimStartKeepsLast(s[1..]);
    }
  }

  /** Cutting at a ". " and trimming both sides loses only white space: the
      characters that are not white space are those of the two trimmed pieces. */
  lemma CutKeepsText(s: string, k: int)
    requires SentenceEndAt(s, k)
    ensures Trim(s[..k + 1]) != [] && Trim(s[..k + 1])[|Trim(s[..k + 1])| - 1] == '.'
    ensures NonSpace(s) == NonSpace(Trim(s[..k + 1])) + NonSpace(Trim(s[k + 2..]))
  {
    TrimKeepsLast(s[..k + 1]);
    assert s == s[..k + 1] + ([s[k + 1]] + s[k + 2..]);
    NonSpaceAppend(s[..k + 1], [s[k + 1]] + s[k + 2..]);
    NonSpaceAppend([s[k + 1]], s[k + 2..]);
    TrimKeepsText(s[..k + 1]);
    TrimKeepsText(s[k + 2..]);
  }

  /** A non-empty string starting with a non-space character keeps some text. */
  lemma NonSpaceStart(p: string, x: string)
    requires p != [] && !IsSpace(p[0])
    ensures NonSpace(p + x) != []
  {
    assert (p + x)[0] == p[0];
  }

  /** The characters of `s` that are not white space, in order. */
  function NonSpace(s: string): (r: string)
    ensures |r| <= |s|
  {
    if s == [] then []
    else if IsSpace(s[0]) then NonSpace(s[1..])
    else [s[0]] + NonSpace(s[1..])
  }

  lemma {:induction false} NonSpaceAppend(a: string, b: string)
    ensures NonSpace(a + b) == NonSpace(a) + NonSpace(b)
  {
    if a != [] {
      assert (a + b)[0] == a[0] && (a + b)[1..] == a[1..] + b;
      NonSpaceAppend(a[1..], b);
    } else {
      assert a + b == b;
    }
  }

  lemma {:induction false} AllSpace(s: string)
    requires forall i :: 0 <= i < |s| ==> IsSpace(s[i])
    ensures NonSpace(s) == []
  {
    if s != [] {
      AllSpace(s[1..]);
    }
  }

  /** The concatenation of a list of strings (`parts.join('')`). */
  function Concat(parts: seq<string>): string {
    if parts == [] then [] else parts[0] + Concat(parts[1..])
  }

  lemma ConcatSingle(p: string)
    ensures Concat([p]) == p
  {
    assert [p][1..] == [];
  }

  lemma {:induction false} ConcatAppend(a: seq<string>, b: seq<string>)
    ensures Concat(a + b) == Concat(a) + Concat(b)
  {
    if a != [] {
      assert (a + b)[0] == a[0] && (a + b)[1..] == a[1..] + b;
      ConcatAppend(a[1..], b);
    } else {
      assert a + b == b;
    }
  }

  /** `xs.map(f).join('')`, built from the left as a loop appending `f(x)` would. */
  function ConcatMap<T>(f: T -> string, xs: seq<T>): string {
    if xs == [] then [] else ConcatMap(f, xs[..|xs| - 1]) + f(xs[|xs| - 1])
  }

  lemma {:induction false} ConcatMapAppend<T>(f: T -> string, a: seq<T>, b: seq<T>)
    decreases |b|
    ensures ConcatMap(f, a + b) == ConcatMap(f, a) + ConcatMap(f, b)
  {
    var ab := a + b;
    if b == [] {
      assert ab == a;
    } else {
      var b' := b[..|b| - 1];
      assert ab[..|ab| - 1] == a + b';
      assert ab[|ab| - 1] == b[|b| - 1];
      ConcatMapAppend(f, a, b');
    }
  }

  /** `parts.join(sep)` */
  function Join(parts: seq<string>, sep: string): (r: string)
    ensures parts == [] ==> r == []
    ensures |parts| == 1 ==> r == parts[0]
  {
    if parts == [] then []
    else if |parts| == 1 then parts[0]
    else parts[0] + sep + Join(parts[1..], sep)
  }

  /** `pat` occurs in `s` starting at index `k`. */
  predicate OccursAt(s: string, pat: string, k: int) {
    0 <= k && k + |pat| <= |s| && s[k..k + |pat|] == pat
  }

  /** `s.indexOf(pat, from)`: the first occurrence at or after `from`, or -1. */
  function IndexOf(s: string, pat: string, from: nat): (r: int)
    decreases |s| - from
    ensures r == -1 || (from <= r && OccursAt(s, pat, r))
  {
    if from + |pat| > |s| then -1
    else if s[from..from + |pat|] == pat then from
    else IndexOf(s, pat, from + 1)
  }

  /** `indexOf` finds the first occurrence at or after `from`, and -1 means there is none. */
  lemma {:induction false} IndexOfFirst(s: string, pat: string, from: nat)
    decreases |s| - from
    ensures var r := IndexOf(s, pat, from);
      && (r == -1 ==> forall k :: from <= k ==> !OccursAt(s, pat, k))
      && (r != -1 ==> forall k :: from <= k < r ==> !OccursAt(s, pat, k))
  {
    if from + |pat| <= |s| && s[from..from + |pat|] != pat {
      IndexOfFirst(s, pat, from + 1);
    }
  }

  /** Conversely, the first occurrence at or after `from` is what `indexOf` finds. */
  lemma IndexOfFinds(s: string, pat: string, from: nat, k: int)
    requires from <= k && OccursAt(s, pat, k)
    requires forall j :: from <= j < k ==> !OccursAt(s, pat, j)
    ensures IndexOf(s, pat, from) == k
  {
    IndexOfFirst(s, pat, from);
  }

  /** A sentence end, ". ", starts at index `k`. */
  predicate SentenceEndAt(s: string, k: int) {
    0 <= k && k + 1 < |s| && s[k] == '.' && s[k + 1] == ' '
  }

  /** `s.indexOf('. ', from)` */
  function IndexOfSentenceEnd(s: string, from: nat): (r: int)
    decreases |s| - from
    ensures r == -1 || (from <= r && SentenceEndAt(s, r))
  {
    if from + 1 >= |s| then -1
    else if s[from] == '.' && s[from + 1] == ' ' then from
    else IndexOfSentenceEnd(s, from + 1)
  }

  /** `indexOf('. ', from)` finds the first sentence end at or after `from`. */
  lemma {:induction false} IndexOfSentenceEndFirst(s: string, from: nat)
    decreases |s| - from
    ensures var r := IndexOfSentenceEnd(s, from);
      && (r == -1 ==> forall k :: from <= k ==> !SentenceEndAt(s, k))
      && (r != -1 ==> forall k :: from <= k < r ==> !SentenceEndAt(s, k))
  {
    if from + 1 < |s| && !(s[from] == '.' && s[from + 1] == ' ') {
      IndexOfSentenceEndFirst(s, from + 1);
    }
  }

  /** `s.indexOf(c, from)` for a single character `c`. */
  function IndexOfChar(s: string, c: char, from: nat): (r: int)
    decreases |s| - from
    ensures r == -1 || (from <= r < |s| && s[r] == c)
  {
    if from >= |s| then -1
    else if s[from] == c then from
    else IndexOfChar(s, c, from + 1)
  }

  /** `indexOf(c, from)` finds the first `c` at or after `from`. */
  lemma {:induction false} IndexOfCharFirst(s: string, c: char, from: nat)
    decreases |s| - from
    ensures var r := IndexOfChar(s, c, from);
      && (r == -1 ==> forall k :: from <= k < |s| ==> s[k] != c)
      && (r != -1 ==> forall k :: from <= k < r ==> s[k] != c)
  {
    if from < |s| && s[from] != c {
      IndexOfCharFirst(s, c, from + 1);
    }
  }

  /** Conversely, the first `c` at or after `from` is what `indexOf` finds. */
  lemma {:induction false} IndexOfCharFinds(s: string, c: char, from: nat, k: nat)
    requires from <= k < |s| && s[k] == c
    requires forall j :: from <= j < k ==> s[j] != c
    ensures IndexOfChar(s, c, from) == k
    decreases k - from
  {
    if from < k {
      IndexOfCharFinds(s, c, from + 1, k);
    }
  }

  /** A `c` found in `a` is found at the same place in `a + b`. */
  lemma {:induction false} IndexOfCharAppend(a: string, b: string, c: char, from: nat)
    requires IndexOfChar(a, c, from) != -1
    ensures IndexOfChar(a + b, c, from) == IndexOfChar(a, c, from)
    decreases |a| - from
  {
    assert (a + b)[from] == a[from];
    if a[from] != c {
      IndexOfCharAppend(a, b, c, from + 1);
    }
  }

  /** `s.includes(pat)` */
  predicate Contains(s: string, pat: string) {
    IndexOf(s, pat, 0) != -1
  }

  /** ASCII upper case to lower case; every other character is kept. */
  function LowerAscii(c: char): (r: char)
    ensures 'A' <= c <= 'Z' ==> r as int == c as int + 32
    ensures !('A' <= c <= 'Z') ==> r == c
  {
    if 'A' <= c <= 'Z' then (c as int + 32) as char else c
  }

  /** The canonical form the regex engine compares under the `i` flag (no `u` flag):
      a character maps to its upper case, except that a character at or above U+0080
      whose upper case is ASCII keeps itself. Given for ASCII letters and for the
      Turkish letters whose case pair lies above U+0080 (ç ğ ö ş ü); dotless `ı`
      keeps itself by that exception. It is exact for comparisons against the
      patterns of this model, whose letters are all of these. */
  function Canon(c: char): char {
    if 'a' <= c <= 'z' then (c as int - 32) as char
    else if c == 'ç' then 'Ç'
    else if c == 'ğ' then 'Ğ'
    else if c == 'ö' then 'Ö'
    else if c == 'ş' then 'Ş'
    else if c == 'ü' then 'Ü'
    else c
  }

  /** `s` starts with `pat`, compared case-insensitively as a `/…/i` regex does. */
  predicate StartsWithI(s: string, pat: string) {
    |pat| <= |s| && forall i :: 0 <= i < |pat| ==> Canon(s[i]) == Canon(pat[i])
  }

  /** `pat` occurs at index `i` of `s`, compared case-insensitively as a `/…/i` regex does. */
  predicate OccursAtI(s: string, i: int, pat: string) {
    0 <= i && i + |pat| <= |s| && forall k :: i <= k < i + |pat| ==> Canon(s[k]) == Canon(pat[k - i])
  }

  /** A case-insensitive occurrence fixes each character up to case. */
  lemma OccursAtIChar(s: string, i: int, pat: string, j: int)
    requires OccursAtI(s, i, pat) && 0 <= j < |pat|
    ensures Canon(s[i + j]) == Canon(pat[j])
  {
  }

  /** An occurrence inside `a` is an occurrence inside `a + b`. */
  lemma OccursAtIAppend(a: string, b: string, i: int, pat: string)
    requires OccursAtI(a, i, pat)
    ensures OccursAtI(a + b, i, pat)
  {
    forall j | 0 <= j < |pat|
      ensures Canon((a + b)[i + j]) == Canon(pat[j])
    {
      assert (a + b)[i + j] == a[i + j];
    }
  }

  /** The length of the white-space run starting at index `i` (what `\s*` consumes there). */
  function SpaceRun(s: string, i: nat): (n: nat)
    decreases |s| - i
    ensures i + n <= |s| || n == 0
    ensures forall j :: i <= j < i + n ==> IsSpace(s[j])
    ensures i + n < |s| ==> !IsSpace(s[i + n])
  {
    if i < |s| && IsSpace(s[i]) then 1 + SpaceRun(s, i + 1) else 0
  }

  /** A white-space run that ends inside `a` is the same run in `a + b`. */
  lemma {:induction false} SpaceRunAppend(a: string, b: string, i: nat)
    requires i + SpaceRun(a, i) < |a|
    decreases |a| - i
    ensures SpaceRun(a + b, i) == SpaceRun(a, i)
  {
    assert (a + b)[i] == a[i];
    if IsSpace(a[i]) {
      SpaceRunAppend(a, b, i + 1);
    }
  }

  /** A white-space run of length `n` at `i`, ended by a non-space or the end. */
  lemma {:induction false} SpaceRunExact(s: string, i: nat, n: nat)
    requires i + n <= |s|
    requires forall k :: i <= k < i + n ==> IsSpace(s[k])
    requires i + n == |s| || !IsSpace(s[i + n])
    ensures SpaceRun(s, i) == n
    decreases n
  {
    if n > 0 {
      SpaceRunExact(s, i + 1, n - 1);
    }
  }

  /** Case-insensitive occurrences do not depend on what precedes them. */
  lemma OccursAtIShift(x: string, t: string, j: int, pat: string)
    requires 0 <= j
    ensures OccursAtI(x + t, |x| + j, pat) <==> OccursAtI(t, j, pat)
  {
    if OccursAtI(t, j, pat) {
      forall k | 0 <= k < |pat|
        ensures Canon((x + t)[|x| + j + k]) == Canon(pat[k])
      {
        assert (x + t)[|x| + j + k] == t[j + k];
      }
    }
    if OccursAtI(x + t, |x| + j, pat) {
      forall k | 0 <= k < |pat|
        ensures Canon(t[j + k]) == Canon(pat[k])
      {
        assert (x + t)[|x| + j + k] == t[j + k];
      }
    }
  }

  /** A pattern occurs where it is written. */
  lemma OccursAtIMid(x: string, pat: string, t: string)
    ensures OccursAtI(x + pat + t, |x|, pat)
  {
    forall k | 0 <= k < |pat|
      ensures Canon((x + pat + t)[|x| + k]) == Canon(pat[k])
    {
      assert (x + pat + t)[|x| + k] == pat[k];
    }
  }

  /** An occurrence that ends inside `x` does not depend on what follows `x`. */
  lemma OccursAtIPrefix(x: string, t: string, i: nat, pat: string)
    requires i + |pat| <= |x|
    ensures OccursAtI(x + t, i, pat) <==> OccursAtI(x, i, pat)
  {
    if OccursAtI(x + t, i, pat) {
      forall k | i <= k < i + |pat|
        ensures Canon(x[k]) == Canon(pat[k - i])
      {
        assert (x + t)[k] == x[k];
      }
    }
    if OccursAtI(x, i, pat) {
      OccursAtIAppend(x, t, i, pat);
    }
  }

  /** The first part of a three-part concatenation is its prefix. */
  lemma PrefixOfAppend(x: string, y: string, z: string)
    ensures (x + y + z)[..|x|] == x
  {
  }

  /** Concatenation regroups freely. */
  lemma AppendAssoc<T>(a: seq<T>, b: seq<T>, c: seq<T>)
    ensures a + (b + c) == (a + b) + c
  {
  }

  lemma EmptyAppend<T>(a: seq<T>)
    ensures [] + a == a
  {
  }

  lemma AppendEmpty<T>(a: seq<T>)
    ensures a + [] == a
  {
  }

  /** Two adjacent slices make the slice that spans both. */
  lemma SliceJoin<T>(s: seq<T>, i: nat, j: nat, k: nat)
    requires i <= j <= k <= |s|
    ensures s[i..j] + s[j..k] == s[i..k]
  {
  }

  /** A sequence is its three slices around two cut points. */
  lemma SplitThree<T>(s: seq<T>, i: nat, j: nat)
    requires i <= j <= |s|
    ensures s == s[..i] + s[i..j] + s[j..]
  {
  }

  /** Cutting the middle part out of a three-part concatenation leaves the
      other two. */
  lemma SuffixOfDrop<T>(s: seq<T>, n: nat, k: nat)
    requires n <= |s| && k <= |s| - n
    ensures s[n..][|s| - n - k..] == s[|s| - k..]
  {
  }

  lemma JoinTail<T>(x: seq<T>, a: seq<T>, b: seq<T>, c: seq<T>, d: seq<T>)
    ensures x + a + b + c + d == x + (a + b + c + d)
  {
  }

  lemma CutMiddle<T>(x: seq<T>, y: seq<T>, z: seq<T>)
    ensures (x + y + z)[..|x|] + (x + y + z)[|x| + |y|..] == x + z
  {
    assert (x + y + z)[..|x|] == x;
    assert (x + y + z)[|x| + |y|..] == z;
  }

  /** The second part of a four-part concatenation is its slice. */
  lemma MiddleOfAppend(x: string, y: string, z: string, w: string)
    ensures |x| + |y| <= |x + y + z + w| && (x + y + z + w)[|x|..|x| + |y|] == y
  {
  }

  /** A character whose case-insensitive form is not white space is not
      white space: white space is its own case-insensitive form. */
  lemma NotSpaceByCanon(c: char)
    requires !IsSpace(Canon(c))
    ensures !IsSpace(c)
  {
  }

  /** A white-space run of exactly `w`, between `x` and a text that does not
      start with white space. */
  lemma SpaceRunPart(x: string, w: string, y: string)
    requires SpaceRun(w, 0) == |w| && (y == [] || !IsSpace(y[0]))
    ensures SpaceRun(x + w + y, |x|) == |w|
  {
    var s := x + w + y;
    forall k | |x| <= k < |x| + |w|
      ensures IsSpace(s[k])
    {
      assert s[k] == w[k - |x|];
    }
    if y != [] {
      assert s[|x| + |w|] == y[0];
    }
    SpaceRunExact(s, |x|, |w|);
  }

  /** `s.slice(n)`: the string after its first `n` characters. Recursive, so
      that the verifier unfolds it only on demand. */
  function Skip(s: string, n: nat): (r: string)
    requires n <= |s|
    decreases n
    ensures |r| == |s| - n
  {
    if n == 0 then s else Skip(s[1..], n - 1)
  }

  /** `Skip` keeps the characters from index `n` on. */
  lemma {:induction false} SkipIndex(s: string, n: nat)
    requires n <= |s|
    decreases n
    ensures forall i :: 0 <= i < |s| - n ==> Skip(s, n)[i] == s[n + i]
  {
    if n > 0 {
      SkipIndex(s[1..], n - 1);
    }
  }

  /** Skipping `a` characters, then `b`, skips `a + b`. */
  lemma {:induction false} SkipSkip(s: string, a: nat, b: nat)
    requires a + b <= |s|
    decreases a
    ensures Skip(Skip(s, a), b) == Skip(s, a + b)
  {
    if a > 0 {
      SkipSkip(s[1..], a - 1, b);
    }
  }

  /** `s` starts with `pat` exactly. */
  predicate StartsWith(s: string, pat: string) {
    |pat| <= |s| && s[..|pat|] == pat
  }

  /** `s.replace(/\s+/g, " ")`: every maximal white-space run becomes one space.
      What that means is stated by CollapseShape, CollapseNoSpace and CollapseRun. */
  function CollapseSpaces(s: string): (r: string)
    decreases |s|
    ensures |r| <= |s|
  {
    if s == [] then []
    else if IsSpace(s[0]) then
      TrimStartDropsSpace(s);
      [' '] + CollapseSpaces(TrimStart(s))
    else
      [s[0]] + CollapseSpaces(s[1..])
  }

  /** The collapse keeps every non-space character, leaves no white space but
      single spaces, and starts with white space exactly when its input does. */
  lemma {:induction false} CollapseShape(s: string)
    decreases |s|
    ensures var r := CollapseSpaces(s);
      && NonSpace(r) == NonSpace(s)
      && (forall i :: 0 <= i < |r| && IsSpace(r[i]) ==> r[i] == ' ')
      && (r != [] && s != [] ==> (IsSpace(r[0]) <==> IsSpace(s[0])))
      && (forall i, j :: 0 <= i && j == i + 1 && j < |r| ==> !(IsSpace(r[i]) && IsSpace(r[j])))
  {
    if s != [] {
      if IsSpace(s[0]) {
        var rest := TrimStart(s);
        TrimStartDropsSpace(s);
        NonSpaceAppend(s[..|s| - |rest|], rest);
        AllSpace(s[..|s| - |rest|]);
        CollapseShape(rest);
      } else {
        assert s == [s[0]] + s[1..];
        CollapseShape(s[1..]);
      }
    }
  }

  /** A leading white-space run in front of text that starts with a non-space
      character is exactly what `trimStart` removes. */
  lemma {:induction false} TrimStartSpaces(w: string, b: string)
    requires forall i :: 0 <= i < |w| ==> IsSpace(w[i])
    requires b == [] || !IsSpace(b[0])
    ensures TrimStart(w + b) == b
  {
    if w != [] {
      assert (w + b)[0] == w[0] && (w + b)[1..] == w[1..] + b;
      TrimStartSpaces(w[1..], b);
    } else {
      assert w + b == b;
    }
  }

  /** `trimStart` of a string ending in a non-space character does not reach
      whatever follows it. */
  lemma {:induction false} TrimStartAppend(x: string, y: string)
    requires x != [] && !IsSpace(x[|x| - 1])
    ensures TrimStart(x + y) == TrimStart(x) + y
  {
    assert (x + y)[0] == x[0];
    if IsSpace(x[0]) {
      assert (x + y)[1..] == x[1..] + y;
      TrimStartAppend(x[1..], y);
    }
  }

  /** Text without white space is left alone by the collapse. */
  lemma {:induction false} CollapseNoSpace(s: string)
    requires forall i :: 0 <= i < |s| ==> !IsSpace(s[i])
    ensures CollapseSpaces(s) == s
  {
    if s != [] {
      CollapseNoSpace(s[1..]);
      assert s == [s[0]] + s[1..];
    }
  }

  /** A whole white-space run, between text that does not end in white space
      and text that does not start with it, becomes exactly one space. */
  lemma {:induction false} CollapseRun(a: string, w: string, b: string)
    requires w != [] && forall i :: 0 <= i < |w| ==> IsSpace(w[i])
    requires a == [] || !IsSpace(a[|a| - 1])
    requires b == [] || !IsSpace(b[0])
    ensures CollapseSpaces(a + w + b) == CollapseSpaces(a) + " " + CollapseSpaces(b)
    decreases |a|, 1
  {
    if a == [] {
      assert a + w + b == w + b;
      CollapseFront(w, b);
    } else if IsSpace(a[0]) {
      CollapseRunSpace(a, w, b);
    } else {
      CollapseRunChar(a, w, b);
    }
  }

  /** The run case of CollapseRun when `a` itself starts with white space. */
  lemma {:induction false} CollapseRunSpace(a: string, w: string, b: string)
    requires w != [] && forall i :: 0 <= i < |w| ==> IsSpace(w[i])
    requires a != [] && IsSpace(a[0]) && !IsSpace(a[|a| - 1])
    requires b == [] || !IsSpace(b[0])
    ensures CollapseSpaces(a + w + b) == CollapseSpaces(a) + " " + CollapseSpaces(b)
    decreases |a|, 0
  {
    var s := a + w + b;
    assert s == a + (w + b) && s[0] == a[0];
    TrimStartAppend(a, w + b);
    TrimStartKeepsLast(a);
    var t := TrimStart(a);
    AppendAssoc(t, w, b);
    CollapseRun(t, w, b);
    CollapseSpaceHead(s);
    CollapseSpaceHead(a);
    PrependJoin([' '], CollapseSpaces(t), " ", CollapseSpaces(b));
  }

  /** The run case of CollapseRun when `a` starts with a non-space character. */
  lemma {:induction false} CollapseRunChar(a: string, w: string, b: string)
    requires w != [] && forall i :: 0 <= i < |w| ==> IsSpace(w[i])
    requires a != [] && !IsSpace(a[0]) && !IsSpace(a[|a| - 1])
    requires b == [] || !IsSpace(b[0])
    ensures CollapseSpaces(a + w + b) == CollapseSpaces(a) + " " + CollapseSpaces(b)
    decreases |a|, 0
  {
    var s := a + w + b;
    assert s[0] == a[0] && s[1..] == a[1..] + w + b;
    CollapseRun(a[1..], w, b);
    CollapseCharHead(s);
    CollapseCharHead(a);
    PrependJoin([a[0]], CollapseSpaces(a[1..]), " ", CollapseSpaces(b));
  }

  /** A leading white-space run becomes one space. */
  lemma CollapseFront(w: string, b: string)
    requires w != [] && forall i :: 0 <= i < |w| ==> IsSpace(w[i])
    requires b == [] || !IsSpace(b[0])
    ensures CollapseSpaces(w + b) == " " + CollapseSpaces(b)
  {
    assert (w + b)[0] == w[0];
    TrimStartSpaces(w, b);
    CollapseSpaceHead(w + b);
  }

  /** A trailing white-space run becomes one space. */
  lemma CollapseTrail(a: string, w: string)
    requires a == [] || !IsSpace(a[|a| - 1])
    requires w != [] && forall i :: 0 <= i < |w| ==> IsSpace(w[i])
    ensures CollapseSpaces(a + w) == CollapseSpaces(a) + " "
  {
    assert a + w + [] == a + w;
    CollapseRun(a, w, []);
    assert CollapseSpaces(a) + " " + CollapseSpaces([]) == CollapseSpaces(a) + " ";
  }

  lemma PrependJoin<T>(h: seq<T>, x: seq<T>, m: seq<T>, y: seq<T>)
    ensures h + (x + m + y) == (h + x) + m + y
  {
  }

  lemma CollapseSpaceHead(s: string)
    requires s != [] && IsSpace(s[0])
    ensures CollapseSpaces(s) == [' '] + CollapseSpaces(TrimStart(s))
  {
  }

  lemma CollapseCharHead(s: string)
    requires s != [] && !IsSpace(s[0])
    ensures CollapseSpaces(s) == [s[0]] + CollapseSpaces(s[1..])
  {
  }

  /** What a white-space run becomes under the collapse: one space, or nothing
      when there is no run. */
  function Pad(w: string): string {
    if w == [] then [] else " "
  }

  lemma PadIsSpace(w: string)
    ensures forall i :: 0 <= i < |Pad(w)| ==> IsSpace(Pad(w)[i])
  {
  }

  /** A word with white-space runs around it collapses to the word padded by at
      most one space on each side. */
  lemma CollapsePadded(u: string, x: string, v: string)
    requires forall i :: 0 <= i < |u| ==> IsSpace(u[i])
    requires x != [] && forall i :: 0 <= i < |x| ==> !IsSpace(x[i])
    requires forall i :: 0 <= i < |v| ==> IsSpace(v[i])
    ensures CollapseSpaces(u + x + v) == Pad(u) + x + Pad(v)
  {
    if u == [] && v == [] {
      EmptyAppend(x);
      AppendEmpty(x);
      CollapseNoSpace(x);
    } else if u == [] {
      CollapseWordRun(u, x, v);
    } else if v == [] {
      CollapseRunWord(u, x, v);
    } else {
      CollapseAround(u, x, v);
    }
  }

  lemma CollapseWordRun(u: string, x: string, v: string)
    requires u == []
    requires x != [] && forall i :: 0 <= i < |x| ==> !IsSpace(x[i])
    requires v != [] && forall i :: 0 <= i < |v| ==> IsSpace(v[i])
    ensures CollapseSpaces(u + x + v) == Pad(u) + x + Pad(v)
  {
    EmptyAppend(x);
    CollapseTrail(x, v);
    CollapseNoSpace(x);
  }

  lemma CollapseRunWord(u: string, x: string, v: string)
    requires u != [] && forall i :: 0 <= i < |u| ==> IsSpace(u[i])
    requires x != [] && forall i :: 0 <= i < |x| ==> !IsSpace(x[i])
    requires v == []
    ensures CollapseSpaces(u + x + v) == Pad(u) + x + Pad(v)
  {
    AppendEmpty(u + x);
    AppendEmpty(" " + x);
    CollapseFront(u, x);
    CollapseNoSpace(x);
  }

  lemma CollapseAround(u: string, x: string, v: string)
    requires u != [] && forall i :: 0 <= i < |u| ==> IsSpace(u[i])
    requires x != [] && forall i :: 0 <= i < |x| ==> !IsSpace(x[i])
    requires v != [] && forall i :: 0 <= i < |v| ==> IsSpace(v[i])
    ensures CollapseSpaces(u + x + v) == Pad(u) + x + Pad(v)
  {
    assert u + x + v == u + (x + v);
    CollapseFront(u, x + v);
    CollapseTrail(x, v);
    CollapseNoSpace(x);
    AppendAssoc(" ", x, " ");
  }
}
