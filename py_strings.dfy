/**
 * The Python `str` operations the site build script relies on, on `seq<char>`:
 * `in`, `find`, `startswith`, `endswith`, `split(sep)`, `split(sep, 1)`,
 * `split(sep)[-1]`, `removesuffix`, `replace`, `strip()` and the ordering `<=`.
 * Each is defined the way CPython computes it and specified by what it means.
 */
module PyStrings {
  /** `pat` occurs in `s` starting at index `i`. */
  predicate OccursAt(s: string, pat: string, i: int) {
    0 <= i && i + |pat| <= |s| && forall k :: 0 <= k < |pat| ==> s[i + k] == pat[k]
  }

  /** Python's `s.startswith(prefix)`. */
  predicate StartsWith(s: string, prefix: string) {
    OccursAt(s, prefix, 0)
  }

  /** Python's `s.endswith(suffix)`. */
  predicate EndsWith(s: string, suffix: string) {
    OccursAt(s, suffix, |s| - |suffix|)
  }

  /** Character-by-character comparison of `pat[k..]` with `s` from index `i + k`. */
  predicate MatchesFrom(s: string, pat: string, i: nat, k: nat)
    decreases |pat| - k
  {
    k >= |pat| || (i + k < |s| && s[i + k] == pat[k] && MatchesFrom(s, pat, i, k + 1))
  }

  /** The comparison succeeds exactly when the remaining characters agree. */
  lemma {:induction false} MatchesFromIff(s: string, pat: string, i: nat, k: nat)
    requires i + |pat| <= |s|
    ensures MatchesFrom(s, pat, i, k) <==> forall j :: k <= j < |pat| ==> s[i + j] == pat[j]
    decreases |pat| - k
  {
    if k < |pat| {
      MatchesFromIff(s, pat, i, k + 1);
    }
  }

  /**
   * Python's `s.find(pat, from)`: the index of the first occurrence of `pat`
   * in `s` at or after `from`, or -1 when there is none.
   */
  function FindFrom(s: string, pat: string, from: nat): (r: int)
    requires from <= |s|
    ensures r == -1 || (from <= r && r + |pat| <= |s|)
    decreases |s| - from
  {
    if from + |pat| <= |s| && MatchesFrom(s, pat, from, 0) then from
    else if from == |s| then -1
    else FindFrom(s, pat, from + 1)
  }

  /** `FindFrom` finds the first occurrence, and -1 means there is none. */
  lemma {:induction false} FindFromFirst(s: string, pat: string, from: nat)
    requires from <= |s|
    ensures FindFrom(s, pat, from) >= 0 ==> OccursAt(s, pat, FindFrom(s, pat, from))
    ensures FindFrom(s, pat, from) >= 0 ==>
      forall j :: from <= j < FindFrom(s, pat, from) ==> !OccursAt(s, pat, j)
    ensures FindFrom(s, pat, from) == -1 ==> forall j :: from <= j ==> !OccursAt(s, pat, j)
    decreases |s| - from
  {
    if from + |pat| <= |s| {
      MatchesFromIff(s, pat, from, 0);
    }
    if !OccursAt(s, pat, from) && from < |s| {
      FindFromFirst(s, pat, from + 1);
    }
  }

  /** Python's `s.find(pat)`: the index of the first occurrence, or -1. */
  function Find(s: string, pat: string): (r: int)
    ensures r == -1 || (0 <= r && r + |pat| <= |s|)
  {
    FindFrom(s, pat, 0)
  }

  /** `Find` gives the first occurrence, and -1 only when there is none. */
  lemma FindFirst(s: string, pat: string)
    ensures Find(s, pat) >= 0 ==> OccursAt(s, pat, Find(s, pat))
    ensures Find(s, pat) >= 0 ==> forall j :: 0 <= j < Find(s, pat) ==> !OccursAt(s, pat, j)
    ensures Find(s, pat) == -1 ==> forall j :: !OccursAt(s, pat, j)
  {
    FindFromFirst(s, pat, 0);
  }

  /** Python's `pat in s`, computed as CPython does, by a search. */
  predicate Contains(s: string, pat: string) {
    Find(s, pat) >= 0
  }

  /** `pat in s` holds exactly when `pat` occurs somewhere in `s`. */
  lemma ContainsIff(s: string, pat: string)
    ensures Contains(s, pat) <==> exists i :: OccursAt(s, pat, i)
  {
    FindFirst(s, pat);
    if Contains(s, pat) {
      assert OccursAt(s, pat, Find(s, pat));
    }
  }

  /** `s` is the text before an occurrence of `pat`, `pat`, and the text after it. */
  lemma CutAt(s: string, pat: string, i: int)
    requires OccursAt(s, pat, i)
    ensures s == s[..i] + pat + s[i + |pat|..]
  {
  }

  /** The text before the first occurrence of `pat` does not contain `pat`. */
  lemma BeforeFirst(s: string, pat: string)
    requires pat != [] && Find(s, pat) >= 0
    ensures !Contains(s[..Find(s, pat)], pat)
  {
    var i := Find(s, pat);
    FindFirst(s, pat);
    FindFirst(s[..i], pat);
    if Contains(s[..i], pat) {
      OccursInPrefix(s, i, pat, Find(s[..i], pat));
    }
  }

  /** An occurrence inside a prefix of `s` is an occurrence in `s`. */
  lemma OccursInPrefix(s: string, n: nat, pat: string, j: int)
    requires n <= |s| && OccursAt(s[..n], pat, j)
    ensures OccursAt(s, pat, j) && j + |pat| <= n
  {
  }

  /** A pattern placed between two strings occurs right after the first. */
  lemma OccursBetween(pre: string, pat: string, post: string)
    ensures OccursAt(pre + pat + post, pat, |pre|) && Contains(pre + pat + post, pat)
  {
    var s := pre + pat + post;
    assert OccursAt(s, pat, |pre|);
    FindFirst(s, pat);
  }

  /**
   * `pat` cannot occur in `pre + post` when `pre` is shorter than `pat` and
   * the last character of `pat` is not in `post`: every occurrence would end there.
   */
  lemma NotContainsWithoutLast(pre: string, post: string, pat: string)
    requires pat != [] && |pre| < |pat| && pat[|pat| - 1] !in post
    ensures !Contains(pre + post, pat)
  {
    var s, e := pre + post, |pat| - 1;
    forall j | 0 <= j && j + |pat| <= |s|
      ensures !OccursAt(s, pat, j)
    {
      assert s[j + e] == post[j + e - |pre|];
    }
    FindFirst(s, pat);
  }

  /** For a one-character pattern, containment is plain membership. */
  lemma ContainsChar(s: string, c: char)
    ensures Contains(s, [c]) <==> c in s
  {
    if c in s {
      var i :| 0 <= i < |s| && s[i] == c;
      assert OccursAt(s, [c], i);
    }
    FindFirst(s, [c]);
    var f := Find(s, [c]);
    if f >= 0 {
      assert s[f + 0] == [c][0];
    }
  }

  /** Python's `sep.join(parts)`; the inverse of `Split`. */
  function Join(parts: seq<string>, sep: string): string
    requires |parts| >= 1
  {
    if |parts| == 1 then parts[0] else parts[0] + sep + Join(parts[1..], sep)
  }

  /**
   * Python's `s.split(sep)` for a non-empty `sep` (CPython raises ValueError for
   * an empty one): the pieces between the non-overlapping occurrences of `sep`,
   * found left to right. `SplitJoin` proves that joining them gives `s` back.
   */
  function Split(s: string, sep: string): (parts: seq<string>)
    requires sep != []
    ensures |parts| >= 1
    ensures |parts| == 1 <==> !Contains(s, sep)
    ensures !Contains(s, sep) ==> parts == [s]
    decreases |s|
  {
    var i := Find(s, sep);
    if i < 0 then [s] else [s[..i]] + Split(s[i + |sep|..], sep)
  }

  /** No piece of a split contains the separator. */
  lemma {:induction false} SplitPieces(s: string, sep: string)
    requires sep != []
    ensures forall k :: 0 <= k < |Split(s, sep)| ==> !Contains(Split(s, sep)[k], sep)
    decreases |s|
  {
    var i := Find(s, sep);
    if i >= 0 {
      SplitStep(s, sep, i);
      SplitPieces(s[i + |sep|..], sep);
      BeforeFirst(s, sep);
    }
  }

  /** Joining a piece in front of other pieces. */
  lemma JoinCons(head: string, parts: seq<string>, sep: string)
    requires |parts| >= 1
    ensures Join([head] + parts, sep) == head + sep + Join(parts, sep)
  {
  }

  /** One step of `Split`: the piece before the first occurrence, then the rest. */
  lemma SplitStep(s: string, sep: string, i: nat)
    requires sep != [] && Find(s, sep) == i
    ensures Split(s, sep) == [s[..i]] + Split(s[i + |sep|..], sep)
    ensures s == s[..i] + sep + s[i + |sep|..]
  {
    FindFirst(s, sep);
    CutAt(s, sep, i);
  }

  /** Splitting loses nothing: joining the pieces with `sep` gives `s` back. */
  lemma {:induction false} SplitJoin(s: string, sep: string)
    requires sep != []
    ensures Join(Split(s, sep), sep) == s
    decreases |s|
  {
    var i := Find(s, sep);
    if i >= 0 {
      var head, rest := s[..i], s[i + |sep|..];
      SplitStep(s, sep, i);
      SplitJoin(rest, sep);
      JoinCons(head, Split(rest, sep), sep);
    }
  }

  /** Joining with a last piece split off. */
  lemma {:induction false} JoinLast(parts: seq<string>, sep: string)
    requires |parts| >= 2
    ensures Join(parts, sep) == Join(parts[..|parts| - 1], sep) + sep + parts[|parts| - 1]
    decreases |parts|
  {
    if |parts| > 2 {
      JoinLast(parts[1..], sep);
      assert parts[1..][..|parts| - 2] == parts[..|parts| - 1][1..];
    }
  }

  /** The first two pieces of a join with at least two pieces. */
  lemma JoinFirstTwo(parts: seq<string>, sep: string)
    requires |parts| >= 2
    ensures StartsWith(Join(parts, sep), parts[0] + sep + parts[1])
    ensures |parts| == 2 ==> Join(parts, sep) == parts[0] + sep + parts[1]
    ensures |parts| > 2 ==> StartsWith(Join(parts, sep), parts[0] + sep + parts[1] + sep)
  {
  }

  /**
   * Python's `s.split(sep)[-1]`: the text after the last occurrence of `sep`,
   * or all of `s` when `sep` does not occur.
   */
  function SplitLast(s: string, sep: string): (r: string)
    requires sep != []
    ensures !Contains(r, sep)
    ensures !Contains(s, sep) ==> r == s
    ensures Contains(s, sep) ==> EndsWith(s, sep + r)
  {
    var parts := Split(s, sep);
    LastPieceFree(s, sep);
    LastPieceEnds(s, sep);
    parts[|parts| - 1]
  }

  /** The last piece of a split is free of `sep`. */
  lemma LastPieceFree(s: string, sep: string)
    requires sep != []
    ensures var parts := Split(s, sep); !Contains(parts[|parts| - 1], sep)
  {
  }

  /** When `sep` occurs, the last piece is what follows its last occurrence at the end of `s`. */
  lemma LastPieceEnds(s: string, sep: string)
    requires sep != []
    ensures var parts := Split(s, sep); |parts| >= 2 ==> EndsWith(s, sep + parts[|parts| - 1])
  {
    var parts := Split(s, sep);
    if |parts| >= 2 {
      SplitJoin(s, sep);
      JoinEndsWithLast(parts, sep);
    }
  }

  /** A join of two or more pieces ends with `sep` and the last piece. */
  lemma JoinEndsWithLast(parts: seq<string>, sep: string)
    requires |parts| >= 2
    ensures EndsWith(Join(parts, sep), sep + parts[|parts| - 1])
  {
    JoinLast(parts, sep);
    EndsWithTail(Join(parts[..|parts| - 1], sep), sep, parts[|parts| - 1]);
  }

  lemma EndsWithTail(a: string, b: string, c: string)
    ensures EndsWith(a + b + c, b + c)
  {
  }

  /** What follows the last occurrence of a character is everything after it. */
  lemma SplitLastChar(pre: string, c: char, post: string)
    requires c !in post
    ensures SplitLast(pre + [c] + post, [c]) == post
  {
    var s := pre + [c] + post;
    assert s[|pre| + 0] == [c][0];
    assert OccursAt(s, [c], |pre|);
    FindFirst(s, [c]);
    var r := SplitLast(s, [c]);
    ContainsChar(r, c);
    EndsWithTail(pre, [c], post);
    SameLastTail(s, c, r, post);
  }

  /** What follows the last `c` is unique: two `c`-free tails after a `c` agree. */
  lemma SameLastTail(s: string, c: char, t1: string, t2: string)
    requires c !in t1 && c !in t2
    requires EndsWith(s, [c] + t1) && EndsWith(s, [c] + t2)
    ensures t1 == t2
  {
    var n := |s|;
    assert s[n - |t1| - 1 + 0] == ([c] + t1)[0];
    assert s[n - |t2| - 1 + 0] == ([c] + t2)[0];
    forall j | n - |t2| <= j < n
      ensures s[j] != c
    {
      var k := j - (n - |t2| - 1);
      assert s[n - |t2| - 1 + k] == ([c] + t2)[k];
    }
    forall j | n - |t1| <= j < n
      ensures s[j] != c
    {
      var k := j - (n - |t1| - 1);
      assert s[n - |t1| - 1 + k] == ([c] + t1)[k];
    }
    forall k | 0 <= k < |t1|
      ensures t1[k] == t2[k]
    {
      assert s[n - |t1| - 1 + (k + 1)] == ([c] + t1)[k + 1];
      assert s[n - |t2| - 1 + (k + 1)] == ([c] + t2)[k + 1];
    }
  }

  /**
   * Python's `s.split(sep, 1)`: at most two pieces, cut at the first
   * occurrence of `sep`.
   */
  function SplitOnce(s: string, sep: string): (parts: seq<string>)
    requires sep != []
    ensures |parts| == 1 || |parts| == 2
    ensures |parts| == 2 <==> Contains(s, sep)
    ensures |parts| == 1 ==> parts[0] == s
    ensures |parts| == 2 ==> parts[0] + sep + parts[1] == s && !Contains(parts[0], sep)
  {
    var i := Find(s, sep);
    if i < 0 then [s]
    else
      BeforeFirst(s, sep);
      FindFirst(s, sep);
      CutAt(s, sep, i);
      [s[..i], s[i + |sep|..]]
  }

  /**
   * Cutting at the first occurrence of `sep` when no occurrence can start
   * inside `head` (its first character does not appear there).
   */
  lemma SplitAtFirst(head: string, sep: string, rest: string)
    requires sep != [] && sep[0] !in head
    ensures Split(head + sep + rest, sep) == [head] + Split(rest, sep)
  {
    FindAfterHead(head, sep, rest);
    SplitStep(head + sep + rest, sep, |head|);
    PartsOfConcat(head, sep, rest);
  }

  /** The first occurrence of `sep` in `head + sep + rest` when `head` has no `sep[0]`. */
  lemma FindAfterHead(head: string, sep: string, rest: string)
    requires sep != [] && sep[0] !in head
    ensures Find(head + sep + rest, sep) == |head|
  {
    var s := head + sep + rest;
    assert OccursAt(s, sep, |head|);
    forall j | 0 <= j < |head|
      ensures !OccursAt(s, sep, j)
    {
      assert s[j + 0] == head[j];
    }
    FindFirst(s, sep);
  }

  lemma PartsOfConcat(a: string, b: string, c: string)
    ensures (a + b + c)[..|a|] == a && (a + b + c)[|a| + |b|..] == c
  {
  }

  /** Text before the first possible start of `sep` does not change what follows its last occurrence. */
  lemma SplitLastAfter(head: string, sep: string, tail: string)
    requires sep != [] && sep[0] !in head
    ensures SplitLast(head + sep + tail, sep) == SplitLast(tail, sep)
  {
    SplitAtFirst(head, sep, tail);
    LastOfPrepend(head, Split(tail, sep), Split(head + sep + tail, sep));
  }

  lemma LastOfPrepend<T>(x: T, xs: seq<T>, ys: seq<T>)
    requires |xs| >= 1 && ys == [x] + xs
    ensures ys[|ys| - 1] == xs[|xs| - 1]
  {
  }

  /** A character-free string is its own single piece. */
  lemma SplitWithoutChar(s: string, c: char)
    requires c !in s
    ensures Split(s, [c]) == [s]
  {
    ContainsChar(s, c);
  }

  /**
   * Python's `s.removesuffix(suffix)`: drops `suffix` once when `s` ends with
   * it and it is not empty, and otherwise returns `s`.
   */
  function RemoveSuffix(s: string, suffix: string): (r: string)
    ensures r == s || (suffix != [] && r + suffix == s)
    ensures suffix != [] && EndsWith(s, suffix) ==> r + suffix == s
    ensures !EndsWith(s, suffix) ==> r == s
  {
    if suffix != [] && EndsWith(s, suffix) then s[..|s| - |suffix|] else s
  }

  /**
   * Python's `s.replace(pat, rep)` for a non-empty `pat`: every non-overlapping
   * occurrence, found left to right, becomes `rep`.
   */
  function ReplaceAll(s: string, pat: string, rep: string): (r: string)
    requires pat != []
    ensures !Contains(s, pat) ==> r == s
    decreases |s|
  {
    var i := Find(s, pat);
    if i < 0 then s else s[..i] + rep + ReplaceAll(s[i + |pat|..], pat, rep)
  }

  /** A text without the first character of `pat` does not contain `pat`. */
  lemma AbsentFirst(s: string, pat: string)
    requires pat != [] && pat[0] !in s
    ensures !Contains(s, pat)
  {
    forall j | 0 <= j && j + |pat| <= |s|
      ensures !OccursAt(s, pat, j)
    {
      assert s[j + 0] != pat[0];
    }
    FindFirst(s, pat);
  }

  lemma FindSelf(pat: string)
    requires pat != []
    ensures Find(pat, pat) == 0
  {
    assert OccursAt(pat, pat, 0);
    FindFirst(pat, pat);
  }

  /** Replacing `pat` in `pat` itself gives the replacement. */
  lemma ReplaceWhole(pat: string, rep: string)
    requires pat != []
    ensures ReplaceAll(pat, pat, rep) == rep
  {
    FindSelf(pat);
    ReplaceStep(pat, pat, rep, 0);
    assert pat[..0] == [] && pat[|pat|..] == [];
    assert ReplaceAll([], pat, rep) == [];
  }

  /** One step of `ReplaceAll`: the text before the first occurrence, `rep`, then the rest. */
  lemma {:induction false} ReplaceStep(s: string, pat: string, rep: string, i: nat)
    requires pat != [] && Find(s, pat) == i
    ensures ReplaceAll(s, pat, rep) == s[..i] + rep + ReplaceAll(s[i + |pat|..], pat, rep)
  {
  }

  /** Replacing is splitting at the pattern and joining with the replacement. */
  lemma {:induction false} ReplaceAllIsSplitJoin(s: string, pat: string, rep: string)
    requires pat != []
    ensures ReplaceAll(s, pat, rep) == Join(Split(s, pat), rep)
    decreases |s|
  {
    var i := Find(s, pat);
    if i >= 0 {
      var rest := s[i + |pat|..];
      SplitStep(s, pat, i);
      ReplaceStep(s, pat, rep, i);
      ReplaceAllIsSplitJoin(rest, pat, rep);
      JoinCons(s[..i], Split(rest, pat), rep);
    }
  }

  /** Replacing a pattern by itself changes nothing. */
  lemma ReplaceBySelf(s: string, pat: string)
    requires pat != []
    ensures ReplaceAll(s, pat, pat) == s
  {
    ReplaceAllIsSplitJoin(s, pat, pat);
    SplitJoin(s, pat);
  }

  /** The characters Python's `str.isspace()` accepts, which `strip()` removes. */
  predicate IsSpace(c: char) {
    var n := c as int;
    (0x09 <= n <= 0x0D) || (0x1C <= n <= 0x20) || n == 0x85 || n == 0xA0
    || n == 0x1680 || (0x2000 <= n <= 0x200A) || n == 0x2028 || n == 0x2029
    || n == 0x202F || n == 0x205F || n == 0x3000
  }

  predicate AllSpace(s: string) {
    forall k :: 0 <= k < |s| ==> IsSpace(s[k])
  }

  /** Neither end of `s` is a space. */
  predicate Trimmed(s: string) {
    s == [] || (!IsSpace(s[0]) && !IsSpace(s[|s| - 1]))
  }

  /** End of the run of spaces that starts at `i`. */
  function SpacesFrom(s: string, i: nat): (n: nat)
    requires i <= |s|
    ensures i <= n <= |s|
    ensures forall k :: i <= k < n ==> IsSpace(s[k])
    ensures n < |s| ==> !IsSpace(s[n])
    decreases |s| - i
  {
    if i < |s| && IsSpace(s[i]) then SpacesFrom(s, i + 1) else i
  }

  /** Start of the run of spaces that ends just before `j`. */
  function SpacesBefore(s: string, j: nat): (n: nat)
    requires j <= |s|
    ensures n <= j
    ensures forall k :: n <= k < j ==> IsSpace(s[k])
    ensures n > 0 ==> !IsSpace(s[n - 1])
  {
    if j > 0 && IsSpace(s[j - 1]) then SpacesBefore(s, j - 1) else j
  }

  /** Python's `s.lstrip()`: `s` less its leading spaces. */
  function StripLeft(s: string): (r: string)
    ensures |r| <= |s|
    ensures forall k :: 0 <= k < |r| ==> r[k] == s[|s| - |r| + k]
    ensures forall k :: 0 <= k < |s| - |r| ==> IsSpace(s[k])
    ensures r != [] ==> !IsSpace(r[0])
  {
    s[SpacesFrom(s, 0)..]
  }

  /** Python's `s.rstrip()`: `s` less its trailing spaces. */
  function StripRight(s: string): (r: string)
    ensures |r| <= |s|
    ensures forall k :: 0 <= k < |r| ==> r[k] == s[k]
    ensures forall k :: |r| <= k < |s| ==> IsSpace(s[k])
    ensures r != [] ==> !IsSpace(r[|r| - 1])
  {
    s[..SpacesBefore(s, |s|)]
  }

  /** Python's `s.strip()`. */
  function Strip(s: string): (r: string)
    ensures Trimmed(r)
    ensures |r| <= |s|
  {
    StripRight(StripLeft(s))
  }

  /** Stripping the left of spaces followed by a non-space start leaves the rest. */
  lemma StripLeftSpaces(pre: string, t: string)
    requires AllSpace(pre) && (t == [] || !IsSpace(t[0]))
    ensures StripLeft(pre + t) == t
  {
    var s := pre + t;
    assert s[|pre|..] == t;
  }

  /** Stripping the right of a non-space end followed by spaces leaves the rest. */
  lemma StripRightSpaces(t: string, post: string)
    requires AllSpace(post) && (t == [] || !IsSpace(t[|t| - 1]))
    ensures StripRight(t + post) == t
  {
    var s := t + post;
    assert s[..|t|] == t;
  }

  /**
   * `strip()` removes exactly the surrounding spaces: any string is spaces, a
   * trimmed core and spaces, and stripping it gives back the core.
   */
  lemma StripSurroundingSpaces(pre: string, core: string, post: string)
    requires AllSpace(pre) && AllSpace(post) && Trimmed(core)
    ensures Strip(pre + core + post) == core
  {
    if core == [] {
      assert pre + core + post == pre + post;
      StripLeftSpaces(pre + post, []);
      assert pre + post + [] == pre + post;
    } else {
      assert pre + core + post == pre + (core + post);
      StripLeftSpaces(pre, core + post);
      StripRightSpaces(core, post);
    }
  }

  /** Python's `a <= b` on `str`: lexicographic order on code points. */
  predicate LessEq(a: string, b: string)
    decreases |a|
  {
    a == [] || (b != [] && (a[0] < b[0] || (a[0] == b[0] && LessEq(a[1..], b[1..]))))
  }

  lemma {:induction false} LessEqTotal(a: string, b: string)
    ensures LessEq(a, b) || LessEq(b, a)
    decreases |a|
  {
    if a != [] && b != [] && a[0] == b[0] {
      LessEqTotal(a[1..], b[1..]);
    }
  }

  lemma {:induction false} LessEqTransitive(a: string, b: string, c: string)
    requires LessEq(a, b) && LessEq(b, c)
    ensures LessEq(a, c)
    decreases |a|
  {
    if a != [] && a[0] == b[0] == c[0] {
      LessEqTransitive(a[1..], b[1..], c[1..]);
    }
  }

  lemma {:induction false} LessEqAntisymmetric(a: string, b: string)
    requires LessEq(a, b) && LessEq(b, a)
    ensures a == b
    decreases |a|
  {
    if a != [] {
      LessEqAntisymmetric(a[1..], b[1..]);
      assert a == [a[0]] + a[1..] && b == [b[0]] + b[1..];
    }
  }
}
