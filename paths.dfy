/**
 * The two pieces of `pathlib` that scripts/build_site.py relies on for the
 * names of the files it lists: matching a `*<suffix>` glob pattern and
 * `Path.stem`.
 */
module Paths {
  import opened PyStrings

  /**
   * `dir.glob("*" + suffix)` keeps an entry exactly when its name ends with
   * `suffix`: `*` matches any text, the empty text and a leading `.` included.
   */
  predicate MatchesStar(name: string, suffix: string) {
    EndsWith(name, suffix)
  }

  /** Index of the last `c` in `s`, or -1 (Python's `s.rfind(c)`). */
  function LastIndexOf(s: string, c: char): (r: int)
    ensures -1 <= r < |s|
    ensures r >= 0 ==> s[r] == c
    ensures forall k :: r < k < |s| ==> s[k] != c
  {
    if s == [] then -1
    else if s[|s| - 1] == c then |s| - 1
    else LastIndexOf(s[..|s| - 1], c)
  }

  /**
   * `Path(name).stem`: the name without its last suffix. A dot that starts
   * the name or ends it does not begin a suffix.
   */
  function Stem(name: string): (r: string)
    ensures |r| <= |name|
    ensures forall k :: 0 <= k < |r| ==> r[k] == name[k]
    ensures |r| < |name| ==> name[|r|] == '.' && 0 < |r| < |name| - 1
  {
    var i := LastIndexOf(name, '.');
    if 0 < i < |name| - 1 then name[..i] else name
  }

  /**
   * `Stem` cuts at the last dot of the name, and it cuts exactly when that
   * last dot is neither the first nor the last character.
   */
  lemma StemAtLastDot(name: string)
    ensures var r := Stem(name);
      && (|r| < |name| ==> forall k :: |r| < k < |name| ==> name[k] != '.')
      && (|r| < |name| <==>
        exists i :: 0 < i < |name| - 1 && name[i] == '.' && forall k :: i < k < |name| ==> name[k] != '.')
  {
  }

  /**
   * The stem of a name matched by `*.json`: the name less `.json`, except for
   * the name `.json` itself, which is all stem.
   */
  lemma JsonStem(name: string)
    requires MatchesStar(name, ".json")
    ensures |name| > 5 ==> Stem(name) + ".json" == name
    ensures |name| == 5 ==> Stem(name) == name
  {
    var n := |name|;
    assert OccursAt(name, ".json", n - 5);
    assert name[n - 5 + 0] == ".json"[0] && name[n - 5 + 1] == ".json"[1] && name[n - 5 + 2] == ".json"[2];
    assert name[n - 5 + 3] == ".json"[3] && name[n - 5 + 4] == ".json"[4];
    assert name[n - 4] == 'j' && name[n - 3] == 's' && name[n - 2] == 'o' && name[n - 1] == 'n';
    var i := LastIndexOf(name, '.');
    assert i == n - 5;
    if n > 5 {
      var r := Stem(name);
      assert |r| == n - 5;
      forall k | 0 <= k < n
        ensures (r + ".json")[k] == name[k]
      {
        if k >= n - 5 {
          assert (r + ".json")[k] == ".json"[k - (n - 5)];
        }
      }
    }
  }

  /** The stem of `d.json` is `d` for any non-empty `d`. */
  lemma StemOfJsonName(d: string)
    requires d != []
    ensures Stem(d + ".json") == d
  {
    var name := d + ".json";
    assert name[|d|] == '.';
    forall k | |d| < k < |name|
      ensures name[k] != '.'
    {
      assert name[k] == ".json"[k - |d|];
    }
    assert name[..|d|] == d;
  }
}
