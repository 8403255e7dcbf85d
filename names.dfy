/**
 * Class-name helpers used by the scanner: Java's `String.lastIndexOf`, the
 * package of a qualified class name, and the `.class` suffix test on archive
 * member names.
 */
module Names {
  import opened Wrappers

  /** Index of the last occurrence of `c` in `s`, or -1 when `c` does not occur. */
  function LastIndexOf(s: string, c: char): (r: int)
    ensures -1 <= r < |s|
    ensures r == -1 <==> c !in s
    ensures r >= 0 ==> s[r] == c && c !in s[r + 1..]
  {
    if s == [] then -1
    else if s[|s| - 1] == c then |s| - 1
    else
      var r := LastIndexOf(s[..|s| - 1], c);
      assert s == s[..|s| - 1] + [s[|s| - 1]];
      assert r >= 0 ==> s[r + 1..] == s[..|s| - 1][r + 1..] + [s[|s| - 1]];
      r
  }

  /**
   * The package of a qualified name: everything before its last `.`; a name
   * without a `.` has no package. A name starting with its only `.` has the
   * empty package.
   */
  function PackageOf(name: string): (p: Option<string>)
    ensures p.None? <==> '.' !in name
    ensures p.Some? ==>
      |p.value| < |name| && name[..|p.value|] == p.value &&
      name[|p.value|] == '.' && '.' !in name[|p.value| + 1..]
  {
    var i := LastIndexOf(name, '.');
    if i == -1 then None else Some(name[..i])
  }

  /** The last `.` of a name at index k makes everything before it the package. */
  lemma PackageAt(name: string, k: nat)
    requires k < |name| && name[k] == '.' && '.' !in name[k + 1..]
    ensures PackageOf(name) == Some(name[..k])
  {
    var r := LastIndexOf(name, '.');
    assert forall j :: k < j < |name| ==> name[j] == name[k + 1..][j - k - 1];
    assert forall j :: r < j < |name| ==> name[j] == name[r + 1..][j - r - 1];
  }

  /** Java's `String.endsWith`. */
  predicate EndsWith(s: string, suffix: string) {
    |suffix| <= |s| && s[|s| - |suffix|..] == suffix
  }

  /** Only archive members whose name ends in `.class` are parsed as classes. */
  predicate IsClassEntry(name: string) {
    EndsWith(name, ".class")
  }
}
