/** The two System.IO.Path operations the core uses, with '/' as the directory separator. */
module Paths {

  predicate IsSeparator(c: char) {
    c == '/'
  }

  /** Path.Join: concatenates, adding a separator only when neither side already has one. */
  function Join(a: string, b: string): (p: string)
    ensures a == [] ==> p == b
    ensures b == [] ==> p == a
    ensures a != [] && b != [] ==> p == a + b || p == a + "/" + b
  {
    if a == [] then b
    else if b == [] then a
    else if IsSeparator(a[|a| - 1]) || IsSeparator(b[0]) then a + b
    else a + "/" + b
  }

  /** Path.Combine: like Join, except that a rooted second part replaces the first. */
  function Combine(a: string, b: string): (p: string)
    ensures |b| > 0 && IsSeparator(b[0]) ==> p == b
    ensures (|b| == 0 || !IsSeparator(b[0])) ==> p == Join(a, b)
  {
    if |b| > 0 && IsSeparator(b[0]) then b else Join(a, b)
  }

  /** A joined path starts with the directory, ends with the name, and adds at most one separator between them. */
  lemma JoinParts(a: string, b: string)
    ensures var p := Join(a, b);
            && a <= p
            && |b| <= |p| && p[|p| - |b|..] == b
            && |a| + |b| <= |p| <= |a| + |b| + 1
  {
    var p := Join(a, b);
    if a != [] && b != [] && p == a + "/" + b {
      assert p[|p| - |b|..] == b;
    }
  }

  /** An output path ends with the file name; a relative file name lands under the directory. */
  lemma CombinePlacesFile(a: string, b: string)
    ensures var p := Combine(a, b);
            && |b| <= |p| && p[|p| - |b|..] == b
            && ((|b| == 0 || !IsSeparator(b[0])) ==> a <= p)
  {
    JoinParts(a, b);
  }
}
