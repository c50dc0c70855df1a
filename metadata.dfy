/**
 * One remote archive as the listing resolver produced it (MyrientDownloader/Interfaces/MyrientMetadata.cs):
 * its location, its listed file name, the title derived from that name by the regular expression
 * `\.[(a-zA-Z0-9)]{1,3}\Z`, and the two lifecycle flags the downloader updates in place.
 */
module Metadata {

  /** An opaque location: an absolute address, or a reference resolved against a base (`new Uri(base, href)`). */
  datatype Uri = Absolute(text: string) | Relative(base: Uri, reference: string)

  /** The character class `[(a-zA-Z0-9)]`: ASCII letters, digits and both parentheses. */
  predicate IsExtensionChar(c: char) {
    c == '(' || c == ')' || 'a' <= c <= 'z' || 'A' <= c <= 'Z' || '0' <= c <= '9'
  }

  /** `s` ends in a dot followed by exactly `k` extension characters, 1 <= k <= 3. */
  predicate EndsWithExtension(s: string, k: nat) {
    1 <= k <= 3 && k < |s| && s[|s| - k - 1] == '.' &&
    forall j | |s| - k <= j < |s| :: IsExtensionChar(s[j])
  }

  /** The number of extension characters after the final dot, or 0 when `s` has no short extension. */
  function ExtensionLength(s: string): (k: nat)
    ensures k == 0 || EndsWithExtension(s, k)
    ensures k == 0 ==> forall n :: !EndsWithExtension(s, n)
  {
    if EndsWithExtension(s, 1) then 1
    else if EndsWithExtension(s, 2) then 2
    else if EndsWithExtension(s, 3) then 3
    else 0
  }

  /** `s` without its short extension (dot included), when it ends in one. */
  function StripExtension(s: string): string {
    var k := ExtensionLength(s);
    if k == 0 then s else s[..|s| - k - 1]
  }

  /**
   * The derived title: the one match of the pattern is replaced by nothing. `\Z` also holds just before
   * a final line feed, so for a name ending in "\n" the extension before that line feed is removed.
   */
  function Title(fileName: string): string {
    var n := |fileName|;
    if n > 0 && fileName[n - 1] == '\n' then StripExtension(fileName[..n - 1]) + "\n"
    else StripExtension(fileName)
  }

  /**
   * Reference reading of the regular expression: it matches `s[i..e]` when `s[i]` is a dot, one to three
   * extension characters follow up to `e`, and `\Z` holds at `e` (the end, or before a final line feed).
   */
  predicate RegexMatch(s: string, i: int, e: int) {
    && 0 <= i < e <= |s|
    && s[i] == '.'
    && 2 <= e - i <= 4
    && (forall j | i < j < e :: IsExtensionChar(s[j]))
    && (e == |s| || (e == |s| - 1 && s[e] == '\n'))
  }

  /** The pattern matches at most once in any string, so "replace all" and "replace the match" agree. */
  lemma RegexMatchUnique(s: string, i1: int, e1: int, i2: int, e2: int)
    requires RegexMatch(s, i1, e1) && RegexMatch(s, i2, e2)
    ensures i1 == i2 && e1 == e2
  {
    assert IsExtensionChar(s[e1 - 1]) && IsExtensionChar(s[e2 - 1]);
    assert e1 == e2;
    assert forall j | i1 < j < e1 :: s[j] != '.';
    assert forall j | i2 < j < e2 :: s[j] != '.';
  }

  /** When the pattern matches `s[i..e]`, the title is `s` with exactly that slice removed. */
  lemma TitleOfMatch(s: string, i: int, e: int)
    requires RegexMatch(s, i, e)
    ensures Title(s) == s[..i] + s[e..]
  {
    var n := |s|;
    if e == n {
      assert IsExtensionChar(s[n - 1]);
      assert EndsWithExtension(s, e - i - 1);
      assert ExtensionLength(s) == e - i - 1;
    } else {
      var body := s[..n - 1];
      assert EndsWithExtension(body, e - i - 1);
      assert ExtensionLength(body) == e - i - 1;
      assert s[e..] == "\n";
    }
  }

  /** A short extension found by `ExtensionLength` is a match of the pattern, at the end or before a final line feed. */
  lemma ExtensionMatches(s: string)
    ensures ExtensionLength(s) != 0 ==> RegexMatch(s, |s| - ExtensionLength(s) - 1, |s|)
    ensures |s| > 0 && s[|s| - 1] == '\n' && ExtensionLength(s[..|s| - 1]) != 0 ==>
              RegexMatch(s, |s| - 2 - ExtensionLength(s[..|s| - 1]), |s| - 1)
  {
    var n := |s|;
    if n > 0 && s[n - 1] == '\n' {
      var body := s[..n - 1];
      assert forall j | 0 <= j < n - 1 :: body[j] == s[j];
    }
  }

  /** When the pattern matches nowhere, the title is the file name itself. */
  lemma TitleOfNoMatch(s: string)
    requires forall i, e :: !RegexMatch(s, i, e)
    ensures Title(s) == s
  {
    ExtensionMatches(s);
    var n := |s|;
    if n > 0 && s[n - 1] == '\n' {
      assert s[..n - 1] + "\n" == s;
    }
  }

  /** The title differs from the file name exactly when the pattern matches somewhere. */
  lemma TitleChangesIffMatch(s: string)
    ensures Title(s) != s <==> exists i, e :: RegexMatch(s, i, e)
  {
    if exists i, e :: RegexMatch(s, i, e) {
      var i, e :| RegexMatch(s, i, e);
      TitleOfMatch(s, i, e);
      assert |Title(s)| < |s|;
    } else {
      TitleOfNoMatch(s);
    }
  }

  /** A name `p + "." + t` with a one-to-three character extension `t` has title `p`. */
  lemma TitleStripsExtension(p: string, t: string)
    requires 1 <= |t| <= 3
    requires forall j | 0 <= j < |t| :: IsExtensionChar(t[j])
    ensures Title(p + "." + t) == p
  {
    var s := p + "." + t;
    assert forall j | |p| < j < |s| :: s[j] == t[j - |p| - 1];
    assert RegexMatch(s, |p|, |s|);
    TitleOfMatch(s, |p|, |s|);
    assert s[..|p|] == p;
  }

  /**
   * The title is at most four characters shorter than the file name; without a final line feed it is a
   * prefix of it, and with one it is a prefix followed by that line feed.
   */
  lemma TitleShape(s: string)
    ensures |s| - 4 <= |Title(s)| <= |s|
    ensures (|s| == 0 || s[|s| - 1] != '\n') ==> Title(s) <= s
    ensures (|s| > 0 && s[|s| - 1] == '\n') ==>
              Title(s)[|Title(s)| - 1] == '\n' && Title(s)[..|Title(s)| - 1] <= s
  {
  }

  /** Worked cases: only the final short extension goes, and parentheses count as extension characters. */
  lemma TitleStripExamples()
    ensures Title("Foo (USA).zip") == "Foo (USA)"
    ensures Title("A.B.zip") == "A.B"
    ensures Title("x.(1)") == "x"
  {
    assert "Foo (USA).zip" == "Foo (USA)" + "." + "zip";
    TitleStripsExtension("Foo (USA)", "zip");
    assert "A.B.zip" == "A.B" + "." + "zip";
    TitleStripsExtension("A.B", "zip");
    assert "x.(1)" == "x" + "." + "(1)";
    TitleStripsExtension("x", "(1)");
  }

  /** Worked cases: a long extension, an empty one, a non-class character or no dot leave the name as it is. */
  lemma TitleKeepExamples()
    ensures Title("Foo.jpeg") == "Foo.jpeg"
    ensures Title("Foo.") == "Foo."
    ensures Title("Foo.a-b") == "Foo.a-b"
    ensures Title("Foo") == "Foo"
  {
    assert !EndsWithExtension("Foo.jpeg", 1) && !EndsWithExtension("Foo.jpeg", 2) && !EndsWithExtension("Foo.jpeg", 3);
    assert !IsExtensionChar('.') && !IsExtensionChar('-');
  }

  /** Worked case: before a final line feed the extension is still removed and the line feed kept. */
  lemma TitleLineFeedExample()
    ensures Title("Foo.7z\n") == "Foo\n"
  {
    assert "Foo.7z\n"[..6] == "Foo" + "." + "7z";
    TitleStripsExtension("Foo", "7z");
  }

  /** A remote archive entry. `Downloaded` and `Unzipped` are settable by other code. */
  class MyrientMetadata {
    const uri: Uri
    const fileName: string
    const title: string
    var downloaded: bool
    var unzipped: bool

    /** Stores the location and name unchanged, derives the title, and starts with both flags clear. */
    constructor (uri: Uri, fileName: string)
      ensures this.uri == uri && this.fileName == fileName
      ensures title == Title(fileName)
      ensures !downloaded && !unzipped
    {
      this.uri := uri;
      this.fileName := fileName;
      title := Title(fileName);
      downloaded := false;
      unzipped := false;
    }
  }
}
