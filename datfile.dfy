/**
 * The manifest records of MyrientDownloader/Interfaces/DatFile.cs and their computed getters:
 * the system name with filter fragments removed, the catalog chosen by URL, and a ROM's CRC parsed
 * from hexadecimal text.
 */
module DatFile {
  import opened Wrappers
  import Constants

  /** .NET's `uint`. */
  newtype uint32 = x: int | 0 <= x < 0x1_0000_0000

  /** The manifest header: the raw `name` and `url` elements. */
  datatype Header = Header(systemString: string, catalogString: string)

  /** One file expected inside an archive: its name and its CRC as written in the manifest. */
  datatype Rom = Rom(fileName: string, crcString: string)

  /** One wanted archive: its display name and the files it must contain, in manifest order. */
  datatype Game = Game(name: string, roms: seq<Rom>)

  /** A whole manifest. */
  datatype DatFile = DatFile(header: Header, games: seq<Game>)

  /** The exceptions the getters throw. */
  datatype DatError =
    | UnknownCatalog        // `First` found no catalog key in the URL
    | CrcFormat             // `uint.Parse` met a character outside its grammar
    | CrcOverflow           // `uint.Parse` read a value above 0xFFFFFFFF

  // ---------------------------------------------------------------------------------------------
  // String.Replace(fragment, "") and String.Contains (ordinal)

  predicate OccursAt(s: string, pat: string, i: int) {
    0 <= i && i + |pat| <= |s| && s[i..i + |pat|] == pat
  }

  predicate Contains(s: string, pat: string) {
    exists i | 0 <= i <= |s| - |pat| :: OccursAt(s, pat, i)
  }

  /** Scans left to right, dropping each occurrence of `pat` and resuming right after it. */
  function RemoveAll(s: string, pat: string): string
    requires |pat| > 0
    decreases |s|
  {
    if |s| < |pat| then s
    else if s[..|pat|] == pat then RemoveAll(s[|pat|..], pat)
    else [s[0]] + RemoveAll(s[1..], pat)
  }

  /** The number of occurrences that scan removes. */
  function Occurrences(s: string, pat: string): nat
    requires |pat| > 0
    decreases |s|
  {
    if |s| < |pat| then 0
    else if s[..|pat|] == pat then 1 + Occurrences(s[|pat|..], pat)
    else Occurrences(s[1..], pat)
  }

  /** Every removed occurrence shortens the string by the fragment's length, and nothing else is lost. */
  lemma {:induction false} RemoveAllLength(s: string, pat: string)
    requires |pat| > 0
    ensures |RemoveAll(s, pat)| == |s| - |pat| * Occurrences(s, pat)
    decreases |s|
  {
    var n := |pat|;
    if |s| < n {
    } else if s[..n] == pat {
      var rest := s[n..];
      RemoveAllLength(rest, pat);
      var o := Occurrences(rest, pat);
      calc {
        |RemoveAll(s, pat)|;
        |RemoveAll(rest, pat)|;
        |rest| - n * o;
        |s| - (n + n * o);
        { MulSucc(n, o); }
        |s| - n * (1 + o);
        |s| - n * Occurrences(s, pat);
      }
    } else {
      RemoveAllLength(s[1..], pat);
      assert |RemoveAll(s, pat)| == 1 + |RemoveAll(s[1..], pat)|;
    }
  }

  lemma MulSucc(n: int, o: int)
    ensures n * (1 + o) == n + n * o
  {
  }

  lemma OccursAtShift(s: string, pat: string, i: int)
    requires |s| > 0 && 0 <= i
    ensures OccursAt(s[1..], pat, i) <==> OccursAt(s, pat, i + 1)
  {
    if i + |pat| <= |s[1..]| {
      assert s[1..][i..i + |pat|] == s[i + 1..i + 1 + |pat|];
    }
  }

  /** The scan removes nothing exactly when the fragment occurs nowhere. */
  lemma {:induction false} OccurrencesZeroIff(s: string, pat: string)
    requires |pat| > 0
    ensures Occurrences(s, pat) == 0 <==> !Contains(s, pat)
    decreases |s|
  {
    if |s| < |pat| {
      assert forall i :: !OccursAt(s, pat, i);
    } else if s[..|pat|] == pat {
      assert OccursAt(s, pat, 0);
    } else {
      OccurrencesZeroIff(s[1..], pat);
      forall i | 0 <= i ensures OccursAt(s[1..], pat, i) <==> OccursAt(s, pat, i + 1) {
        OccursAtShift(s, pat, i);
      }
      if Contains(s, pat) {
        var i :| 0 <= i <= |s| - |pat| && OccursAt(s, pat, i);
        assert i != 0;
        OccursAtShift(s, pat, i - 1);
        assert OccursAt(s[1..], pat, i - 1);
      }
      if Contains(s[1..], pat) {
        var i :| 0 <= i <= |s[1..]| - |pat| && OccursAt(s[1..], pat, i);
        OccursAtShift(s, pat, i);
        assert OccursAt(s, pat, i + 1);
      }
    }
  }

  lemma {:induction false} RemoveAllNone(s: string, pat: string)
    requires |pat| > 0 && Occurrences(s, pat) == 0
    ensures RemoveAll(s, pat) == s
    decreases |s|
  {
    if |s| >= |pat| && s[..|pat|] != pat {
      RemoveAllNone(s[1..], pat);
    }
  }

  /** Removing leaves the string as it is exactly when the fragment does not occur in it. */
  lemma RemoveAllIdentity(s: string, pat: string)
    requires |pat| > 0
    ensures RemoveAll(s, pat) == s <==> !Contains(s, pat)
  {
    OccurrencesZeroIff(s, pat);
    RemoveAllLength(s, pat);
    if Occurrences(s, pat) == 0 {
      RemoveAllNone(s, pat);
    }
  }

  /**
   * Left to right: when the first occurrence starts right after `a`, the scan keeps `a`, drops that
   * occurrence and continues on what follows it.
   */
  lemma {:induction false} RemoveAllFirst(a: string, pat: string, b: string)
    requires |pat| > 0
    requires forall i | 0 <= i < |a| :: !OccursAt(a + pat + b, pat, i)
    ensures RemoveAll(a + pat + b, pat) == a + RemoveAll(b, pat)
    decreases |a|
  {
    var s := a + pat + b;
    if |a| == 0 {
      assert s == pat + b;
      assert s[..|pat|] == pat;
      assert s[|pat|..] == b;
    } else {
      var t := a[1..] + pat + b;
      assert s[1..] == t;
      assert s[0] == a[0];
      assert |s| >= |pat| && s[..|pat|] != pat by {
        assert !OccursAt(s, pat, 0);
      }
      assert RemoveAll(s, pat) == [a[0]] + RemoveAll(t, pat);
      forall i | 0 <= i < |a[1..]| ensures !OccursAt(t, pat, i) {
        OccursAtShift(s, pat, i);
      }
      RemoveAllFirst(a[1..], pat, b);
      assert [a[0]] + a[1..] == a;
    }
  }

  // ---------------------------------------------------------------------------------------------
  // Header.System

  predicate NonEmptyAll(filters: seq<string>) {
    forall k | 0 <= k < |filters| :: |filters[k]| > 0
  }

  /** `Aggregate` over the filters: each is removed in turn from what the previous ones left. */
  function ApplyFilters(s: string, filters: seq<string>): string
    requires NonEmptyAll(filters)
    decreases |filters|
  {
    if filters == [] then s else ApplyFilters(RemoveAll(s, filters[0]), filters[1..])
  }

  function System(h: Header): string {
    ApplyFilters(h.systemString, Constants.SystemFilters)
  }

  /** With the one configured filter, the system is the name with every " (Retool)" removed. */
  lemma SystemRemovesRetool(h: Header)
    ensures System(h) == RemoveAll(h.systemString, " (Retool)")
    ensures |System(h)| == |h.systemString| - 9 * Occurrences(h.systemString, " (Retool)")
    ensures System(h) == h.systemString <==> !Contains(h.systemString, " (Retool)")
  {
    assert Constants.SystemFilters[1..] == [];
    RemoveAllLength(h.systemString, " (Retool)");
    RemoveAllIdentity(h.systemString, " (Retool)");
  }

  /** Worked case: a retooled manifest names the plain system. */
  lemma SystemExample()
    ensures System(Header("Nintendo - Game Boy (Retool)", "")) == "Nintendo - Game Boy"
  {
    var name := "Nintendo - Game Boy";
    var s := name + " (Retool)" + "";
    assert s == "Nintendo - Game Boy (Retool)";
    assert forall j | 0 <= j < |name| :: name[j] != '(';
    forall i | 0 <= i < |name| ensures !OccursAt(s, " (Retool)", i) {
      assert s[i + 1] != '(';
      if i + 9 <= |s| {
        assert s[i..i + 9][1] == s[i + 1];
      }
    }
    RemoveAllFirst(name, " (Retool)", "");
    SystemRemovesRetool(Header("Nintendo - Game Boy (Retool)", ""));
  }

  // ---------------------------------------------------------------------------------------------
  // Header.Catalog

  /** The value of the first table key that occurs in `url`, in table order. */
  function FirstCatalog(table: seq<(string, string)>, url: string): (r: Result<string, DatError>)
    ensures r.Failure? <==> forall j | 0 <= j < |table| :: !Contains(url, table[j].0)
    ensures r.Success? ==> exists j | 0 <= j < |table| ::
              && Contains(url, table[j].0)
              && (forall k | 0 <= k < j :: !Contains(url, table[k].0))
              && r.value == table[j].1
    ensures r.Failure? ==> r.error == UnknownCatalog
  {
    if table == [] then Failure(UnknownCatalog)
    else if Contains(url, table[0].0) then Success(table[0].1)
    else
      var rest := FirstCatalog(table[1..], url);
      assert forall j | 1 <= j < |table| :: table[j] == table[1..][j - 1];
      rest
  }

  function Catalog(h: Header): Result<string, DatError> {
    FirstCatalog(Constants.Catalogs, h.catalogString)
  }

  /** A no-intro URL selects "No-Intro", the redump URL selects "Redump". */
  lemma CatalogExamples(path: string)
    ensures Catalog(Header("", Constants.NoIntroUrl + path)) == Success("No-Intro")
    ensures Catalog(Header("", Constants.RedumpUrl)) == Success("Redump")
  {
    assert OccursAt(Constants.NoIntroUrl + path, Constants.NoIntroUrl, 0);
    assert OccursAt(Constants.RedumpUrl, Constants.RedumpUrl, 0);
    assert |Constants.RedumpUrl| == 17 && |Constants.NoIntroUrl| == 24;
    assert !Contains(Constants.RedumpUrl, Constants.NoIntroUrl);
    assert Constants.Catalogs[0].0 == Constants.NoIntroUrl;
    assert Constants.Catalogs[1..] == [(Constants.RedumpUrl, "Redump")];
    assert Contains(Constants.RedumpUrl, Constants.RedumpUrl);
    assert FirstCatalog(Constants.Catalogs[1..], Constants.RedumpUrl) == Success("Redump");
  }

  // ---------------------------------------------------------------------------------------------
  // Rom.Crc: uint.Parse(CrcString, NumberStyles.HexNumber, CultureInfo.InvariantCulture)

  /** White space that NumberStyles.AllowLeadingWhite / AllowTrailingWhite accept. */
  predicate IsNumberWhite(c: char) {
    c == ' ' || '\t' <= c <= '\r'
  }

  predicate IsNul(c: char) {
    c == '\0'
  }

  predicate IsHexDigit(c: char) {
    '0' <= c <= '9' || 'a' <= c <= 'f' || 'A' <= c <= 'F'
  }

  predicate AllHex(d: string) {
    forall j | 0 <= j < |d| :: IsHexDigit(d[j])
  }

  predicate All(s: string, p: char -> bool) {
    forall j | 0 <= j < |s| :: p(s[j])
  }

  function HexDigitValue(c: char): (v: nat)
    requires IsHexDigit(c)
    ensures v < 16
  {
    if '0' <= c <= '9' then (c as int) - ('0' as int)
    else if 'a' <= c <= 'f' then (c as int) - ('a' as int) + 10
    else (c as int) - ('A' as int) + 10
  }

  /** The value of a hexadecimal digit string, most significant digit first. */
  function HexValue(d: string): nat
    requires AllHex(d)
  {
    if d == [] then 0 else HexValue(d[..|d| - 1]) * 16 + HexDigitValue(d[|d| - 1])
  }

  function TrimStart(s: string, p: char -> bool): string {
    if |s| > 0 && p(s[0]) then TrimStart(s[1..], p) else s
  }

  function TrimEnd(s: string, p: char -> bool): string {
    if |s| > 0 && p(s[|s| - 1]) then TrimEnd(s[..|s| - 1], p) else s
  }

  /** The digits `uint.Parse` reads: trailing NULs, then trailing and leading white space are skipped. */
  function Digits(s: string): string {
    TrimStart(TrimEnd(TrimEnd(s, IsNul), IsNumberWhite), IsNumberWhite)
  }

  function ParseHex(s: string): Result<uint32, DatError> {
    var d := Digits(s);
    if d == [] || !AllHex(d) then Failure(CrcFormat)
    else if HexValue(d) > 0xFFFF_FFFF then Failure(CrcOverflow)
    else Success(HexValue(d) as uint32)
  }

  function Crc(rom: Rom): Result<uint32, DatError> {
    ParseHex(rom.crcString)
  }

  lemma {:induction false} TrimStartOf(x: string, y: string, p: char -> bool)
    requires All(x, p)
    requires y == [] || !p(y[0])
    ensures TrimStart(x + y, p) == y
    decreases |x|
  {
    if x == [] {
      assert x + y == y;
    } else {
      assert (x + y)[1..] == x[1..] + y;
      TrimStartOf(x[1..], y, p);
    }
  }

  lemma {:induction false} TrimEndOf(x: string, y: string, p: char -> bool)
    requires All(y, p)
    requires x == [] || !p(x[|x| - 1])
    ensures TrimEnd(x + y, p) == x
    decreases |y|
  {
    if y == [] {
      assert x + y == x;
    } else {
      assert (x + y)[..|x + y| - 1] == x + y[..|y| - 1];
      TrimEndOf(x, y[..|y| - 1], p);
    }
  }

  lemma {:induction false} TrimStartSplit(s: string, p: char -> bool)
    ensures exists x :: All(x, p) && s == x + TrimStart(s, p)
    ensures var t := TrimStart(s, p); t == [] || !p(t[0])
    decreases |s|
  {
    if |s| > 0 && p(s[0]) {
      TrimStartSplit(s[1..], p);
      var x :| All(x, p) && s[1..] == x + TrimStart(s[1..], p);
      assert All([s[0]] + x, p) && s == ([s[0]] + x) + TrimStart(s, p);
    } else {
      assert All([], p) && s == [] + s;
    }
  }

  lemma {:induction false} TrimEndSplit(s: string, p: char -> bool)
    ensures exists y :: All(y, p) && s == TrimEnd(s, p) + y
    ensures var t := TrimEnd(s, p); t == [] || !p(t[|t| - 1])
    decreases |s|
  {
    if |s| > 0 && p(s[|s| - 1]) {
      TrimEndSplit(s[..|s| - 1], p);
      var y :| All(y, p) && s[..|s| - 1] == TrimEnd(s[..|s| - 1], p) + y;
      assert All(y + [s[|s| - 1]], p) && s == TrimEnd(s, p) + (y + [s[|s| - 1]]);
    } else {
      assert All([], p) && s == s + [];
    }
  }

  /** The text `uint.Parse` accepts: white space, hexadecimal digits, white space, NULs, and the value it gives. */
  predicate HexGrammar(s: string, lead: string, digits: string, trail: string, nuls: string) {
    && s == lead + digits + trail + nuls
    && All(lead, IsNumberWhite) && All(trail, IsNumberWhite) && All(nuls, IsNul)
    && |digits| > 0 && AllHex(digits)
  }

  /**
   * Parsing succeeds exactly on text of that grammar whose digits denote at most 0xFFFFFFFF, and
   * yields that value; digits alone, any case, with nothing else, are read the same way.
   */
  lemma ParseHexGrammar(s: string, lead: string, digits: string, trail: string, nuls: string)
    requires HexGrammar(s, lead, digits, trail, nuls)
    ensures Digits(s) == digits
    ensures ParseHex(s) == if HexValue(digits) <= 0xFFFF_FFFF then Success(HexValue(digits) as uint32)
                           else Failure(CrcOverflow)
  {
    assert s == (lead + digits + trail) + nuls;
    assert !IsNul(digits[|digits| - 1]);
    assert (lead + digits + trail) == [] || !IsNul((lead + digits + trail)[|lead + digits + trail| - 1]) by {
      if trail != [] {
        assert (lead + digits + trail)[|lead + digits + trail| - 1] == trail[|trail| - 1];
      } else {
        assert lead + digits + trail == lead + digits;
      }
    }
    TrimEndOf(lead + digits + trail, nuls, IsNul);
    assert (lead + digits) + trail == lead + digits + trail;
    assert (lead + digits)[|lead + digits| - 1] == digits[|digits| - 1];
    TrimEndOf(lead + digits, trail, IsNumberWhite);
    TrimStartOf(lead, digits, IsNumberWhite);
  }

  /** Every successful parse comes from text of that grammar: anything else is a format error. */
  lemma ParseHexOnlyGrammar(s: string) returns (lead: string, digits: string, trail: string, nuls: string)
    requires ParseHex(s).Success?
    ensures HexGrammar(s, lead, digits, trail, nuls)
    ensures ParseHex(s).value as int == HexValue(digits)
  {
    var a := TrimEnd(s, IsNul);
    var b := TrimEnd(a, IsNumberWhite);
    TrimEndSplit(s, IsNul);
    nuls :| All(nuls, IsNul) && s == a + nuls;
    TrimEndSplit(a, IsNumberWhite);
    trail :| All(trail, IsNumberWhite) && a == b + trail;
    TrimStartSplit(b, IsNumberWhite);
    lead :| All(lead, IsNumberWhite) && b == lead + TrimStart(b, IsNumberWhite);
    digits := Digits(s);
  }

  function HexDigitChar(n: nat, upper: bool): (c: char)
    requires n < 16
    ensures IsHexDigit(c) && HexDigitValue(c) == n
  {
    if n < 10 then ('0' as int + n) as char
    else if upper then ('A' as int + n - 10) as char
    else ('a' as int + n - 10) as char
  }

  /** `v` as exactly `width` hexadecimal digits, leading zeros included. */
  function ToHex(v: nat, width: nat, upper: bool): (d: string)
    ensures |d| == width && AllHex(d)
  {
    if width == 0 then [] else ToHex(v / 16, width - 1, upper) + [HexDigitChar(v % 16, upper)]
  }

  function Pow16(n: nat): nat {
    if n == 0 then 1 else 16 * Pow16(n - 1)
  }

  lemma {:induction false} ToHexValue(v: nat, width: nat, upper: bool)
    requires v < Pow16(width)
    ensures HexValue(ToHex(v, width, upper)) == v
  {
    if width > 0 {
      ToHexValue(v / 16, width - 1, upper);
      var d := ToHex(v, width, upper);
      assert d[..|d| - 1] == ToHex(v / 16, width - 1, upper);
    }
  }

  /** The 8-digit rendering of a CRC, in either case, parses back to that CRC. */
  lemma ParseHexRoundTrip(v: uint32, upper: bool)
    ensures ParseHex(ToHex(v as nat, 8, upper)) == Success(v)
  {
    var d := ToHex(v as nat, 8, upper);
    assert Pow16(8) == 0x1_0000_0000;
    ToHexValue(v as nat, 8, upper);
    assert HexGrammar(d, [], d, [], []) by {
      assert d == [] + d + [] + [];
    }
    ParseHexGrammar(d, [], d, [], []);
  }

  /** A hexadecimal prefix is a format error. */
  lemma ParseHexRejectsPrefix()
    ensures ParseHex("0x1F") == Failure(CrcFormat)
  {
    var x := "0x1F";
    assert TrimEnd(x, IsNul) == x;
    assert TrimEnd(x, IsNumberWhite) == x;
    assert TrimStart(x, IsNumberWhite) == x;
    assert !IsHexDigit(x[1]);
  }

  /** Empty or blank text is a format error. */
  lemma ParseHexRejectsBlank()
    ensures ParseHex("") == Failure(CrcFormat)
    ensures ParseHex(" ") == Failure(CrcFormat)
  {
    assert TrimEnd(" ", IsNul) == " ";
    assert TrimEnd(" ", IsNumberWhite) == "";
  }
}
