/**
 * The catalog resolver of MyrientDownloader/Services/Parser.cs, with page loading given as input:
 * find the catalog and system directories by title on successive listing pages, then key every
 * archive anchor of the system page by its derived title.
 */
module Parser {
  import opened Wrappers
  import opened Metadata
  import opened DatFile
  import Constants
  import Paths

  /** An `<a>` element of a listing page: its `title` and `href` attributes, either of which may be absent. */
  datatype Anchor = Anchor(title: Option<string>, href: Option<string>)

  /** What each page address loads to (HtmlWeb.Load), in document order. */
  type Pages = Uri -> seq<Anchor>

  /** What the resolver learns of one archive before its entry object is built. */
  datatype Listed = Listed(uri: Uri, fileName: string)

  /** The exceptions the resolver throws. */
  datatype ParseError =
    | NoMatchingAnchor                 // `First` found no anchor with the wanted title
    | HeaderError(error: DatError)     // reading `header.Catalog` threw
    | MissingHref                      // an anchor used for its address has no `href`
    | DuplicateKey(key: string)        // `ToDictionary` met a title twice

  /** The anchors that carry a title, in page order. */
  function Titled(page: seq<Anchor>): (r: seq<Anchor>)
    ensures forall a :: a in r <==> a in page && a.title.Some?
  {
    if page == [] then []
    else (if page[0].title.Some? then [page[0]] else []) + Titled(page[1..])
  }

  /** The first anchor titled `target`. */
  function FirstTitled(page: seq<Anchor>, target: string): (r: Result<Anchor, ParseError>)
    ensures r.Failure? <==> forall j | 0 <= j < |page| :: page[j].title != Some(target)
    ensures r.Failure? ==> r.error == NoMatchingAnchor
    ensures r.Success? ==> exists j | 0 <= j < |page| ::
              && page[j] == r.value
              && page[j].title == Some(target)
              && forall k | 0 <= k < j :: page[k].title != Some(target)
  {
    if page == [] then Failure(NoMatchingAnchor)
    else if page[0].title == Some(target) then Success(page[0])
    else
      var r := FirstTitled(page[1..], target);
      assert forall j | 1 <= j < |page| :: page[j] == page[1..][j - 1];
      r
  }

  /**
   * `.Where(has title).First(title == target)`: the target is computed on the first titled anchor,
   * so a target that throws fails only when the page has a titled anchor at all.
   */
  function SelectNode(page: seq<Anchor>, target: Result<string, DatError>): Result<Anchor, ParseError> {
    var titled := Titled(page);
    if titled == [] then Failure(NoMatchingAnchor)
    else if target.Failure? then Failure(HeaderError(target.error))
    else FirstTitled(titled, target.value)
  }

  /** The node chosen is the first anchor titled the target; resolution fails when there is none. */
  lemma SelectNodeFirstMatch(page: seq<Anchor>, target: string)
    ensures SelectNode(page, Success(target)).Failure? <==> forall a | a in page :: a.title != Some(target)
    ensures SelectNode(page, Success(target)).Success? ==> exists j | 0 <= j < |page| ::
              && page[j] == SelectNode(page, Success(target)).value
              && page[j].title == Some(target)
              && forall k | 0 <= k < j :: page[k].title != Some(target)
  {
    var t := Titled(page);
    FirstTitledIsFirst(page, target);
    if t != [] {
      assert SelectNode(page, Success(target)) == FirstTitled(t, target);
    } else {
      assert forall a | a in page :: a.title != Some(target);
    }
  }

  /** Searching only the titled anchors finds what searching the whole page would. */
  lemma {:induction false} FirstTitledIsFirst(page: seq<Anchor>, target: string)
    ensures FirstTitled(Titled(page), target) == FirstTitled(page, target)
  {
    if page != [] {
      FirstTitledIsFirst(page[1..], target);
      if page[0].title.Some? {
        assert Titled(page) == [page[0]] + Titled(page[1..]);
        assert Titled(page)[1..] == Titled(page[1..]);
      } else {
        assert Titled(page) == Titled(page[1..]);
      }
    }
  }

  /** A header whose catalog URL is unknown fails on any page that has a titled anchor. */
  lemma SelectNodeCatalogFailure(page: seq<Anchor>, h: Header)
    requires Catalog(h).Failure?
    ensures SelectNode(page, Catalog(h)).Failure?
  {
  }

  function Href(a: Anchor): Result<string, ParseError> {
    if a.href.Some? then Success(a.href.value) else Failure(MissingHref)
  }

  /** Anchors that name an archive: titled, and not the `.` or `..` navigation links. */
  function Kept(page: seq<Anchor>): (r: seq<Anchor>)
    ensures forall a :: a in r <==> a in page && a.title.Some? && a.title.value !in Constants.TitleFilters
    ensures |r| <= |page|
  {
    if page == [] then []
    else
      var a := page[0];
      (if a.title.Some? && a.title.value !in Constants.TitleFilters then [a] else []) + Kept(page[1..])
  }

  /** The dictionary key of a titled anchor. */
  function Key(a: Anchor): string
    requires a.title.Some?
  {
    Title(a.title.value)
  }

  predicate AllTitled(ks: seq<Anchor>) {
    forall j | 0 <= j < |ks| :: ks[j].title.Some?
  }

  predicate AllHref(ks: seq<Anchor>) {
    forall j | 0 <= j < |ks| :: ks[j].href.Some?
  }

  predicate DistinctKeys(ks: seq<Anchor>)
    requires AllTitled(ks)
  {
    forall j, k | 0 <= j < k < |ks| :: Key(ks[j]) != Key(ks[k])
  }

  function KeySet(ks: seq<Anchor>): set<string>
    requires AllTitled(ks)
  {
    set j | 0 <= j < |ks| :: Key(ks[j])
  }

  /** `Select(...).ToDictionary()`: adds the anchors in order, each under its key, failing on the first clash. */
  function ListFrom(base: Uri, ks: seq<Anchor>, acc: map<string, Listed>): Result<map<string, Listed>, ParseError>
    requires AllTitled(ks)
  {
    if ks == [] then Success(acc)
    else
      var a := ks[0];
      if a.href.None? then Failure(MissingHref)
      else if Key(a) in acc then Failure(DuplicateKey(Key(a)))
      else ListFrom(base, ks[1..], acc[Key(a) := Listed(Relative(base, a.href.value), a.title.value)])
  }

  function Listing(base: Uri, page: seq<Anchor>): Result<map<string, Listed>, ParseError> {
    var ks := Kept(page);
    assert AllTitled(ks) by { assert forall j | 0 <= j < |ks| :: ks[j] in ks; }
    ListFrom(base, ks, map[])
  }

  /** Building the dictionary succeeds exactly when every anchor has an address and no key repeats or is already present. */
  lemma {:induction false} ListFromSucceeds(base: Uri, ks: seq<Anchor>, acc: map<string, Listed>)
    requires AllTitled(ks)
    ensures ListFrom(base, ks, acc).Success? <==>
              AllHref(ks) && DistinctKeys(ks) && forall j | 0 <= j < |ks| :: Key(ks[j]) !in acc
  {
    if ks != [] {
      var a := ks[0];
      var rest := ks[1..];
      assert AllTitled(rest);
      assert forall j | 1 <= j < |ks| :: ks[j] == rest[j - 1];
      if a.href.None? {
        assert !AllHref(ks);
      } else if Key(a) in acc {
        assert Key(ks[0]) in acc;
      } else {
        var acc' := acc[Key(a) := Listed(Relative(base, a.href.value), a.title.value)];
        ListFromSucceeds(base, rest, acc');
        var novel' := forall j | 0 <= j < |rest| :: Key(rest[j]) !in acc';
        var novel := forall j | 0 <= j < |ks| :: Key(ks[j]) !in acc;
        assert AllHref(ks) <==> AllHref(rest);
        assert DistinctKeys(ks) <==> DistinctKeys(rest) && forall j | 0 <= j < |rest| :: Key(rest[j]) != Key(a) by {
          if DistinctKeys(rest) && forall j | 0 <= j < |rest| :: Key(rest[j]) != Key(a) {
            forall j, k | 0 <= j < k < |ks| ensures Key(ks[j]) != Key(ks[k]) {
              if j == 0 { assert Key(ks[k]) == Key(rest[k - 1]); }
              else { assert Key(ks[j]) == Key(rest[j - 1]) && Key(ks[k]) == Key(rest[k - 1]); }
            }
          }
          if DistinctKeys(ks) {
            forall j, k | 0 <= j < k < |rest| ensures Key(rest[j]) != Key(rest[k]) {
              assert Key(ks[j + 1]) != Key(ks[k + 1]);
            }
            forall j | 0 <= j < |rest| ensures Key(rest[j]) != Key(a) {
              assert Key(ks[0]) != Key(ks[j + 1]);
            }
          }
        }
        assert novel' <==> novel && forall j | 0 <= j < |rest| :: Key(rest[j]) != Key(a) by {
          if novel && forall j | 0 <= j < |rest| :: Key(rest[j]) != Key(a) {
            forall j | 0 <= j < |rest| ensures Key(rest[j]) !in acc' {
              assert Key(rest[j]) == Key(ks[j + 1]);
            }
          }
          if novel' {
            forall j | 0 <= j < |ks| ensures Key(ks[j]) !in acc {
              if j > 0 { assert Key(ks[j]) == Key(rest[j - 1]); }
            }
          }
        }
      }
    }
  }

  /** When building succeeds, each anchor gives exactly one entry, keyed by its title, holding its address and file name. */
  lemma {:induction false} ListFromContents(base: Uri, ks: seq<Anchor>, acc: map<string, Listed>)
    requires AllTitled(ks)
    requires ListFrom(base, ks, acc).Success?
    ensures AllHref(ks)
    ensures var m := ListFrom(base, ks, acc).value;
            && m.Keys == acc.Keys + KeySet(ks)
            && (forall k | k in acc :: m[k] == acc[k])
            && (forall j | 0 <= j < |ks| ::
                  m[Key(ks[j])] == Listed(Relative(base, ks[j].href.value), ks[j].title.value))
  {
    ListFromSucceeds(base, ks, acc);
    if ks == [] {
      assert KeySet(ks) == {};
    } else {
      var a := ks[0];
      var rest := ks[1..];
      assert AllTitled(rest);
      var acc' := acc[Key(a) := Listed(Relative(base, a.href.value), a.title.value)];
      ListFromContents(base, rest, acc');
      ListFromSucceeds(base, rest, acc');
      assert KeySet(ks) == {Key(a)} + KeySet(rest) by {
        forall k | k in KeySet(ks) ensures k in {Key(a)} + KeySet(rest) {
          var j :| 0 <= j < |ks| && k == Key(ks[j]);
          if j > 0 { assert k == Key(rest[j - 1]); }
        }
        forall k | k in KeySet(rest) ensures k in KeySet(ks) {
          var j :| 0 <= j < |rest| && k == Key(rest[j]);
          assert k == Key(ks[j + 1]);
        }
      }
      var m := ListFrom(base, ks, acc).value;
      forall j | 0 <= j < |ks|
        ensures m[Key(ks[j])] == Listed(Relative(base, ks[j].href.value), ks[j].title.value)
      {
        if j > 0 { assert ks[j] == rest[j - 1]; }
      }
    }
  }

  /** The dictionary has one entry per anchor: its size is the number of anchors added. */
  lemma {:induction false} ListFromSize(base: Uri, ks: seq<Anchor>, acc: map<string, Listed>)
    requires AllTitled(ks)
    requires ListFrom(base, ks, acc).Success?
    ensures |ListFrom(base, ks, acc).value| == |acc| + |ks|
  {
    if ks != [] {
      var a := ks[0];
      assert AllTitled(ks[1..]);
      var acc' := acc[Key(a) := Listed(Relative(base, a.href.value), a.title.value)];
      ListFromSize(base, ks[1..], acc');
    }
  }

  /**
   * The system page's dictionary: anchors without a title or titled `.` / `..` contribute nothing;
   * it fails on a repeated title; otherwise its keys are the kept anchors' titles, one entry each.
   */
  lemma ListingSpec(base: Uri, page: seq<Anchor>)
    ensures AllTitled(Kept(page))
    ensures Listing(base, page).Success? <==> AllHref(Kept(page)) && DistinctKeys(Kept(page))
    ensures Listing(base, page).Success? ==>
              var ks, m := Kept(page), Listing(base, page).value;
              && m.Keys == KeySet(ks)
              && |m| == |ks|
              && (forall j | 0 <= j < |ks| ::
                    m[Key(ks[j])] == Listed(Relative(base, ks[j].href.value), ks[j].title.value))
  {
    var ks := Kept(page);
    assert AllTitled(ks) by { assert forall j | 0 <= j < |ks| :: ks[j] in ks; }
    ListFromSucceeds(base, ks, map[]);
    if Listing(base, page).Success? {
      ListFromContents(base, ks, map[]);
      ListFromSize(base, ks, map[]);
    }
  }

  /** Two kept anchors with the same derived title make the dictionary fail. */
  lemma ListingDuplicateFails(base: Uri, page: seq<Anchor>, j: int, k: int)
    requires 0 <= j < k < |Kept(page)|
    requires Kept(page)[j].title.Some? && Kept(page)[k].title.Some?
    requires Key(Kept(page)[j]) == Key(Kept(page)[k])
    ensures Listing(base, page).Failure?
  {
    ListingSpec(base, page);
  }

  /**
   * The whole resolution, page loads given: the catalog node on the root page, the system node on the
   * catalog page, then the archive listing of the system page.
   */
  function SystemLocation(header: Header, pages: Pages): Result<Uri, ParseError> {
    var catalogNode :- SelectNode(pages(Absolute(Constants.MyrientUrl)), Catalog(header));
    var catalogHref :- Href(catalogNode);
    var catalogUri := Absolute(Paths.Join(Constants.MyrientUrl, catalogHref));
    var systemNode :- SelectNode(pages(catalogUri), Success(System(header)));
    var systemHref :- Href(systemNode);
    Success(Relative(catalogUri, systemHref))
  }

  function Resolve(header: Header, pages: Pages): Result<map<string, Listed>, ParseError> {
    var systemUri :- SystemLocation(header, pages);
    Listing(systemUri, pages(systemUri))
  }

  /**
   * GetMyrientRoms: resolves the system page and builds one new, unflagged entry object per kept
   * anchor, keyed by its title; the outcome and every entry agree with `Resolve`.
   */
  method GetMyrientRoms(header: Header, pages: Pages) returns (r: Result<map<string, MyrientMetadata>, ParseError>)
    ensures r.Success? <==> Resolve(header, pages).Success?
    ensures r.Failure? ==> r.error == Resolve(header, pages).error
    ensures r.Success? ==>
              var spec := Resolve(header, pages).value;
              && r.value.Keys == spec.Keys
              && forall k | k in r.value ::
                   && fresh(r.value[k])
                   && r.value[k].uri == spec[k].uri
                   && r.value[k].fileName == spec[k].fileName
                   && r.value[k].title == k
                   && !r.value[k].downloaded && !r.value[k].unzipped
    ensures r.Success? ==> forall k1, k2 | k1 in r.value && k2 in r.value && k1 != k2 :: r.value[k1] != r.value[k2]
  {
    var location := SystemLocation(header, pages);
    if location.Failure? {
      return Failure(location.error);
    }
    var systemUri := location.value;
    var ks := Kept(pages(systemUri));
    assert AllTitled(ks) by { assert forall j | 0 <= j < |ks| :: ks[j] in ks; }
    var roms: map<string, MyrientMetadata> := map[];
    ghost var spec: map<string, Listed> := map[];
    var i := 0;
    while i < |ks|
      invariant 0 <= i <= |ks|
      invariant ListFrom(systemUri, ks, map[]) == ListFrom(systemUri, ks[i..], spec)
      invariant roms.Keys == spec.Keys
      invariant forall k | k in roms ::
                  && fresh(roms[k])
                  && roms[k].uri == spec[k].uri && roms[k].fileName == spec[k].fileName
                  && roms[k].title == k
                  && !roms[k].downloaded && !roms[k].unzipped
      invariant forall k1, k2 | k1 in roms && k2 in roms && k1 != k2 :: roms[k1] != roms[k2]
    {
      var a := ks[i];
      assert ks[i..][1..] == ks[i + 1..];
      if a.href.None? {
        return Failure(MissingHref);
      }
      var key := Title(a.title.value);
      if key in roms {
        return Failure(DuplicateKey(key));
      }
      var rom := new MyrientMetadata(Relative(systemUri, a.href.value), a.title.value);
      roms := roms[key := rom];
      spec := spec[key := Listed(Relative(systemUri, a.href.value), a.title.value)];
      i := i + 1;
    }
    assert ks[i..] == [];
    return Success(roms);
  }
}
