/** The data tables of MyrientDownloader/Constants.cs. */
module Constants {

  /** Root of the remote file listing. */
  const MyrientUrl: string := "https://myrient.erista.me/files/"

  const NoIntroUrl: string := "https://www.no-intro.org"
  const RedumpUrl: string := "http://redump.org"

  /** Catalog table in insertion order: a manifest URL fragment and the catalog's display name. */
  const Catalogs: seq<(string, string)> := [(NoIntroUrl, "No-Intro"), (RedumpUrl, "Redump")]

  /** Listing titles that are navigation links, not archives. */
  const TitleFilters: seq<string> := [".", ".."]

  /** Fragments removed from a manifest's system name. */
  const SystemFilters: seq<string> := [" (Retool)"]
}
