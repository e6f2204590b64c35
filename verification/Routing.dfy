/**
 * The page router (index.py, display_page): the second '/'-separated part of
 * the pathname picks the layout; an empty part is the connectivity page, an
 * unknown one the '404' text, and a pathname without any '/' raises
 * IndexError.
 */
module Routing {
  import opened Wrappers
  import opened Urls
  import opened Navbar

  datatype Page = ConnectivityPage | FreedomPage | GenderPage | AboutPage | NotFound

  /** The layout a first path segment names. */
  function PageNamed(name: string): (p: Page)
    ensures p == NotFound <==> name !in {"/", "", "connectivity", "freedom", "gender", "about"}
    ensures p == ConnectivityPage <==> name in {"/", "", "connectivity"}
  {
    if name == "/" || name == "" then ConnectivityPage
    else if name == "connectivity" then ConnectivityPage
    else if name == "freedom" then FreedomPage
    else if name == "gender" then GenderPage
    else if name == "about" then AboutPage
    else NotFound
  }

  /** display_page. */
  function DisplayPage(pathname: string): (r: Result<Page>)
    ensures r.Err? <==> '/' !in pathname
    ensures r.Err? ==> r.error == IndexError
  {
    SplitParts(pathname);
    var parts := Split(pathname);
    if |parts| < 2 then Err(IndexError) else Ok(PageNamed(parts[1]))
  }

  /**
   * A pathname "/" + segment, optionally followed by "/" and more, opens the
   * page the segment names: the empty segment and "connectivity" the
   * connectivity page, the three other sections theirs, anything else 404.
   */
  lemma PageOfSegment(segment: string, tail: string)
    requires '/' !in segment
    requires tail == [] || tail[0] == '/'
    ensures DisplayPage("/" + segment + tail) == Ok(
      if segment == "" || segment == "connectivity" then ConnectivityPage
      else if segment == "freedom" then FreedomPage
      else if segment == "gender" then GenderPage
      else if segment == "about" then AboutPage
      else NotFound)
  {
    var p := "/" + segment + tail;
    assert p == "/" + (segment + tail);
    SplitWithoutSlash(segment, tail);
    assert p[0] == '/' && p[1..] == segment + tail;
    assert Split(tail)[0] == [];
    assert Split(p)[1] == segment;
  }

  /** The test for a segment equal to "/" can never succeed: no part of a split holds '/'. */
  lemma SlashSegmentUnreachable(pathname: string)
    ensures |Split(pathname)| >= 2 ==> Split(pathname)[1] != "/"
  {
    SplitParts(pathname);
    if |Split(pathname)| >= 2 {
      assert '/' in "/";
    }
  }

  /** Every link of the navigation bar opens the page of its section. */
  lemma NavHrefsRoute(country: string)
    requires |country| >= 3
    ensures DisplayPage(NavHrefs(country)[0]) == Ok(ConnectivityPage)
    ensures DisplayPage(NavHrefs(country)[1]) == Ok(FreedomPage)
    ensures DisplayPage(NavHrefs(country)[2]) == Ok(GenderPage)
  {
    NavHrefsSections(country);
    HrefParts("connectivity", country);
    HrefParts("freedom", country);
    HrefParts("gender", country);
  }

  /** The pathname used for a too-short address opens the connectivity page. */
  lemma DefaultPathnameRoute(pathname: string)
    requires |pathname| < 5
    ensures DisplayPage(GeneratePathname(pathname)) == Ok(ConnectivityPage)
  {
    DefaultPathnameParts();
    var tail := "/" + "Afghanistan";
    assert "/" + "connectivity" + "/" + "Afghanistan" == "/" + "connectivity" + tail;
    PageOfSegment("connectivity", tail);
  }
}
