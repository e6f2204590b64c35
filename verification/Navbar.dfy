/**
 * The navigation bar (apps/navbar.py): the country part of a link, the
 * pathname used when the address is too short, the three section links
 * shown for a selected country, and the country the dropdown shows for a
 * pathname. The page itself (images, dropdown options, markup) is not part
 * of this model; the links are kept as their href strings.
 */
module Navbar {
  import opened Wrappers
  import opened Urls

  /** all_countries: a copy of the country list. */
  function AllCountries(countries: seq<string>): (all: seq<string>)
    ensures all == countries
  {
    seq(|countries|, i requires 0 <= i < |countries| => countries[i])
  }

  /** countryParam: "/" and the quote_plus'd country, or "" for the empty country. */
  function CountryParam(country: string): (p: string)
    ensures p == "" <==> country == ""
    ensures p != "" ==> p[0] == '/' && '/' !in p[1..]
  {
    QuotePlusNoSlash(country);
    if |country| > 0 then "/" + QuotePlus(country) else ""
  }

  /** generatePathname: a pathname shorter than five characters becomes the Afghanistan connectivity page. */
  function GeneratePathname(pathname: string): (r: string)
    ensures |r| >= 5
    ensures |pathname| >= 5 ==> r == pathname
    ensures |pathname| < 5 ==> r == "/connectivity/Afghanistan"
  {
    if |pathname| < 5 then "/connectivity/Afghanistan" else pathname
  }

  /**
   * generateNavButtons as the hrefs of its buttons, in order: none (the
   * empty string the source returns) for a country name shorter than three
   * characters, else the connectivity, freedom and gender links.
   */
  function NavHrefs(country: string): (hrefs: seq<string>)
    ensures |country| < 3 <==> hrefs == []
    ensures hrefs != [] ==> |hrefs| == 3
  {
    if |country| < 3 then []
    else ["/connectivity" + CountryParam(country), "/freedom" + CountryParam(country), "/gender" + CountryParam(country)]
  }

  /**
   * update_navbar: the buttons for the dropdown's value. The dropdown can be
   * cleared, which passes None, and len(None) raises TypeError.
   */
  function UpdateNavbar(selected: Option<string>): (r: Result<seq<string>>)
    ensures r.Err? <==> selected.None?
    ensures r.Err? ==> r.error == TypeError
    ensures r.Ok? ==> r.value == NavHrefs(selected.value)
    ensures r.Ok? ==> (r.value == [] <==> |selected.value| < 3) && (r.value != [] ==> |r.value| == 3)
  {
    match selected
    case None => Err(TypeError)
    case Some(country) => Ok(NavHrefs(country))
  }

  /**
   * update_country_dropdown: the country the dropdown is set to. With fewer
   * than three '/'-separated parts it is the first country (IndexError for an
   * empty list); otherwise the third part with '+' turned into spaces and
   * unquoted, when it is a known country, and UnboundLocalError when it is
   * empty or unknown, since the variable is then never assigned.
   */
  function DropdownCountry(pathname: string, countries: seq<string>): (r: Result<string>)
    ensures r.Ok? ==> r.value in countries
    ensures r.Err? ==> r.error == IndexError || r.error == UnboundLocalError
    ensures r == Err(IndexError) <==> |Split(pathname)| < 3 && countries == []
  {
    var parts := Split(pathname);
    if |parts| < 3 then
      if |countries| == 0 then Err(IndexError) else Ok(countries[0])
    else
      var name := Unquote(PlusToSpace(parts[2]));
      if name != "" && name in countries then Ok(name) else Err(UnboundLocalError)
  }

  /** A section link splits into the empty part, the section and the quoted country. */
  lemma HrefParts(section: string, country: string)
    requires '/' !in section && country != ""
    ensures Split("/" + section + CountryParam(country)) == ["", section, QuotePlus(country)]
  {
    QuotePlusNoSlash(country);
    SplitTwoSegments(section, QuotePlus(country));
    assert "/" + section + CountryParam(country) == "/" + section + "/" + QuotePlus(country);
  }

  /** The three links, each as "/" + its section + the country parameter. */
  lemma NavHrefsSections(country: string)
    requires |country| >= 3
    ensures NavHrefs(country)[0] == "/" + "connectivity" + CountryParam(country)
    ensures NavHrefs(country)[1] == "/" + "freedom" + CountryParam(country)
    ensures NavHrefs(country)[2] == "/" + "gender" + CountryParam(country)
  {
    assert "/connectivity" == "/" + "connectivity";
    assert "/freedom" == "/" + "freedom";
    assert "/gender" == "/" + "gender";
  }

  /**
   * Following any link of the navigation bar sets the dropdown back to the
   * country it was made for, whatever characters the name holds.
   */
  lemma NavHrefsRoundTrip(country: string, countries: seq<string>, i: nat)
    requires country in countries && |country| >= 3
    requires i < 3
    ensures DropdownCountry(NavHrefs(country)[i], countries) == Ok(country)
  {
    var section := ["connectivity", "freedom", "gender"][i];
    NavHrefsSections(country);
    HrefParts(section, country);
    UnquoteQuotePlus(country);
  }

  /** A path "/section/name" whose name needs no unquoting shows that name when it is a known country. */
  lemma PlainSegmentCountry(section: string, name: string, countries: seq<string>)
    requires '/' !in section && '/' !in name && '+' !in name && '%' !in name
    ensures DropdownCountry("/" + section + "/" + name, countries)
      == if name != "" && name in countries then Ok(name) else Err(UnboundLocalError)
  {
    SplitTwoSegments(section, name);
    assert PlusToSpace(name) == name;
  }

  /** The default pathname as its two segments, neither of which holds '/', '+' or '%'. */
  lemma DefaultPathnameParts()
    ensures "/connectivity/Afghanistan" == "/" + "connectivity" + "/" + "Afghanistan"
    ensures '/' !in "connectivity" && '/' !in "Afghanistan" && '+' !in "Afghanistan" && '%' !in "Afghanistan"
  {
  }

  /** A too-short pathname shows Afghanistan when it is a known country, and raises otherwise. */
  lemma DefaultPathnameCountry(pathname: string, countries: seq<string>)
    requires |pathname| < 5
    ensures "Afghanistan" in countries ==> DropdownCountry(GeneratePathname(pathname), countries) == Ok("Afghanistan")
    ensures "Afghanistan" !in countries ==> DropdownCountry(GeneratePathname(pathname), countries) == Err(UnboundLocalError)
  {
    DefaultPathnameParts();
    PlainSegmentCountry("connectivity", "Afghanistan", countries);
  }

  /** A section path without a country (such as "/freedom") shows the first country. */
  lemma SectionWithoutCountry(section: string, countries: seq<string>)
    requires '/' !in section
    ensures DropdownCountry("/" + section, countries) ==
      if countries == [] then Err(IndexError) else Ok(countries[0])
  {
    var parts := ["", section];
    assert parts[1..] == [section];
    assert "/" + section == Join(parts);
    SplitJoin(parts);
  }
}
