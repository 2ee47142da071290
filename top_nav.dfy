/** Highlighting the current page in the top navigation: every link to a
    page (an address ending in `.html` or `/`) is given the active style when
    it names the same file as the address bar, and the inactive style
    otherwise; other links are left alone. */
module TopNav {
  import opened Dom
  import opened FileNames

  /** The class a link carries when it is shown in the mobile menu. */
  const MobileMarker: string := "block"

  const ActiveClasses: set<string> := {"bg-health-blue", "text-white"}
  const InactiveClasses: set<string> := {"text-gray-700", "hover:text-health-blue", "hover:bg-gray-100"}

  /** The active style, chosen on whether the link is a mobile one; the two
      arms are written out separately, as the site does, and are equal. */
  function ActiveClassesFor(isMobile: bool): set<string>
  {
    if isMobile then {"bg-health-blue", "text-white"} else {"bg-health-blue", "text-white"}
  }

  function InactiveClassesFor(isMobile: bool): set<string>
  {
    if isMobile then {"text-gray-700", "hover:text-health-blue", "hover:bg-gray-100"}
    else {"text-gray-700", "hover:text-health-blue", "hover:bg-gray-100"}
  }

  /** The mobile choice makes no difference to either style. */
  lemma MobileMakesNoDifference(isMobile: bool)
    ensures ActiveClassesFor(isMobile) == ActiveClasses
    ensures InactiveClassesFor(isMobile) == InactiveClasses
  {
  }

  /** A link the rule touches: its address ends in `.html` or `/`. */
  predicate IsPageLink(href: string)
  {
    EndsWith(href, ".html") || EndsWith(href, "/")
  }

  /** The class list of a link with address `href` after the rule has run,
      for the current page's file name `currentPage`. */
  function Restyle(href: string, classes: set<string>, currentPage: string): set<string>
  {
    if !IsPageLink(href) then classes
    else
      var isMobile := MobileMarker in classes;
      var active := ActiveClassesFor(isMobile);
      var inactive := InactiveClassesFor(isMobile);
      var cleared := classes - active - inactive;
      if GetFileName(href) == currentPage then cleared + active else cleared + inactive
  }

  /** What the rule promises: other links keep their classes; a touched
      link has every active class and no inactive one when it names the
      current page, and the reverse otherwise; classes outside both styles
      are kept. */
  lemma RestyleEffect(href: string, classes: set<string>, currentPage: string)
    ensures var r := Restyle(href, classes, currentPage);
      (!IsPageLink(href) ==> r == classes) &&
      (IsPageLink(href) && GetFileName(href) == currentPage ==>
        ActiveClasses <= r && r !! InactiveClasses) &&
      (IsPageLink(href) && GetFileName(href) != currentPage ==>
        InactiveClasses <= r && r !! ActiveClasses) &&
      r - (ActiveClasses + InactiveClasses) == classes - (ActiveClasses + InactiveClasses)
  {
  }

  /** Running the rule a second time changes nothing. */
  lemma RestyleIdempotent(href: string, classes: set<string>, currentPage: string)
    ensures Restyle(href, Restyle(href, classes, currentPage), currentPage)
         == Restyle(href, classes, currentPage)
  {
    var once := Restyle(href, classes, currentPage);
    if IsPageLink(href) {
      assert (MobileMarker in once) == (MobileMarker in classes);
    }
  }

  /** A touched link is active exactly when it names the current page: it
      then has every active class and no inactive one. */
  lemma ActiveIffCurrentPage(href: string, classes: set<string>, currentPage: string)
    requires IsPageLink(href)
    ensures var r := Restyle(href, classes, currentPage);
      (ActiveClasses <= r && r !! InactiveClasses) <==> GetFileName(href) == currentPage
  {
    var r := Restyle(href, classes, currentPage);
    RestyleEffect(href, classes, currentPage);
    if GetFileName(href) != currentPage {
      assert "text-gray-700" in r && "text-gray-700" in InactiveClasses;
    }
  }

  /** `link.href` of a link to the site root resolves to an address ending in
      `/`. When the address bar shows that root followed by a fragment, the
      current page's name is empty, so the root link is styled inactive. */
  lemma RootLinkOnRootWithFragment(root: string, classes: set<string>, fragment: string)
    requires root != [] && root[|root| - 1] == '/'
    requires '/' !in fragment
    ensures var r := Restyle(root, classes, GetFileName(root + ['#'] + fragment));
      InactiveClasses <= r && r !! ActiveClasses
  {
    assert root[|root| - 1..] == "/";
    RootWithFragmentIsNotIndex(root, fragment);
    RestyleEffect(root, classes, GetFileName(root + ['#'] + fragment));
  }

  /** The body of the loop for one link: a page link first loses both
      styles and then gains the one its file name calls for. */
  method RestyleLink(link: Link, currentPageFile: string)
    modifies link
    ensures link.classes == Restyle(link.href, old(link.classes), currentPageFile)
  {
    if EndsWith(link.href, ".html") || EndsWith(link.href, "/") {
      var linkFile := GetFileName(link.href);
      var isMobile := MobileMarker in link.classes;
      var activeClasses := ActiveClassesFor(isMobile);
      var inactiveClasses := InactiveClassesFor(isMobile);
      link.classes := link.classes - activeClasses - inactiveClasses;
      if linkFile == currentPageFile {
        link.classes := link.classes + activeClasses;
      } else {
        link.classes := link.classes + inactiveClasses;
      }
    }
  }

  /** The loop of the site script over the links of `#main-nav`, restyling
      each in place for the page at `currentUrl`. */
  method MarkCurrentPage(navLinks: seq<Link>, currentUrl: string)
    requires forall i, j :: 0 <= i < j < |navLinks| ==> navLinks[i] != navLinks[j]
    modifies set l | l in navLinks
    ensures forall i :: 0 <= i < |navLinks| ==>
      navLinks[i].classes == Restyle(navLinks[i].href, old(navLinks[i].classes), GetFileName(currentUrl))
  {
    var currentPageFile := GetFileName(currentUrl);
    for i := 0 to |navLinks|
      invariant forall k :: 0 <= k < i ==>
        navLinks[k].classes == Restyle(navLinks[k].href, old(navLinks[k].classes), currentPageFile)
      invariant forall k :: i <= k < |navLinks| ==> navLinks[k].classes == old(navLinks[k].classes)
    {
      RestyleLink(navLinks[i], currentPageFile);
    }
  }
}
