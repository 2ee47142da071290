/** The side navigation of the long report page: one link per `h2`/`h3`
    heading that has an id, and an intersection callback that marks as
    `active` the link of the last heading reported as intersecting. */
module SideNav {
  import opened Dom

  /** A heading of `#report-content`, as the script reads it: its tag name,
      its `id` attribute (missing or present, possibly empty) and its text. */
  datatype Heading = Heading(tagName: string, idAttr: Option<string>, text: string)

  /** `heading.id`: the id attribute, or the empty string when it is missing. */
  function IdOf(h: Heading): string
  {
    match h.idAttr
    case Some(id) => id
    case None => ""
  }

  /** The script's `if (heading.id)`: a non-empty id. */
  predicate HasId(h: Heading)
  {
    IdOf(h) != ""
  }

  /** The headings that get a link, in document order. */
  function Linked(headings: seq<Heading>): (r: seq<Heading>)
    ensures |r| <= |headings|
    ensures forall i :: 0 <= i < |r| ==> HasId(r[i])
  {
    if headings == [] then []
    else
      var h := headings[|headings| - 1];
      var earlier := Linked(headings[..|headings| - 1]);
      assert headings == headings[..|headings| - 1] + [h];
      if HasId(h) then earlier + [h] else earlier
  }

  /** Exactly the headings with an id get a link. */
  lemma {:induction false} LinkedMembers(headings: seq<Heading>, h: Heading)
    ensures h in Linked(headings) <==> h in headings && HasId(h)
  {
    if headings != [] {
      var init := headings[..|headings| - 1];
      assert headings == init + [headings[|headings| - 1]];
      LinkedMembers(init, h);
    }
  }

  /** Links follow document order: the links of two runs of headings are the
      links of the first run followed by those of the second. */
  lemma {:induction false} LinkedConcat(a: seq<Heading>, b: seq<Heading>)
    ensures Linked(a + b) == Linked(a) + Linked(b)
  {
    if b == [] {
      assert a + b == a;
    } else {
      var init := b[..|b| - 1];
      assert (a + b)[..|a + b| - 1] == a + init;
      assert (a + b)[|a + b| - 1] == b[|b| - 1];
      LinkedConcat(a, init);
    }
  }

  /** One more heading gives one more link exactly when it has an id. */
  lemma LinkedSnoc(headings: seq<Heading>, h: Heading)
    ensures Linked(headings + [h]) == if HasId(h) then Linked(headings) + [h] else Linked(headings)
  {
    assert (headings + [h])[..|headings|] == headings;
  }

  /** The same, on a prefix of the page's headings one longer than another. */
  lemma LinkedPrefix(headings: seq<Heading>, n: nat)
    requires n < |headings|
    ensures Linked(headings[..n + 1]) ==
      if HasId(headings[n]) then Linked(headings[..n]) + [headings[n]] else Linked(headings[..n])
  {
    assert headings[..n + 1] == headings[..n] + [headings[n]];
    LinkedSnoc(headings[..n], headings[n]);
  }

  /** Classes every side-navigation link carries. */
  const BaseClasses: set<string> := {"nav-link", "block", "text-sm", "py-1", "border-l-2", "border-transparent"}

  /** The class list given to the link of a heading: `h3` links are indented
      further, all others are indented less and set in medium weight. */
  function LinkClasses(tagName: string): set<string>
  {
    BaseClasses + if tagName == "H3" then {"pl-6"} else {"pl-3", "font-medium"}
  }

  /** Every link has the base classes; an `h3` link has `pl-6` and neither
      `pl-3` nor `font-medium`, any other the reverse; there is nothing else. */
  lemma LinkClassesByTag(tagName: string)
    ensures var r := LinkClasses(tagName);
      BaseClasses <= r &&
      ("pl-6" in r) == (tagName == "H3") &&
      ("pl-3" in r) == (tagName != "H3") && ("font-medium" in r) == (tagName != "H3") &&
      r <= BaseClasses + {"pl-6", "pl-3", "font-medium"}
  {
  }

  /** The fragment address of a heading's link. */
  function AnchorOf(h: Heading): string
  {
    "#" + IdOf(h)
  }

  /** The link the script builds for heading `h`. */
  ghost predicate LinkFor(link: Link, h: Heading)
    reads link
  {
    link.href == AnchorOf(h) && link.text == h.text && link.classes == LinkClasses(h.tagName)
  }

  /** `links` are the links built for `headings`, one for one. */
  ghost predicate LinksFor(links: seq<Link>, headings: seq<Heading>)
    reads set l | l in links
  {
    |links| == |headings| && forall i :: 0 <= i < |links| ==> LinkFor(links[i], headings[i])
  }

  lemma LinksForSnoc(links: seq<Link>, headings: seq<Heading>, link: Link, h: Heading)
    requires LinksFor(links, headings) && LinkFor(link, h)
    ensures LinksFor(links + [link], headings + [h])
  {
    forall i | 0 <= i < |links| + 1
      ensures LinkFor((links + [link])[i], (headings + [h])[i])
    {
      if i < |links| {
        assert (links + [link])[i] == links[i];
        assert (headings + [h])[i] == headings[i];
      }
    }
  }

  /** `createNavLink`: nothing for a heading without an id, and otherwise a
      new anchor to `#id` with the heading's text. */
  method CreateNavLink(h: Heading) returns (link: Link?)
    ensures (link != null) == HasId(h)
    ensures link != null ==> fresh(link) && link.href == AnchorOf(h) && link.text == h.text && link.classes == {}
  {
    if !HasId(h) {
      return null;
    }
    link := new Link("#" + IdOf(h), h.text, {});
  }

  /** A side-navigation link for a heading with an id: `createNavLink`
      followed by the class assignment of the heading loop. */
  method NavLinkFor(h: Heading) returns (link: Link)
    requires HasId(h)
    ensures fresh(link) && LinkFor(link, h)
  {
    link := CreateNavLink(h);
    link.classes := LinkClasses(h.tagName);
  }

  /** One report of the intersection observer: whether the heading it
      watches is intersecting. */
  datatype Entry = Entry(isIntersecting: bool, target: Heading)

  /** The address the callback compares with: `#` followed by the heading's
      `id` attribute, which a template string renders as `null` when the
      attribute is missing. */
  function EntryHref(e: Entry): string
  {
    "#" + match e.target.idAttr
          case Some(id) => id
          case None => "null"
  }

  /** A heading without an `id` attribute that reports as intersecting is
      compared with `#null`, while its `heading.id` is empty. */
  lemma MissingIdTargetsNull(h: Heading)
    requires h.idAttr.None?
    ensures EntryHref(Entry(true, h)) == "#null"
    ensures !HasId(h)
  {
  }

  const Active: string := "active"

  /** One pass of the inner loop for a link: `active` is removed, and added
      back when the link points at `target`. */
  function Marked(classes: set<string>, href: string, target: string): (r: set<string>)
    ensures (Active in r) == (href == target)
    ensures r - {Active} == classes - {Active}
  {
    (classes - {Active}) + (if href == target then {Active} else {})
  }

  /** A later mark overrides an earlier one. */
  lemma MarkedOverrides(classes: set<string>, href: string, first: string, second: string)
    ensures Marked(Marked(classes, href, first), href, second) == Marked(classes, href, second)
  {
  }

  /** A link's classes after the callback has handled `entries` in order. */
  function AfterBatch(classes: set<string>, href: string, entries: seq<Entry>): set<string>
  {
    if entries == [] then classes
    else
      var before := AfterBatch(classes, href, entries[..|entries| - 1]);
      var e := entries[|entries| - 1];
      if e.isIntersecting then Marked(before, href, EntryHref(e)) else before
  }

  /** Entry `i` is intersecting and no later entry is. */
  ghost predicate IsLastIntersecting(entries: seq<Entry>, i: int)
  {
    0 <= i < |entries| && entries[i].isIntersecting &&
    forall j :: i < j < |entries| ==> !entries[j].isIntersecting
  }

  /** The position of the last intersecting entry of a batch, or -1 when
      no entry is intersecting. */
  function LastIntersecting(entries: seq<Entry>): (k: int)
    ensures -1 <= k < |entries|
    ensures k >= 0 ==> entries[k].isIntersecting
    ensures forall j :: k < j < |entries| ==> !entries[j].isIntersecting
  {
    if entries == [] then -1
    else if entries[|entries| - 1].isIntersecting then |entries| - 1
    else LastIntersecting(entries[..|entries| - 1])
  }

  /** The address of the last intersecting entry of a batch, if any. */
  function LastTarget(entries: seq<Entry>): (t: Option<string>)
    ensures t.None? <==> forall i :: 0 <= i < |entries| ==> !entries[i].isIntersecting
    ensures t.Some? ==> exists i :: IsLastIntersecting(entries, i) && EntryHref(entries[i]) == t.value
  {
    var k := LastIntersecting(entries);
    if k < 0 then None
    else
      assert IsLastIntersecting(entries, k);
      Some(EntryHref(entries[k]))
  }

  /** The last intersecting entry wins: a batch marks a link as its last
      intersecting entry alone would, and a batch without one changes
      nothing. */
  lemma {:induction false} BatchLastWins(classes: set<string>, href: string, entries: seq<Entry>)
    ensures AfterBatch(classes, href, entries) ==
      match LastTarget(entries)
      case None => classes
      case Some(t) => Marked(classes, href, t)
  {
    if entries != [] {
      var init := entries[..|entries| - 1];
      BatchLastWins(classes, href, init);
      var e := entries[|entries| - 1];
      if e.isIntersecting {
        match LastTarget(init)
        case None =>
        case Some(t) => MarkedOverrides(classes, href, t, EntryHref(e));
      }
    }
  }

  /** A proof step for `SideNavigation.Build`: appending one link to a list that
      follows the existing children. It stands for nothing in the script. */
  lemma AppendAssoc(a: seq<Link>, b: seq<Link>, x: Link)
    ensures (a + b) + [x] == a + (b + [x])
  {
  }

  /** No object occurs twice in `links`. */
  ghost predicate Distinct(links: seq<Link>)
  {
    forall i, j :: 0 <= i < j < |links| ==> links[i] != links[j]
  }

  /** A proof step for `SideNavigation.AddHeading`: a new link keeps the list free
      of repeats. It stands for nothing in the script. */
  lemma DistinctSnoc(links: seq<Link>, link: Link)
    requires Distinct(links) && link !in links
    ensures Distinct(links + [link])
  {
  }

  /** The side navigation: the children of `#nav-links` and the script's
      list `allNavLinks`, with the headings those links were built for. */
  class SideNavigation {
    var container: seq<Link>
    var allNavLinks: seq<Link>
    ghost var linked: seq<Heading>

    /** The script's links are distinct objects, one for each heading in
        `linked`, pointing at that heading and showing its text. */
    ghost predicate Valid()
      reads this
    {
      Distinct(allNavLinks) && |allNavLinks| == |linked| &&
      forall i :: 0 <= i < |allNavLinks| ==>
        allNavLinks[i].href == AnchorOf(linked[i]) && allNavLinks[i].text == linked[i].text
    }

    /** The heading loop: appends a new link to `#nav-links` and to
        `allNavLinks` for each heading with an id, in document order. */
    constructor Build(headings: seq<Heading>, existing: seq<Link>)
      ensures Valid() && LinksFor(allNavLinks, linked)
      ensures linked == Linked(headings)
      ensures container == existing + allNavLinks
      ensures forall l :: l in allNavLinks ==> fresh(l)
    {
      container := existing;
      allNavLinks := [];
      linked := [];
      new;
      for n := 0 to |headings|
        invariant Valid() && LinksFor(allNavLinks, linked)
        invariant linked == Linked(headings[..n])
        invariant container == existing + allNavLinks
        invariant forall l :: l in allNavLinks ==> fresh(l)
      {
        var h := headings[n];
        ghost var before := allNavLinks;
        var link := AddHeading(h);
        LinkedPrefix(headings, n);
        if link != null {
          AppendAssoc(existing, before, link);
        }
      }
      assert headings[..|headings|] == headings;
    }

    /** One turn of the heading loop: a heading with an id gets a new link,
        appended to `#nav-links` and to `allNavLinks`; any other heading is
        skipped. */
    method AddHeading(heading: Heading) returns (link: Link?)
      requires Valid() && LinksFor(allNavLinks, linked)
      modifies this
      ensures Valid() && LinksFor(allNavLinks, linked)
      ensures (link != null) == HasId(heading)
      ensures link != null ==>
        fresh(link) && allNavLinks == old(allNavLinks) + [link] &&
        container == old(container) + [link] && linked == old(linked) + [heading]
      ensures link == null ==>
        allNavLinks == old(allNavLinks) && container == old(container) && linked == old(linked)
    {
      link := null;
      if HasId(heading) {
        link := NavLinkFor(heading);
        LinksForSnoc(allNavLinks, linked, link, heading);
        DistinctSnoc(allNavLinks, link);
        container := container + [link];
        allNavLinks := allNavLinks + [link];
        linked := linked + [heading];
      }
    }

    /** The intersection callback over one batch of entries: for each
        intersecting entry, every link loses `active` and the links to that
        entry's heading gain it. */
    method OnIntersections(entries: seq<Entry>)
      requires Valid()
      modifies set l | l in allNavLinks
      ensures Valid()
      ensures forall i :: 0 <= i < |allNavLinks| ==>
        allNavLinks[i].classes == AfterBatch(old(allNavLinks[i].classes), allNavLinks[i].href, entries)
      ensures LastTarget(entries).None? ==>
        forall i :: 0 <= i < |allNavLinks| ==> allNavLinks[i].classes == old(allNavLinks[i].classes)
      ensures LastTarget(entries).Some? ==>
        forall i :: 0 <= i < |allNavLinks| ==>
          (Active in allNavLinks[i].classes) == (allNavLinks[i].href == LastTarget(entries).value) &&
          allNavLinks[i].classes - {Active} == old(allNavLinks[i].classes) - {Active}
    {
      for n := 0 to |entries|
        invariant forall i :: 0 <= i < |allNavLinks| ==>
          allNavLinks[i].classes == AfterBatch(old(allNavLinks[i].classes), allNavLinks[i].href, entries[..n])
      {
        var entry := entries[n];
        assert entries[..n + 1][..n] == entries[..n];
        if entry.isIntersecting {
          var target := EntryHref(entry);
          for k := 0 to |allNavLinks|
            invariant forall i :: 0 <= i < k ==>
              allNavLinks[i].classes ==
                Marked(AfterBatch(old(allNavLinks[i].classes), allNavLinks[i].href, entries[..n]), allNavLinks[i].href, target)
            invariant forall i :: k <= i < |allNavLinks| ==>
              allNavLinks[i].classes == AfterBatch(old(allNavLinks[i].classes), allNavLinks[i].href, entries[..n])
          {
            var link := allNavLinks[k];
            link.classes := link.classes - {Active};
            if link.href == target {
              link.classes := link.classes + {Active};
            }
          }
        }
      }
      assert entries[..|entries|] == entries;
      forall i | 0 <= i < |allNavLinks|
        ensures allNavLinks[i].classes ==
          match LastTarget(entries)
          case None => old(allNavLinks[i].classes)
          case Some(t) => Marked(old(allNavLinks[i].classes), allNavLinks[i].href, t)
      {
        BatchLastWins(old(allNavLinks[i].classes), allNavLinks[i].href, entries);
      }
    }
  }
}
