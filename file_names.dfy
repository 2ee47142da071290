/** The page-name rule the site uses to decide which navigation link is the
    current page: the last path segment of a URL, with the site root mapped
    to the home page and any fragment removed. */
module FileNames {

  /** The page the site root stands for. */
  const IndexPage: string := "index.html"

  /** The repository's own directory name, which is what the last segment of
      the root URL reads when it is served without a trailing slash. */
  const SiteRoot: string := "carmelo-health-records"

  /** `String.prototype.lastIndexOf` for one character: the position of the
      last `c` in `s`, or -1 when there is none. */
  function LastIndexOf(s: string, c: char): (k: int)
    ensures -1 <= k < |s|
    ensures k >= 0 ==> s[k] == c
    ensures forall j :: k < j < |s| ==> s[j] != c
  {
    if |s| == 0 then -1
    else if s[|s| - 1] == c then |s| - 1
    else LastIndexOf(s[..|s| - 1], c)
  }

  /** `s.split(c)[0]`: the part of `s` before its first `c` (all of `s` when
      there is no `c`). */
  function BeforeFirst(s: string, c: char): (r: string)
    ensures r <= s
    ensures c !in r
    ensures |r| < |s| ==> s[|r|] == c
  {
    if |s| == 0 || s[0] == c then [] else [s[0]] + BeforeFirst(s[1..], c)
  }

  /** `url.substring(url.lastIndexOf('/') + 1)`: everything after the last
      slash, or the whole URL when it has no slash. */
  function LastSegment(url: string): (seg: string)
    ensures '/' !in seg
  {
    url[LastIndexOf(url, '/') + 1..]
  }

  /** The segment is a suffix of the URL, preceded by a slash unless it is
      the whole URL; a URL without a slash is its own segment. */
  lemma LastSegmentShape(url: string)
    ensures var seg := LastSegment(url);
      |seg| <= |url| && url[|url| - |seg|..] == seg &&
      (|seg| < |url| ==> url[|url| - |seg| - 1] == '/') &&
      ('/' !in url ==> seg == url)
  {
  }

  /** The page a last segment names: the root segments name the home page,
      any other segment its part before the first `#`. The root test is made
      on the raw segment, before the fragment is cut off. */
  function SegmentName(filename: string): (name: string)
    requires '/' !in filename
    ensures '/' !in name && '#' !in name
  {
    if filename == "" || filename == SiteRoot then IndexPage
    else BeforeFirst(filename, '#')
  }

  /** `getFileName` of js/main.js. */
  function GetFileName(url: string): (name: string)
    ensures '/' !in name && '#' !in name
  {
    SegmentName(LastSegment(url))
  }

  /** Cutting at the first `c` recovers any prefix that is followed by `c`
      or by nothing. */
  lemma {:induction false} BeforeFirstOfParts(head: string, rest: string, c: char)
    requires c !in head
    requires rest == [] || rest[0] == c
    ensures BeforeFirst(head + rest, c) == head
  {
    if head != [] {
      assert (head + rest)[0] == head[0];
      assert (head + rest)[1..] == head[1..] + rest;
      BeforeFirstOfParts(head[1..], rest, c);
    }
  }

  /** The last segment of `dir + seg` is `seg` whenever `seg` has no slash and
      `dir` is empty or ends in one. */
  lemma LastSegmentOfParts(dir: string, seg: string)
    requires '/' !in seg
    requires dir == [] || dir[|dir| - 1] == '/'
    ensures LastSegment(dir + seg) == seg
  {
    var url := dir + seg;
    var k := LastIndexOf(url, '/');
    forall j | |dir| <= j < |url|
      ensures url[j] != '/'
    {
      assert url[j] == seg[j - |dir|];
    }
    if dir != [] {
      assert url[|dir| - 1] == '/';
    }
    assert k == |dir| - 1;
    assert url[k + 1..] == seg;
  }

  /** The whole rule, stated on any split of the URL at its last slash. */
  lemma FileNameOfParts(dir: string, seg: string)
    requires '/' !in seg
    requires dir == [] || dir[|dir| - 1] == '/'
    ensures GetFileName(dir + seg) == SegmentName(seg)
    ensures GetFileName(dir + seg) ==
      if seg == "" || seg == SiteRoot then IndexPage else BeforeFirst(seg, '#')
  {
    LastSegmentOfParts(dir, seg);
  }

  /** A URL without a slash is its own segment. */
  lemma FileNameWithoutSlash(url: string)
    requires '/' !in url
    ensures GetFileName(url) == SegmentName(url)
  {
    FileNameOfParts([], url);
    assert [] + url == url;
  }

  /** A page segment and the same segment with any fragment name the same
      file, so a link to a page matches that page whatever anchor the address
      bar shows. */
  lemma SegmentIgnoresFragment(page: string, fragment: string)
    requires page != "" && page != SiteRoot
    requires '/' !in page && '#' !in page && '/' !in fragment
    ensures SegmentName(page + ['#'] + fragment) == page
    ensures SegmentName(page) == page
  {
    var tail := ['#'] + fragment;
    assert page + ['#'] + fragment == page + tail;
    assert page + tail != SiteRoot by {
      assert (page + tail)[|page|] == '#';
      assert '#' !in SiteRoot;
    }
    BeforeFirstOfParts(page, tail, '#');
    BeforeFirstOfParts(page, [], '#');
    assert page + [] == page;
  }

  /** The same on whole URLs. */
  lemma FileNameIgnoresFragment(dir: string, page: string, fragment: string)
    requires dir == [] || dir[|dir| - 1] == '/'
    requires page != "" && page != SiteRoot
    requires '/' !in page && '#' !in page && '/' !in fragment
    ensures GetFileName(dir + page + ['#'] + fragment) == page
    ensures GetFileName(dir + page) == page
  {
    var seg := page + ['#'] + fragment;
    assert dir + page + ['#'] + fragment == dir + seg;
    FileNameOfParts(dir, seg);
    FileNameOfParts(dir, page);
    SegmentIgnoresFragment(page, fragment);
  }

  /** The root test comes before the fragment is cut: the root address with a
      fragment (`.../#top`) names the empty file rather than the home page,
      while the root address itself names the home page. */
  lemma RootWithFragmentIsNotIndex(dir: string, fragment: string)
    requires dir != [] && dir[|dir| - 1] == '/'
    requires '/' !in fragment
    ensures GetFileName(dir) == IndexPage
    ensures GetFileName(dir + ['#'] + fragment) == ""
  {
    assert dir + [] == dir;
    FileNameOfParts(dir, []);
    var seg := ['#'] + fragment;
    assert dir + ['#'] + fragment == dir + seg;
    assert seg != SiteRoot by {
      assert seg[0] == '#';
      assert SiteRoot[0] == 'c';
    }
    assert BeforeFirst(seg, '#') == [];
    FileNameOfParts(dir, seg);
  }

  /** The directory name followed by a fragment is not the directory name:
      it is cut down to `carmelo-health-records` and not mapped to the home
      page. */
  lemma SiteRootWithFragment(dir: string, fragment: string)
    requires dir == [] || dir[|dir| - 1] == '/'
    requires '/' !in fragment
    ensures GetFileName(dir + SiteRoot + ['#'] + fragment) == SiteRoot
  {
    var tail := ['#'] + fragment;
    var seg := SiteRoot + tail;
    assert dir + SiteRoot + ['#'] + fragment == dir + seg;
    assert '/' !in SiteRoot && '#' !in SiteRoot;
    FileNameOfParts(dir, seg);
    assert |seg| > |SiteRoot|;
    BeforeFirstOfParts(SiteRoot, tail, '#');
  }

  /** A query string is not cut off: `.../page.html?x=1` names
      `page.html?x=1`, so it matches no navigation link to `page.html`. */
  lemma QueryIsKept(dir: string, page: string, query: string)
    requires dir == [] || dir[|dir| - 1] == '/'
    requires '/' !in page && '#' !in page && '/' !in query && '#' !in query
    ensures GetFileName(dir + page + ['?'] + query) == page + ['?'] + query
  {
    var seg := page + ['?'] + query;
    assert dir + page + ['?'] + query == dir + seg;
    assert '/' !in seg && '#' !in seg;
    assert seg != SiteRoot by {
      assert seg[|page|] == '?';
      assert '?' !in SiteRoot;
    }
    FileNameOfParts(dir, seg);
    BeforeFirstOfParts(seg, [], '#');
    assert seg + [] == seg;
  }

  /** A slash inside the fragment is taken for a path separator: the name is
      what follows it, e.g. `.../page.html#a/b` names `b`. */
  lemma SlashInFragment(dir: string, page: string, before: string, after: string)
    requires dir == [] || dir[|dir| - 1] == '/'
    requires after != "" && after != SiteRoot && '/' !in after && '#' !in after
    ensures GetFileName(dir + page + ['#'] + before + ['/'] + after) == after
  {
    var head := dir + page + ['#'] + before + ['/'];
    assert dir + page + ['#'] + before + ['/'] + after == head + after;
    assert head[|head| - 1] == '/';
    FileNameOfParts(head, after);
    BeforeFirstOfParts(after, [], '#');
    assert after + [] == after;
  }
}
