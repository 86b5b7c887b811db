/** Active menu state: the current page is derived from the location's path
    and every .menu link is recomputed to carry the class "active" or not. */
module ActiveMenu {
  import opened Wrappers

  /** A menu link: its href attribute (getAttribute may return null) and its
      class list. */
  datatype Link = Link(href: Option<string>, classes: set<string>)

  const Active: string := "active"
  const DefaultPage: string := "index.html"

  /** The last piece of the path split at '/': the text after the last '/',
      or all of the path when it holds no '/'. */
  function LastSegment(path: string): (r: string)
    ensures |r| <= |path| && r == path[|path| - |r|..]
    ensures '/' !in r
    ensures |r| < |path| ==> path[|path| - |r| - 1] == '/'
  {
    if path == [] || path[|path| - 1] == '/' then []
    else LastSegment(path[..|path| - 1]) + [path[|path| - 1]]
  }

  /** "index.html" is a non-empty file name: it holds no '/'. */
  lemma DefaultPageIsAFileName()
    ensures DefaultPage != [] && '/' !in DefaultPage
  {
    assert DefaultPage == ['i', 'n', 'd', 'e', 'x', '.', 'h', 't', 'm', 'l'];
    forall i | 0 <= i < |DefaultPage| ensures DefaultPage[i] != '/' {
    }
  }

  /** The current page of a location path: its last segment, or the default
      page when that segment is empty. Never empty, and never holds '/'. */
  function CurrentPage(path: string): (p: string)
    ensures p != [] && '/' !in p
    ensures (path == [] || path[|path| - 1] == '/') ==> p == DefaultPage
    ensures path != [] && path[|path| - 1] != '/' ==>
      |p| <= |path| && path[|path| - |p|..] == p && (|p| == |path| || path[|path| - |p| - 1] == '/')
  {
    var segment := LastSegment(path);
    if segment == [] then DefaultPageIsAFileName(); DefaultPage else segment
  }

  /** The per-link test as written in the source, with its second disjunct
      for an empty current page. */
  predicate MatchesPage(linkPage: Option<string>, currentPage: string) {
    linkPage == Some(currentPage) || (currentPage == [] && linkPage == Some(DefaultPage))
  }

  /** Since the derived current page is never empty, the second disjunct is
      dead: a link matches exactly when its href equals the current page. */
  lemma MatchesOnlyByHref(path: string, linkPage: Option<string>)
    ensures MatchesPage(linkPage, CurrentPage(path)) <==> linkPage == Some(CurrentPage(path))
  {
  }

  /** The page is the file name after the last directory separator, and a
      path that ends in a directory (the root included) gives the default. */
  lemma {:induction false} PageAfterLastSlash(dir: string, name: string)
    requires '/' !in name
    ensures LastSegment(dir + "/" + name) == name
    ensures CurrentPage(dir + "/" + name) == if name == [] then DefaultPage else name
  {
    if name != [] {
      var init := name[..|name| - 1];
      assert (dir + "/" + name)[..|dir + "/" + name| - 1] == dir + "/" + init;
      PageAfterLastSlash(dir, init);
    }
  }

  /** One link after marking: "active" present iff the link matches, every
      other class and the href untouched. */
  function Mark(link: Link, currentPage: string): (r: Link)
    ensures r.href == link.href
    ensures Active in r.classes <==> MatchesPage(link.href, currentPage)
    ensures r.classes - {Active} == link.classes - {Active}
  {
    if MatchesPage(link.href, currentPage) then link.(classes := link.classes + {Active})
    else link.(classes := link.classes - {Active})
  }

  /** Marking recomputes from scratch: the result does not depend on whether
      the link carried "active" before, so no stale "active" survives, and
      marking twice is marking once. */
  lemma MarkForgetsPriorState(a: Link, b: Link, currentPage: string)
    requires a.href == b.href && a.classes - {Active} == b.classes - {Active}
    ensures Mark(a, currentPage) == Mark(b, currentPage)
    ensures Mark(Mark(a, currentPage), currentPage) == Mark(a, currentPage)
  {
    var ra, rb := Mark(a, currentPage), Mark(b, currentPage);
    assert ra.classes == rb.classes by {
      forall c ensures c in ra.classes <==> c in rb.classes {
        if c != Active {
          assert c in ra.classes <==> c in a.classes - {Active};
          assert c in rb.classes <==> c in b.classes - {Active};
        }
      }
    }
  }

  /** Marking for the page at `path`, stated on the href alone. */
  lemma MarkByHref(link: Link, path: string)
    ensures Mark(link, CurrentPage(path)).href == link.href
    ensures Active in Mark(link, CurrentPage(path)).classes <==> link.href == Some(CurrentPage(path))
    ensures Mark(link, CurrentPage(path)).classes - {Active} == link.classes - {Active}
  {
    MatchesOnlyByHref(path, link.href);
  }

  /** What marking every link for the page at `path` means, link by link. */
  lemma MarkedLinks(before: seq<Link>, after: seq<Link>, path: string)
    requires |after| == |before|
    requires forall i :: 0 <= i < |before| ==> after[i] == Mark(before[i], CurrentPage(path))
    ensures forall i :: 0 <= i < |after| ==> after[i].href == before[i].href
    ensures forall i :: 0 <= i < |after| ==>
      (Active in after[i].classes <==> after[i].href == Some(CurrentPage(path)))
    ensures forall i :: 0 <= i < |after| ==>
      after[i].classes - {Active} == before[i].classes - {Active}
  {
    forall i | 0 <= i < |after|
      ensures after[i].href == before[i].href
      ensures Active in after[i].classes <==> after[i].href == Some(CurrentPage(path))
      ensures after[i].classes - {Active} == before[i].classes - {Active}
    {
      MarkByHref(before[i], path);
    }
  }

  /** The .menu links of the page. */
  class Menu {
    var links: seq<Link>

    constructor (links: seq<Link>)
      ensures this.links == links
    {
      this.links := links;
    }

    /** The menu update at page load for the location path `path`: the current
        page is derived, then every link is marked; afterwards each link is
        "active" iff its href is the current page, and nothing else changed. */
    method MarkActive(path: string)
      modifies this
      ensures |links| == |old(links)|
      ensures forall i :: 0 <= i < |links| ==> links[i].href == old(links)[i].href
      ensures forall i :: 0 <= i < |links| ==>
        (Active in links[i].classes <==> links[i].href == Some(CurrentPage(path)))
      ensures forall i :: 0 <= i < |links| ==>
        links[i].classes - {Active} == old(links)[i].classes - {Active}
    {
      var currentPage := CurrentPage(path);
      MarkLinks(currentPage);
      MarkedLinks(old(links), links, path);
    }

    /** The forEach over the menu links: each link in turn is marked. */
    method MarkLinks(currentPage: string)
      modifies this
      ensures |links| == |old(links)|
      ensures forall i :: 0 <= i < |links| ==> links[i] == Mark(old(links)[i], currentPage)
    {
      for i := 0 to |links|
        invariant |links| == |old(links)|
        invariant forall j :: i <= j < |links| ==> links[j] == old(links)[j]
        invariant forall j :: 0 <= j < i ==> links[j] == Mark(old(links)[j], currentPage)
      {
        links := links[i := Mark(links[i], currentPage)];
      }
    }
  }
}
