/**
 * `fetch_links`: the dining-hall links of the nutrition site's main page.
 * Each `<li class="locations">` element contributes the `href` of its
 * first `<a>`, made absolute against the site's root, when the result
 * mentions "Hall".
 */
module HallLinks {
  import opened Seqs
  import opened Text

  /** The site's main page. */
  const MainUrl: string := "https://nutrition.sa.ucsc.edu/"

  /**
   * The main page as the loop sees it. A failed request (or any other
   * exception) is `DirectoryError`; otherwise each location element gives
   * the `href` of its first anchor, `None` when it has no anchor or the
   * anchor no `href` attribute.
   */
  datatype Directory = DirectoryError | Listing(anchors: seq<Option<string>>)

  /**
   * An absolute `href` (one starting with "http") is kept as is; any other
   * is joined to the main URL with its last "/" and what follows cut off.
   */
  function BuildUrl(href: string): (url: string)
    ensures StartsWith(href, "http") ==> url == href
  {
    if StartsWith(href, "http") then href else RsplitHead(MainUrl, '/') + "/" + href
  }

  /** Cutting the main URL at its last "/" and putting the "/" back gives the main URL again. */
  lemma MainUrlRoot()
    ensures RsplitHead(MainUrl, '/') + "/" == MainUrl
  {
    assert MainUrl[|MainUrl| - 1] == '/';
    assert MainUrl == MainUrl[..|MainUrl| - 1] + "/";
  }

  /** A relative `href` lands directly under the main URL. */
  lemma RelativeUrl(href: string)
    requires !StartsWith(href, "http")
    ensures BuildUrl(href) == MainUrl + href
  {
    MainUrlRoot();
  }

  /** A relative link is kept exactly when its `href` itself mentions "Hall". */
  lemma RelativeKeptIffHallInHref(href: string)
    requires !StartsWith(href, "http")
    ensures IsSubstring("Hall", BuildUrl(href)) <==> IsSubstring("Hall", href)
  {
    RelativeUrl(href);
    // the main URL has no "H", so no occurrence of "Hall" can start in it
    assert 'H' !in MainUrl;
    IsSubstringSkipPrefix("Hall", MainUrl, href);
  }

  /** The `href` of one location element gives a link when it is truthy and its URL mentions "Hall". */
  predicate Keeps(anchor: Option<string>) {
    anchor.Some? && anchor.value != "" && IsSubstring("Hall", BuildUrl(anchor.value))
  }

  /** The links collected from the location elements, in page order. */
  function KeptLinks(anchors: seq<Option<string>>): seq<string> {
    if anchors == [] then []
    else
      var a := anchors[|anchors| - 1];
      KeptLinks(anchors[..|anchors| - 1]) + if Keeps(a) then [BuildUrl(a.value)] else []
  }

  /** What `fetch_links` returns: nothing when the main page could not be read. */
  function Links(dir: Directory): seq<string> {
    match dir
    case DirectoryError => []
    case Listing(anchors) => KeptLinks(anchors)
  }

  /** The loop over the location elements. */
  method FetchLinks(dir: Directory) returns (links: seq<string>)
    ensures links == Links(dir)
  {
    if dir.DirectoryError? {
      return [];
    }
    var anchors := dir.anchors;
    links := [];
    var i := 0;
    while i < |anchors|
      invariant 0 <= i <= |anchors|
      invariant links == KeptLinks(anchors[..i])
    {
      assert anchors[..i + 1][..i] == anchors[..i];
      var anchor := anchors[i];
      if anchor.Some? && anchor.value != "" {
        var href := anchor.value;
        var fullUrl := if StartsWith(href, "http") then href else RsplitHead(MainUrl, '/') + "/" + href;
        if IsSubstring("Hall", fullUrl) {
          links := links + [fullUrl];
        }
      }
      i := i + 1;
    }
    assert anchors[..|anchors|] == anchors;
  }

  // ----- properties of the collected links -----

  /** Element `i` of the page gives link `url`. */
  predicate GivesAt(anchors: seq<Option<string>>, i: int, url: string) {
    0 <= i < |anchors| && Keeps(anchors[i]) && url == BuildUrl(anchors[i].value)
  }

  /** A URL is collected exactly when some location element gives it. */
  lemma {:induction false} KeptLinksMembers(anchors: seq<Option<string>>, url: string)
    ensures url in KeptLinks(anchors) <==> exists i :: GivesAt(anchors, i, url)
  {
    if anchors != [] {
      var init := anchors[..|anchors| - 1];
      KeptLinksMembers(init, url);
      if exists i :: GivesAt(init, i, url) {
        var i :| GivesAt(init, i, url);
        assert GivesAt(anchors, i, url);
      }
      if exists i :: GivesAt(anchors, i, url) {
        var i :| GivesAt(anchors, i, url);
        if i < |init| {
          assert GivesAt(init, i, url);
        }
      }
      if url in KeptLinks(anchors) && url !in KeptLinks(init) {
        assert GivesAt(anchors, |init|, url);
      }
    }
  }

  /** Every collected link mentions "Hall". */
  lemma {:induction false} LinksMentionHall(anchors: seq<Option<string>>)
    ensures forall url :: url in KeptLinks(anchors) ==> IsSubstring("Hall", url)
  {
    if anchors != [] {
      LinksMentionHall(anchors[..|anchors| - 1]);
    }
  }

  /** The elements are scanned in order: the links of two stretches of the page are concatenated. */
  lemma {:induction false} KeptLinksAppend(a: seq<Option<string>>, b: seq<Option<string>>)
    ensures KeptLinks(a + b) == KeptLinks(a) + KeptLinks(b)
    decreases |b|
  {
    if b == [] {
      assert a + b == a;
    } else {
      var init := b[..|b| - 1];
      KeptLinksAppend(a, init);
      assert (a + b)[..|a + b| - 1] == a + init;
    }
  }

  /** There is at most one link per location element. */
  lemma {:induction false} KeptLinksBound(anchors: seq<Option<string>>)
    ensures |KeptLinks(anchors)| <= |anchors|
  {
    if anchors != [] {
      KeptLinksBound(anchors[..|anchors| - 1]);
    }
  }
}
