/**
 * The site header's navigation: the two link tables, the choice of the key of
 * the current page from its path, the class each pill gets, and which elements
 * of the rendered header carry the active class.
 */
module Header {

  datatype Link = Link(href: string, text: string, key: string)

  /** The pills always shown. */
  const LinksPrimary: seq<Link> := [
    Link("/", "Map", "map"),
    Link("/blog.html", "Blog", "blog"),
    Link("/about.html", "About", "about")
  ]

  /** The links behind the "More" button, which the header renders as plain links, not pills. */
  const LinksMore: seq<Link> := [
    Link("/updates.html", "Updates", "updates"),
    Link("/limits.html", "Limits", "limits"),
    Link("/records.html", "AUC", "auc"),
    Link("https://github.com/JoshuaVlantis/Wave-Finder", "Source (AGPL)", "source")
  ]

  /** Every key the current page can be given; the empty key marks no pill. */
  const PageKeys: set<string> := {"map", "limits", "blog", "about", "auc", "updates", ""}

  /** `sub` occurs in `s` starting at position `i`. */
  ghost predicate OccursAt(s: string, sub: string, i: int) {
    0 <= i && i + |sub| <= |s| && s[i..i + |sub|] == sub
  }

  ghost predicate Contains(s: string, sub: string) {
    exists i :: OccursAt(s, sub, i)
  }

  /** When `sub` does not start `s`, it occurs in `s` exactly when it occurs in the rest of `s`. */
  lemma ContainsInTail(s: string, sub: string)
    requires |s| > 0 && !OccursAt(s, sub, 0)
    ensures Contains(s, sub) <==> Contains(s[1..], sub)
  {
    if Contains(s, sub) {
      var i :| OccursAt(s, sub, i);
      assert i >= 1 && i + |sub| <= |s|;
      assert s[1..][i - 1..i - 1 + |sub|] == s[i..i + |sub|];
      assert OccursAt(s[1..], sub, i - 1);
    }
    if Contains(s[1..], sub) {
      var i :| OccursAt(s[1..], sub, i);
      assert 0 <= i && i + |sub| <= |s| - 1;
      assert s[1..][i..i + |sub|] == s[i + 1..i + 1 + |sub|];
      assert OccursAt(s, sub, i + 1);
    }
  }

  /** `s.includes(sub)`. */
  function Includes(s: string, sub: string): (r: bool)
    ensures r <==> Contains(s, sub)
    decreases |s|
  {
    if |s| < |sub| then false
    else if s[..|sub|] == sub then
      assert OccursAt(s, sub, 0);
      true
    else
      ContainsInTail(s, sub);
      Includes(s[1..], sub)
  }

  /** The home page, which `activeKey` tests before any path marker. */
  predicate IsHome(path: string) {
    path == "/" || path == "/index.html"
  }

  /** The key of the page at `path`. */
  function ActiveKey(path: string): (k: string)
    ensures k in PageKeys
  {
    if IsHome(path) then "map"
    else if Includes(path, "/limits") then "limits"
    else if Includes(path, "/blog") then "blog"
    else if Includes(path, "/post") then "blog"
    else if Includes(path, "/about") then "about"
    else if Includes(path, "/records") then "auc"
    else if Includes(path, "/updates") then "updates"
    else ""
  }

  /**
   * Which key a path gets, stated over occurrences of substrings: the home
   * page first, then "/limits" over everything else, "/blog" and "/post"
   * alike, and no key when no marker occurs. The home test is `IsHome`.
   */
  lemma ActiveKeyDecision(path: string)
    ensures ActiveKey(path) == "map" <==> IsHome(path)
    ensures ActiveKey(path) == "limits" <==> !IsHome(path) && Contains(path, "/limits")
    ensures ActiveKey(path) == "blog" <==>
      !IsHome(path) && !Contains(path, "/limits") && (Contains(path, "/blog") || Contains(path, "/post"))
    ensures ActiveKey(path) == "about" <==>
      !IsHome(path) && !Contains(path, "/limits") && !Contains(path, "/blog") && !Contains(path, "/post")
      && Contains(path, "/about")
    ensures ActiveKey(path) == "auc" <==>
      !IsHome(path) && !Contains(path, "/limits") && !Contains(path, "/blog") && !Contains(path, "/post")
      && !Contains(path, "/about") && Contains(path, "/records")
    ensures ActiveKey(path) == "updates" <==>
      !IsHome(path) && !Contains(path, "/limits") && !Contains(path, "/blog") && !Contains(path, "/post")
      && !Contains(path, "/about") && !Contains(path, "/records") && Contains(path, "/updates")
    ensures ActiveKey(path) == "" <==>
      !IsHome(path) && !Contains(path, "/limits") && !Contains(path, "/blog") && !Contains(path, "/post")
      && !Contains(path, "/about") && !Contains(path, "/records") && !Contains(path, "/updates")
  {
  }

  /** A path under "/limits" gets the key "limits" even when it also names another section. */
  lemma LimitsTakesPrecedence(path: string, i: int)
    requires !IsHome(path) && OccursAt(path, "/limits", i)
    ensures ActiveKey(path) == "limits"
  {
  }

  /** The site root and "/index.html" both get the key "map" of the first primary pill. */
  lemma HomeGetsMapKey()
    ensures ActiveKey(LinksPrimary[0].href) == LinksPrimary[0].key == "map"
    ensures ActiveKey("/index.html") == "map"
  {
  }

  /** A substring with a character that `s` lacks does not occur in `s`. */
  lemma MissingCharNotContained(s: string, sub: string, c: char)
    requires c in sub && c !in s
    ensures !Contains(s, sub)
  {
  }

  /** Each page the header links to gets the key of its own link. */
  lemma BlogPageGetsBlogKey()
    ensures LinksPrimary[1].href == "/blog.html" && LinksPrimary[1].key == "blog"
    ensures ActiveKey("/blog.html") == "blog"
  {
    BlogPageMarkers();
  }

  lemma BlogPageMarkers()
    ensures Contains("/blog.html", "/blog") && !Contains("/blog.html", "/limits")
  {
    assert OccursAt("/blog.html", "/blog", 0);
    MissingCharNotContained("/blog.html", "/limits", 'i');
  }

  lemma AboutPageGetsAboutKey()
    ensures LinksPrimary[2].href == "/about.html" && LinksPrimary[2].key == "about"
    ensures ActiveKey("/about.html") == "about"
  {
    AboutPageMarkers();
  }

  lemma AboutPageMarkers()
    ensures Contains("/about.html", "/about") && !Contains("/about.html", "/limits")
    ensures !Contains("/about.html", "/blog") && !Contains("/about.html", "/post")
  {
    assert OccursAt("/about.html", "/about", 0);
    MissingCharNotContained("/about.html", "/limits", 'i');
    MissingCharNotContained("/about.html", "/blog", 'g');
    MissingCharNotContained("/about.html", "/post", 'p');
  }

  lemma UpdatesPageGetsUpdatesKey()
    ensures LinksMore[0].href == "/updates.html" && LinksMore[0].key == "updates"
    ensures ActiveKey("/updates.html") == "updates"
  {
    assert OccursAt("/updates.html", "/updates", 0);
    UpdatesPageMarkers();
  }

  lemma UpdatesPageMarkers()
    ensures !Contains("/updates.html", "/limits") && !Contains("/updates.html", "/blog")
    ensures !Contains("/updates.html", "/post") && !Contains("/updates.html", "/about")
    ensures !Contains("/updates.html", "/records")
  {
    MissingCharNotContained("/updates.html", "/limits", 'i');
    MissingCharNotContained("/updates.html", "/blog", 'b');
    MissingCharNotContained("/updates.html", "/post", 'o');
    MissingCharNotContained("/updates.html", "/about", 'b');
    MissingCharNotContained("/updates.html", "/records", 'r');
  }

  lemma LimitsPageGetsLimitsKey()
    ensures LinksMore[1].href == "/limits.html" && LinksMore[1].key == "limits"
    ensures ActiveKey("/limits.html") == "limits"
  {
    assert OccursAt("/limits.html", "/limits", 0);
  }

  /** The records page is keyed "auc", after the pill's label, not after its path. */
  lemma RecordsPageGetsAucKey()
    ensures LinksMore[2].href == "/records.html" && LinksMore[2].key == "auc"
    ensures ActiveKey("/records.html") == "auc"
  {
    assert OccursAt("/records.html", "/records", 0);
    RecordsPageMarkers();
  }

  lemma RecordsPageMarkers()
    ensures !Contains("/records.html", "/limits") && !Contains("/records.html", "/blog")
    ensures !Contains("/records.html", "/post") && !Contains("/records.html", "/about")
  {
    MissingCharNotContained("/records.html", "/limits", 'i');
    MissingCharNotContained("/records.html", "/blog", 'b');
    MissingCharNotContained("/records.html", "/post", 'p');
    MissingCharNotContained("/records.html", "/about", 'b');
  }

  /** The class the pill of `key` gets on the page at `path`. */
  function PillClass(path: string, key: string): string {
    if ActiveKey(path) == key then "active" else ""
  }

  /** No page gets the key "source". */
  lemma SourcePillNeverActive(path: string)
    ensures PillClass(path, "source") == ""
  {
  }

  const ActiveOpening: string := "<a class=\"wf-pill active"

  /** `e` opens with the active class of a pill. */
  predicate MarkedActive(e: string) {
    |e| >= |ActiveOpening| && e[..|ActiveOpening|] == ActiveOpening
  }

  /**
   * The markup of one pill, with the class `PillClass` gives it: it carries
   * the active class exactly when its key is the page's key.
   */
  function Pill(path: string, l: Link): (p: string)
    ensures MarkedActive(p) <==> ActiveKey(path) == l.key
  {
    var p := "<a class=\"wf-pill " + PillClass(path, l.key) + "\" href=\"" + l.href + "\">" + l.text + "</a>";
    assert ActiveKey(path) != l.key ==> p[18] == '"' && ActiveOpening[18] == 'a';
    p
  }

  predicate KeysDistinct(links: seq<Link>) {
    forall i, j :: 0 <= i < j < |links| ==> links[i].key != links[j].key
  }

  /** How many of `links` are active on the page at `path`. */
  function ActivePills(path: string, links: seq<Link>): nat {
    if links == [] then 0
    else (if PillClass(path, links[0].key) == "active" then 1 else 0) + ActivePills(path, links[1..])
  }

  /** One pill is active when its key is the page's key, and none otherwise. */
  lemma {:induction false} ActivePillsCount(path: string, links: seq<Link>)
    requires KeysDistinct(links)
    ensures ActivePills(path, links) == (if exists i :: 0 <= i < |links| && links[i].key == ActiveKey(path) then 1 else 0)
  {
    if links != [] {
      var rest := links[1..];
      assert KeysDistinct(rest) by {
        forall i, j | 0 <= i < j < |rest| ensures rest[i].key != rest[j].key {
          assert rest[i] == links[i + 1] && rest[j] == links[j + 1];
        }
      }
      ActivePillsCount(path, rest);
      if links[0].key == ActiveKey(path) {
        forall i | 0 <= i < |rest| ensures rest[i].key != ActiveKey(path) {
          assert rest[i] == links[i + 1];
        }
      } else if exists i :: 0 <= i < |rest| && rest[i].key == ActiveKey(path) {
        var i :| 0 <= i < |rest| && rest[i].key == ActiveKey(path);
        assert links[i + 1] == rest[i];
      } else {
        forall i | 0 <= i < |links| ensures links[i].key != ActiveKey(path) {
          if i > 0 {
            assert links[i] == rest[i - 1];
          }
        }
      }
    }
  }

  /** Among links with distinct keys, at most one pill is active. */
  lemma AtMostOneActive(path: string, links: seq<Link>)
    requires KeysDistinct(links)
    ensures ActivePills(path, links) <= 1
  {
    ActivePillsCount(path, links);
  }

  /** Of the primary pills exactly one is active on the map, blog and about pages, and none elsewhere. */
  lemma HeaderActivePills(path: string)
    ensures ActivePills(path, LinksPrimary) == (if ActiveKey(path) in {"map", "blog", "about"} then 1 else 0)
  {
    assert KeysDistinct(LinksPrimary);
    ActivePillsCount(path, LinksPrimary);
    var k := ActiveKey(path);
    if k in {"map", "blog", "about"} {
      assert LinksPrimary[if k == "map" then 0 else if k == "blog" then 1 else 2].key == k;
    }
  }

  /** The pills of `links`, in order. */
  function Pills(path: string, links: seq<Link>): (ps: seq<string>)
    ensures |ps| == |links|
  {
    if links == [] then [] else [Pill(path, links[0])] + Pills(path, links[1..])
  }

  /** A plain link of the "More" menu or of the drawer: no class at all. */
  function MenuLink(l: Link): (a: string)
    ensures !MarkedActive(a)
  {
    var a := "<a href=\"" + l.href + "\">" + l.text + "</a>";
    assert |a| >= |ActiveOpening| ==> a[3] == 'h' && ActiveOpening[3] == 'c';
    a
  }

  /** The plain links of `links`, in order. */
  function MenuLinks(links: seq<Link>): (ms: seq<string>)
    ensures |ms| == |links|
  {
    if links == [] then [] else [MenuLink(links[0])] + MenuLinks(links[1..])
  }

  /** The brand link to the home page; its logo and name inside are not modelled. */
  const Brand: string := "<a class=\"wf-brand\" href=\"/\">"

  /** The "More" button, a pill-styled button that is never active. */
  const MoreButton: string := "<button" + " class=\"wf-pill\" id=\"wf-more-btn\">More ▾</button>"

  /** The mobile navigation's button that opens the drawer. */
  const Burger: string := "<button" + " class=\"wf-burger\" id=\"wf-burger\" aria-label=\"Open menu\">☰</button>"

  /**
   * The header's links and buttons in document order: the brand, the primary
   * pills of the desktop navigation, the "More" button and menu (present when
   * there are "More" links), the primary pills again in the mobile navigation,
   * and then the burger button with the drawer it opens, which holds plain
   * links to every page.
   */
  function HeaderElements(path: string): seq<string> {
    [Brand] + Pills(path, LinksPrimary)
    + (if |LinksMore| > 0 then [MoreButton] + MenuLinks(LinksMore) else [])
    + Pills(path, LinksPrimary)
    + ([Burger] + MenuLinks(LinksPrimary + LinksMore))
  }

  /** How many of `es` carry the active class. */
  function CountActive(es: seq<string>): nat {
    if es == [] then 0 else (if MarkedActive(es[0]) then 1 else 0) + CountActive(es[1..])
  }

  lemma {:induction false} CountActiveConcat(a: seq<string>, b: seq<string>)
    ensures CountActive(a + b) == CountActive(a) + CountActive(b)
  {
    if a != [] {
      assert (a + b)[0] == a[0] && (a + b)[1..] == a[1..] + b;
      CountActiveConcat(a[1..], b);
    } else {
      assert a + b == b;
    }
  }

  /** The rendered pills of `links` carry the active class as often as `ActivePills` counts. */
  lemma {:induction false} PillsCountActive(path: string, links: seq<Link>)
    ensures CountActive(Pills(path, links)) == ActivePills(path, links)
  {
    if links != [] {
      PillsCountActive(path, links[1..]);
      assert Pills(path, links)[1..] == Pills(path, links[1..]);
    }
  }

  /** No plain link carries the active class. */
  lemma {:induction false} MenuLinksInactive(links: seq<Link>)
    ensures CountActive(MenuLinks(links)) == 0
  {
    if links != [] {
      MenuLinksInactive(links[1..]);
      assert MenuLinks(links)[1..] == MenuLinks(links[1..]);
    }
  }

  /**
   * Over the whole header, two elements are active on the map, blog and about
   * pages (the pill in each navigation), and none on any other page: the
   * Updates, Limits and AUC links are plain links, so the keys "updates",
   * "limits" and "auc" mark nothing.
   */
  lemma HeaderActiveElements(path: string)
    ensures CountActive(HeaderElements(path)) == (if ActiveKey(path) in {"map", "blog", "about"} then 2 else 0)
  {
    HeaderCountsPrimaryTwice(path);
    HeaderActivePills(path);
  }

  /** The rendered header carries the active class twice as often as the primary pills do. */
  lemma HeaderCountsPrimaryTwice(path: string)
    ensures CountActive(HeaderElements(path)) == 2 * ActivePills(path, LinksPrimary)
  {
    var more, drawer := [MoreButton] + MenuLinks(LinksMore), [Burger] + MenuLinks(LinksPrimary + LinksMore);
    MenusInactive();
    LayoutCount(Pills(path, LinksPrimary), more, drawer);
    PillsCountActive(path, LinksPrimary);
  }

  /** The brand, the "More" button and menu, and the burger and drawer carry no active class. */
  lemma MenusInactive()
    ensures !MarkedActive(Brand)
    ensures CountActive([MoreButton] + MenuLinks(LinksMore)) == 0
    ensures CountActive([Burger] + MenuLinks(LinksPrimary + LinksMore)) == 0
  {
    ButtonsInactive();
    CountActiveConcat([MoreButton], MenuLinks(LinksMore));
    CountActiveConcat([Burger], MenuLinks(LinksPrimary + LinksMore));
    MenuLinksInactive(LinksMore);
    MenuLinksInactive(LinksPrimary + LinksMore);
  }

  /** Neither the brand link nor the two buttons carries the active class. */
  lemma ButtonsInactive()
    ensures !MarkedActive(Brand) && !MarkedActive(MoreButton) && !MarkedActive(Burger)
  {
    assert Brand[13] == 'b' && ActiveOpening[13] == 'p';
    assert MoreButton[1] == 'b' && ActiveOpening[1] == 'a';
    assert Burger[1] == 'b';
  }

  /** The brand, two copies of the pills, and inactive menus and buttons: twice the pills' count. */
  lemma LayoutCount(pills: seq<string>, more: seq<string>, drawer: seq<string>)
    requires !MarkedActive(Brand) && CountActive(more) == 0 && CountActive(drawer) == 0
    ensures CountActive([Brand] + pills + more + pills + drawer) == 2 * CountActive(pills)
  {
    CountActiveConcat([Brand] + pills + more + pills, drawer);
    CountActiveConcat([Brand] + pills + more, pills);
    CountActiveConcat([Brand] + pills, more);
    CountActiveConcat([Brand], pills);
  }

  /** On the Limits page no element of the header is active. */
  lemma LimitsPageMarksNothing()
    ensures CountActive(HeaderElements("/limits.html")) == 0
  {
    LimitsPageGetsLimitsKey();
    HeaderActiveElements("/limits.html");
  }

  /** On the home page two elements are active: the Map pill of each navigation. */
  lemma HomePageMarksTwo()
    ensures CountActive(HeaderElements("/")) == 2
  {
    HomeGetsMapKey();
    HeaderActiveElements("/");
  }
}
