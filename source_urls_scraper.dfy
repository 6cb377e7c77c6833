/** The link-list logic of `scrape_url` in src/source_urls_scraper.py: the
    sidebar anchors become `(title, href)` links with their numbering
    removed, the first GPA landing page is picked out, and the CGPA
    calculator links found on it are appended. The browser is a parameter:
    the anchors of each sidebar category, and `gpaPage`, which maps a URL to
    the `href` attributes of the anchors of its main content block (None
    when the page has no such block). */
module SourceUrlsScraper {
  import opened Common

  /** A sidebar `<a>` tag: its stripped text and its `href` attribute. */
  datatype Anchor = Anchor(text: string, href: Option<string>)

  /** A `(title, url)` entry of `links`. */
  datatype Link = Link(title: string, url: string)

  // ---------------------------------------------------------------------
  // Title cleaning: a leading run of digits, a dot and any whitespace after
  // it are removed, once, at the start of the title only.

  /** `\d` over ASCII digits. */
  predicate IsDigit(c: char)
  {
    '0' <= c <= '9'
  }

  predicate AllDigits(s: string)
  {
    forall i :: 0 <= i < |s| ==> IsDigit(s[i])
  }

  /** `p` matches `\d+\.\s*` as a whole. */
  predicate IsNumbering(p: string)
  {
    exists n :: 0 < n < |p| && AllDigits(p[..n]) && p[n] == '.' && AllSpace(p[n + 1..])
  }

  /** The title starts with `\d+\.`, so the pattern matches at its start. */
  predicate HasNumbering(title: string)
  {
    exists n :: 0 < n < |title| && AllDigits(title[..n]) && title[n] == '.'
  }

  /** The length of the run of digits that starts `s`. */
  function LeadingDigits(s: string): (n: nat)
    ensures n <= |s| && AllDigits(s[..n])
    ensures n == |s| || !IsDigit(s[n])
  {
    if s != [] && IsDigit(s[0]) then
      var m := LeadingDigits(s[1..]);
      assert s[..m + 1] == [s[0]] + s[1..][..m];
      1 + m
    else 0
  }

  /** The title with its leading numbering removed: a title that starts
      with digits and a `.` loses them and the whitespace after them, as one
      match of the pattern anchored at the start; any other title is kept. */
  function StripNumbering(title: string): (r: string)
    ensures !HasNumbering(title) ==> r == title
    ensures HasNumbering(title) ==>
      exists p :: IsNumbering(p) && title == p + r && (r == [] || !IsSpace(r[0]))
  {
    var n := LeadingDigits(title);
    if 0 < n < |title| && title[n] == '.' then
      var r := TrimLeft(title[n + 1..]);
      NumberingRemoved(title, n, r);
      r
    else
      assert !HasNumbering(title) by {
        if m :| 0 < m < |title| && AllDigits(title[..m]) && title[m] == '.' {
          NumberingAt(title, m, n);
        }
      }
      title
  }

  lemma NumberingRemoved(title: string, n: nat, r: string)
    requires 0 < n < |title| && AllDigits(title[..n]) && title[n] == '.'
    requires var rest := title[n + 1..];
      |r| <= |rest| && r == rest[|rest| - |r|..] && AllSpace(rest[..|rest| - |r|])
    ensures exists p :: IsNumbering(p) && title == p + r
  {
    var rest := title[n + 1..];
    var p := title[..|title| - |r|];
    assert p[..n] == title[..n];
    assert p[n + 1..] == rest[..|rest| - |r|];
    assert IsNumbering(p);
    assert title == p + r;
  }

  /** The digits before the `.` of a numbering are exactly the leading
      run of digits. */
  lemma NumberingAt(title: string, m: nat, n: nat)
    requires 0 < m < |title| && AllDigits(title[..m]) && title[m] == '.'
    requires n == LeadingDigits(title)
    ensures n == m
  {
  }

  /** Only one numbering is removed, since the pattern is anchored at the
      start: what follows the first numbering is kept even when it is a
      numbering itself (`"1. 2. x"` becomes `"2. x"`). */
  lemma {:induction false} NumberingRemovedOnce(digits: string, rest: string)
    requires digits != [] && AllDigits(digits)
    requires rest == [] || !IsSpace(rest[0])
    ensures StripNumbering(digits + ". " + rest) == rest
  {
    var t := digits + ". " + rest;
    var n := |digits|;
    assert t == digits + (". " + rest);
    LeadingDigitsAppend(digits, ". " + rest);
    assert t[n + 1..] == " " + rest;
    StripNumberingAt(t, n);
    TrimLeftOneSpace(rest);
  }

  lemma StripNumberingAt(t: string, n: nat)
    requires 0 < n < |t| && LeadingDigits(t) == n && t[n] == '.'
    ensures StripNumbering(t) == TrimLeft(t[n + 1..])
  {
  }

  lemma TrimLeftOneSpace(rest: string)
    requires rest == [] || !IsSpace(rest[0])
    ensures TrimLeft(" " + rest) == rest
  {
    assert (" " + rest)[1..] == rest;
  }

  lemma {:induction false} LeadingDigitsAppend(digits: string, s: string)
    requires AllDigits(digits) && (s == [] || !IsDigit(s[0]))
    ensures LeadingDigits(digits + s) == |digits|
    decreases |digits|
  {
    if digits != [] {
      assert (digits + s)[1..] == digits[1..] + s;
      LeadingDigitsAppend(digits[1..], s);
    } else {
      assert digits + s == s;
    }
  }

  // ---------------------------------------------------------------------
  // The `links` list.

  /** Every anchor of the category has an `href`. */
  predicate Linked(anchors: seq<Anchor>)
  {
    forall j :: 0 <= j < |anchors| ==> anchors[j].href.Some?
  }

  predicate AllLinked(categories: seq<seq<Anchor>>)
  {
    forall c :: 0 <= c < |categories| ==> Linked(categories[c])
  }

  /** The link one anchor becomes: its `href`, and its text without the
      leading numbering, if any. */
  function LinkOf(a: Anchor): (r: Link)
    requires a.href.Some?
    ensures r.url == a.href.value
    ensures !HasNumbering(a.text) ==> r.title == a.text
    ensures HasNumbering(a.text) ==> exists p :: IsNumbering(p) && a.text == p + r.title
  {
    Link(StripNumbering(a.text), a.href.value)
  }

  function AnchorLinks(anchors: seq<Anchor>): (r: seq<Link>)
    requires Linked(anchors)
    ensures |r| == |anchors|
    ensures forall j :: 0 <= j < |anchors| ==> r[j] == LinkOf(anchors[j])
  {
    seq(|anchors|, j requires 0 <= j < |anchors| => LinkOf(anchors[j]))
  }

  /** The links of all anchors: category by category, then anchor by
      anchor, in document order. */
  function LinksOf(categories: seq<seq<Anchor>>): seq<Link>
    requires AllLinked(categories)
  {
    if categories == [] then []
    else
      var n := |categories| - 1;
      LinksOf(categories[..n]) + AnchorLinks(categories[n])
  }

  /** The number of anchors in all categories. */
  function AnchorCount(categories: seq<seq<Anchor>>): nat
  {
    if categories == [] then 0 else AnchorCount(categories[..|categories| - 1]) + |categories[|categories| - 1]|
  }

  lemma AllLinkedAppend(a: seq<seq<Anchor>>, b: seq<seq<Anchor>>)
    requires AllLinked(a) && AllLinked(b)
    ensures AllLinked(a + b)
  {
    forall c | 0 <= c < |a + b| ensures Linked((a + b)[c]) {
      if c < |a| {
        assert (a + b)[c] == a[c];
      } else {
        assert (a + b)[c] == b[c - |a|];
      }
    }
  }

  lemma AllLinkedPrefix(a: seq<seq<Anchor>>, n: nat)
    requires AllLinked(a) && n <= |a|
    ensures AllLinked(a[..n])
  {
    forall c | 0 <= c < n ensures Linked(a[..n][c]) {
      assert a[..n][c] == a[c];
    }
  }

  /** The links of consecutive runs of categories are consecutive. */
  lemma {:induction false} LinksOfAppend(a: seq<seq<Anchor>>, b: seq<seq<Anchor>>)
    requires AllLinked(a) && AllLinked(b)
    ensures AllLinked(a + b) && LinksOf(a + b) == LinksOf(a) + LinksOf(b)
    decreases |b|
  {
    AllLinkedAppend(a, b);
    if b == [] {
      assert a + b == a;
    } else {
      var n := |b| - 1;
      var ab := a + b;
      assert ab[..|ab| - 1] == a + b[..n];
      assert ab[|ab| - 1] == b[n];
      AllLinkedPrefix(b, n);
      LinksOfAppend(a, b[..n]);
      assert LinksOf(ab) == LinksOf(a + b[..n]) + AnchorLinks(b[n]);
    }
  }

  /** `links` has one entry per anchor, and the entry of the `j`-th anchor
      of category `c` follows the entries of all earlier categories. */
  lemma LinksOfPositions(categories: seq<seq<Anchor>>, c: nat, j: nat)
    requires AllLinked(categories)
    requires c < |categories| && j < |categories[c]|
    ensures |LinksOf(categories)| == AnchorCount(categories)
    ensures AnchorCount(categories[..c]) + j < |LinksOf(categories)|
    ensures LinksOf(categories)[AnchorCount(categories[..c]) + j] == LinkOf(categories[c][j])
  {
    var pre, upTo, post := categories[..c], categories[..c + 1], categories[c + 1..];
    var front, here, back := LinksOf(pre), AnchorLinks(categories[c]), LinksOf(post);
    assert AllLinked(pre) && AllLinked(upTo) && AllLinked(post) by {
      AllLinkedPrefix(categories, c);
      AllLinkedPrefix(categories, c + 1);
      AllLinkedSuffix(categories, c + 1);
    }
    assert LinksOf(upTo) == front + here by {
      LinksOfSnoc(categories, c);
    }
    assert LinksOf(categories) == front + here + back by {
      assert categories == upTo + post;
      LinksOfAppend(upTo, post);
    }
    assert |front| == AnchorCount(pre) by {
      LinksOfLength(pre);
    }
    LinksOfLength(categories);
    MiddleIndex(LinksOf(categories), front, here, back, j);
  }

  lemma MiddleIndex(all: seq<Link>, front: seq<Link>, here: seq<Link>, back: seq<Link>, j: nat)
    requires all == front + here + back && j < |here|
    ensures |front| + j < |all| && all[|front| + j] == here[j]
  {
  }

  lemma AllLinkedSuffix(a: seq<seq<Anchor>>, n: nat)
    requires AllLinked(a) && n <= |a|
    ensures AllLinked(a[n..])
  {
    forall c | 0 <= c < |a| - n ensures Linked(a[n..][c]) {
      assert a[n..][c] == a[n + c];
    }
  }

  lemma {:induction false} LinksOfLength(categories: seq<seq<Anchor>>)
    requires AllLinked(categories)
    ensures |LinksOf(categories)| == AnchorCount(categories)
    decreases |categories|
  {
    if categories != [] {
      var n := |categories| - 1;
      var init := categories[..n];
      LinksOfLength(init);
    }
  }

  /** The anchor `(c, j)` is the first one, in document order, without an
      `href`. */
  predicate FirstUnlinked(categories: seq<seq<Anchor>>, c: nat, j: nat)
  {
    && c < |categories| && j < |categories[c]|
    && categories[c][j].href.None?
    && AllLinked(categories[..c])
    && Linked(categories[c][..j])
  }

  /** The nested loops that fill `links`. `a_tag["href"]` raises KeyError
      for an anchor without `href`; the error value is that anchor's
      position. */
  method BuildLinks(categories: seq<seq<Anchor>>) returns (r: Result<seq<Link>, (nat, nat)>)
    ensures r.Success? <==> AllLinked(categories)
    ensures r.Success? ==> AllLinked(categories) && r.value == LinksOf(categories)
    ensures r.Failure? ==> FirstUnlinked(categories, r.error.0, r.error.1)
  {
    var links: seq<Link> := [];
    for c := 0 to |categories|
      invariant AllLinked(categories[..c])
      invariant links == LinksOf(categories[..c])
    {
      var anchors := categories[c];
      ghost var before := links;
      for j := 0 to |anchors|
        invariant Linked(anchors[..j])
        invariant links == before + AnchorLinks(anchors[..j])
      {
        var a := anchors[j];
        if a.href.None? {
          Unlinked(categories, c, j);
          return Failure((c, j));
        }
        AnchorLinksSnoc(anchors, j);
        links := links + [LinkOf(a)];
      }
      assert anchors[..|anchors|] == anchors;
      LinksOfSnoc(categories, c);
    }
    assert categories[..|categories|] == categories;
    return Success(links);
  }

  lemma Unlinked(categories: seq<seq<Anchor>>, c: nat, j: nat)
    requires c < |categories| && j < |categories[c]| && categories[c][j].href.None?
    ensures !AllLinked(categories)
  {
    assert !Linked(categories[c]);
  }

  lemma AnchorLinksSnoc(anchors: seq<Anchor>, j: nat)
    requires j < |anchors| && Linked(anchors[..j]) && anchors[j].href.Some?
    ensures Linked(anchors[..j + 1])
    ensures AnchorLinks(anchors[..j + 1]) == AnchorLinks(anchors[..j]) + [LinkOf(anchors[j])]
  {
    assert anchors[..j + 1] == anchors[..j] + [anchors[j]];
  }

  lemma LinksOfSnoc(categories: seq<seq<Anchor>>, c: nat)
    requires c < |categories| && AllLinked(categories[..c]) && Linked(categories[c])
    ensures AllLinked(categories[..c + 1])
    ensures LinksOf(categories[..c + 1]) == LinksOf(categories[..c]) + AnchorLinks(categories[c])
  {
    assert categories[..c + 1] == categories[..c] + [categories[c]];
    assert categories[..c + 1][..c] == categories[..c];
  }

  // ---------------------------------------------------------------------
  // The GPA landing page.

  /** `c.lower()` for ASCII letters. */
  function LowerChar(c: char): char
  {
    if 'A' <= c <= 'Z' then (c as int + 32) as char else c
  }

  function Lower(s: string): (r: string)
    ensures |r| == |s|
    ensures forall i :: 0 <= i < |s| ==> r[i] == LowerChar(s[i])
  {
    seq(|s|, i requires 0 <= i < |s| => LowerChar(s[i]))
  }

  /** Lowering twice is lowering once. */
  lemma LowerTwice(s: string)
    ensures Lower(Lower(s)) == Lower(s)
  {
  }

  /** The GPA landing page, and not the calculator. */
  predicate IsGpaLanding(url: string)
  {
    Contains(Lower(url), "results/gpa") && !Contains(Lower(url), "calculator")
  }

  /** The `next(...)` over `links`: the first GPA landing URL, if any. */
  function GpaUrl(links: seq<Link>): (r: Option<string>)
    ensures r.None? <==> forall i :: 0 <= i < |links| ==> !IsGpaLanding(links[i].url)
    ensures r.Some? ==>
      exists i :: 0 <= i < |links| && links[i].url == r.value && IsGpaLanding(r.value) &&
        forall j :: 0 <= j < i ==> !IsGpaLanding(links[j].url)
  {
    if links == [] then None
    else if IsGpaLanding(links[0].url) then Some(links[0].url)
    else
      var r := GpaUrl(links[1..]);
      assert forall i :: 0 < i < |links| ==> links[i] == links[1..][i - 1];
      if r.Some? then
        var i :| 0 <= i < |links[1..]| && links[1..][i].url == r.value && IsGpaLanding(r.value) &&
          forall j :: 0 <= j < i ==> !IsGpaLanding(links[1..][j].url);
        assert links[i + 1].url == r.value;
        r
      else r
  }

  /** The GPA test ignores ASCII case. */
  lemma GpaLandingIgnoresCase(url: string)
    ensures IsGpaLanding(Lower(url)) == IsGpaLanding(url)
  {
    LowerTwice(url);
  }

  // ---------------------------------------------------------------------
  // The CGPA calculator links.

  const CgpaTitle := "CGPA Calculator"

  /** A present, non-empty `href` containing "cgpa-calculator" (case-sensitive). */
  predicate IsCgpaHref(href: Option<string>)
  {
    href.Some? && href.value != [] && Contains(href.value, "cgpa-calculator")
  }

  /** A CGPA calculator link is never taken for the GPA landing page, since
      its URL contains "calculator". */
  lemma CgpaHrefNotLanding(url: string)
    requires IsCgpaHref(Some(url))
    ensures !IsGpaLanding(url)
  {
    var i := ContainsWitness(url, "cgpa-calculator");
    var low := Lower(url);
    forall k | 0 <= k < 10 ensures low[i + 5 + k] == "calculator"[k] {
      assert url[i + 5 + k] == url[i..i + 15][5 + k] == "cgpa-calculator"[5 + k];
    }
    assert low[i + 5..i + 15] == "calculator";
    CalculatorAt(low, i + 5);
  }

  lemma {:induction false} CalculatorAt(s: string, i: nat)
    requires i + 10 <= |s| && s[i..i + 10] == "calculator"
    ensures Contains(s, "calculator")
    decreases i
  {
    if i > 0 {
      assert s[1..][i - 1..i + 9] == s[i..i + 10];
      CalculatorAt(s[1..], i - 1);
    }
  }

  /** The links the inline anchors add: one per qualifying `href`, in
      order. */
  function CgpaLinks(hrefs: seq<Option<string>>): (r: seq<Link>)
    ensures forall i :: 0 <= i < |r| ==> r[i].title == CgpaTitle && IsCgpaHref(Some(r[i].url))
  {
    if hrefs == [] then []
    else
      var n := |hrefs| - 1;
      CgpaLinks(hrefs[..n]) + (if IsCgpaHref(hrefs[n]) then [Link(CgpaTitle, hrefs[n].value)] else [])
  }

  /** Every qualifying `href` yields a link. */
  lemma {:induction false} CgpaLinksComplete(hrefs: seq<Option<string>>, i: nat)
    requires i < |hrefs| && IsCgpaHref(hrefs[i])
    ensures Link(CgpaTitle, hrefs[i].value) in CgpaLinks(hrefs)
    decreases |hrefs|
  {
    var n := |hrefs| - 1;
    if i < n {
      CgpaLinksComplete(hrefs[..n], i);
    }
  }

  /** The loop over the inline anchors: the earlier links are kept as they
      are and the CGPA links follow them. */
  method AppendCgpaLinks(links: seq<Link>, hrefs: seq<Option<string>>) returns (r: seq<Link>)
    ensures r == links + CgpaLinks(hrefs)
  {
    r := links;
    for i := 0 to |hrefs|
      invariant r == links + CgpaLinks(hrefs[..i])
    {
      assert hrefs[..i + 1][..i] == hrefs[..i];
      if IsCgpaHref(hrefs[i]) {
        r := r + [Link(CgpaTitle, hrefs[i].value)];
      }
    }
    assert hrefs[..|hrefs|] == hrefs;
  }

  /** The link list `scrape_url` ends with, before it is written out. */
  method ScrapeLinks(categories: seq<seq<Anchor>>, gpaPage: string -> Option<seq<Option<string>>>)
    returns (r: Result<seq<Link>, (nat, nat)>)
    ensures r.Success? <==> AllLinked(categories)
    ensures r.Success? ==>
      AllLinked(categories) &&
      var links := LinksOf(categories);
      var gpa := GpaUrl(links);
      r.value == links + (if gpa.Some? && gpaPage(gpa.value).Some? then CgpaLinks(gpaPage(gpa.value).value) else [])
    ensures r.Failure? ==> FirstUnlinked(categories, r.error.0, r.error.1)
  {
    r := BuildLinks(categories);
    if r.Failure? {
      return;
    }
    var links := r.value;
    var gpa := GpaUrl(links);
    if gpa.Some? {
      var inline := gpaPage(gpa.value);
      if inline.Some? {
        var all := AppendCgpaLinks(links, inline.value);
        return Success(all);
      }
    }
    assert links + [] == links;
  }
}
