/** The logic of the blog's post page (ar/posts/post-page.js): which post the
    URL names, how it is looked up, the byline and author box, the related
    posts, the table of contents and the heading highlighted while
    scrolling. Markup, fetching and scrolling are left to the browser. */
module PostPage {
  import opened Base
  import opened UrlPath

  // ---------------------------------------------------------------------
  // Posts as the JSON file lists them.
  // ---------------------------------------------------------------------

  /** A text field of the JSON as JavaScript sees it: missing (read as
      `undefined`), `null`, or a string. */
  datatype JsonText = Absent | Null | Text(text: string)

  /** A post's author. */
  datatype Author = Author(name: JsonText, linkedin: JsonText, avatar: JsonText)

  datatype Post = Post(id: string, title: string, date: string, author: Option<Author>)

  /** A text field that passes a JavaScript truthiness test: `undefined`,
      `null` and `""` are falsy. */
  predicate Truthy(v: JsonText) {
    v.Text? && v.text != ""
  }

  /** A field inside a template literal: a missing one prints "undefined",
      a `null` one prints "null". */
  function TemplateText(v: JsonText): string {
    match v
    case Text(s) => s
    case Absent => "undefined"
    case Null => "null"
  }

  // ---------------------------------------------------------------------
  // The route.
  // ---------------------------------------------------------------------

  /** What `main` makes of the path: the post id, or no usable post id. */
  datatype Route = NoPost | PostRoute(id: string)

  /** The id is the last segment; it names a post only when the segment
      `posts` occurs before it. */
  function RouteOf(path: string): (r: Route)
    ensures r.PostRoute? <==>
      |Segments(path)| > 0 && "posts" in Segments(path)[..|Segments(path)| - 1]
    ensures r.PostRoute? ==> r.id == Segments(path)[|Segments(path)| - 1] && r.id != ""
  {
    var segs := Segments(path);
    if |segs| == 0 then NoPost
    else if "posts" in segs[..|segs| - 1] then PostRoute(segs[|segs| - 1])
    else NoPost
  }

  /** The post id is the last non-empty text between slashes of the path:
      only doubled or trailing slashes may follow it. */
  lemma RouteIdIsLastPart(path: string)
    requires RouteOf(path).PostRoute?
    ensures exists i :: 0 <= i < |Split(path)| && Split(path)[i] == RouteOf(path).id
                        && EmptyAfter(Split(path), i)
  {
    LastSegment(path);
  }

  function LocaleCode(loc: Locale): string {
    match loc
    case Arabic => "ar"
    case English => "en"
  }

  function OtherLocale(loc: Locale): Locale {
    match loc
    case Arabic => English
    case English => Arabic
  }

  /** The language switcher's link: the same post id under the other
      edition's `posts`, "undefined" when the path has no segment at all. */
  function SwitchHref(loc: Locale, path: string): (href: string)
    ensures RouteOf(path).PostRoute? ==>
      href == "/" + LocaleCode(OtherLocale(loc)) + "/posts/" + RouteOf(path).id + "/"
    ensures LocaleCode(OtherLocale(loc)) != LocaleCode(loc)
  {
    var segs := Segments(path);
    var id := if |segs| == 0 then "undefined" else segs[|segs| - 1];
    "/" + LocaleCode(OtherLocale(loc)) + "/posts/" + id + "/"
  }

  /** The path of a post under an edition, as the switcher writes it. */
  lemma PostPathSegments(code: string, id: string)
    requires code != "" && '/' !in code
    requires id != "" && '/' !in id
    ensures Segments("/" + code + "/posts/" + id + "/") == [code, "posts", id]
  {
    var parts := ["", code, "posts", id, ""];
    assert Join(parts[4..]) == "";
    assert Join(parts[3..]) == id + "/";
    assert Join(parts[2..]) == "posts/" + id + "/";
    assert Join(parts) == "/" + code + "/posts/" + id + "/";
    SegmentsOfJoin(parts);
    assert NonEmpty(parts[3..]) == [id];
    assert NonEmpty(parts[2..]) == ["posts", id];
  }

  /** The language switcher leads to the same post: when the path names a
      post, the switcher's link names that post too. */
  lemma SwitchKeepsPost(loc: Locale, path: string)
    requires RouteOf(path).PostRoute?
    ensures RouteOf(SwitchHref(loc, path)) == RouteOf(path)
  {
    var id := RouteOf(path).id;
    var code := LocaleCode(OtherLocale(loc));
    assert SwitchHref(loc, path) == "/" + code + "/posts/" + id + "/";
    PostPathSegments(code, id);
    assert [code, "posts", id][..2] == [code, "posts"];
  }

  // ---------------------------------------------------------------------
  // Loading.
  // ---------------------------------------------------------------------

  /** The first post with the given id, as `Array.prototype.find` returns it. */
  function FindIndex(posts: seq<Post>, id: string): (r: Option<nat>)
    ensures r.Some? ==> r.value < |posts| && posts[r.value].id == id
    ensures r.Some? ==> forall j :: 0 <= j < r.value ==> posts[j].id != id
    ensures r.None? ==> forall j :: 0 <= j < |posts| ==> posts[j].id != id
    decreases |posts|
  {
    if |posts| == 0 then None
    else if posts[0].id == id then Some(0)
    else match FindIndex(posts[1..], id)
      case None => None
      case Some(k) => Some(k + 1)
  }

  /** The three ways the page can end up showing an error. */
  datatype LoadError = BadPath | LoadFailed | NotFound

  datatype Outcome = Failed(error: LoadError) | Found(post: Post)

  /** `main` up to rendering: the route is checked first, then the fetched
      list (`None` when the request or the JSON failed), then the post is
      looked up by id. */
  function Load(path: string, fetched: Option<seq<Post>>): (r: Outcome)
    ensures r == Failed(BadPath) <==> RouteOf(path).NoPost?
    ensures r == Failed(LoadFailed) <==> RouteOf(path).PostRoute? && fetched.None?
    ensures r == Failed(NotFound) <==>
      && RouteOf(path).PostRoute? && fetched.Some?
      && forall j :: 0 <= j < |fetched.value| ==> fetched.value[j].id != RouteOf(path).id
    ensures r.Found? ==>
      && RouteOf(path).PostRoute? && fetched.Some?
      && exists k :: 0 <= k < |fetched.value| && fetched.value[k] == r.post
           && r.post.id == RouteOf(path).id
           && forall j :: 0 <= j < k ==> fetched.value[j].id != r.post.id
  {
    match RouteOf(path)
    case NoPost => Failed(BadPath)
    case PostRoute(id) =>
      match fetched
      case None => Failed(LoadFailed)
      case Some(posts) =>
        match FindIndex(posts, id)
        case None => Failed(NotFound)
        case Some(k) => Found(posts[k])
  }

  function ErrorTitle(loc: Locale, e: LoadError): string {
    match (loc, e)
    case (Arabic, LoadFailed) => "خطأ في التحميل"
    case (Arabic, NotFound) => "404"
    case (Arabic, BadPath) => "خطأ"
    case (English, LoadFailed) => "Loading Error"
    case (English, NotFound) => "404"
    case (English, BadPath) => "Error"
  }

  function ErrorMessage(loc: Locale, e: LoadError): string {
    match (loc, e)
    case (Arabic, LoadFailed) => "لا يمكن تحميل المقالات."
    case (Arabic, _) => "المقال غير موجود."
    case (English, LoadFailed) => "Could not load posts."
    case (English, _) => "Post not found."
  }

  /** A malformed path and an unknown id read the same to the visitor; only
      the title tells them apart. */
  lemma BadPathReadsAsNotFound(loc: Locale)
    ensures ErrorMessage(loc, BadPath) == ErrorMessage(loc, NotFound)
    ensures ErrorTitle(loc, BadPath) != ErrorTitle(loc, NotFound)
    ensures ErrorMessage(loc, LoadFailed) != ErrorMessage(loc, NotFound)
  {
  }

  // ---------------------------------------------------------------------
  // Byline and author box.
  // ---------------------------------------------------------------------

  /** The byline names the author, with a link, when the post has an author
      with a name, and the site's owner otherwise. */
  datatype Byline = ByAuthor(name: string, href: string) | ByOwner

  function BylineOf(p: Post): (b: Byline)
    ensures b.ByOwner? <==> !(p.author.Some? && Truthy(p.author.value.name))
    ensures b.ByAuthor? ==> b.name == p.author.value.name.text && b.name != ""
    ensures b.ByAuthor? ==> b.href == TemplateText(p.author.value.linkedin)
  {
    match p.author
    case Some(a) =>
      if Truthy(a.name) then ByAuthor(a.name.text, TemplateText(a.linkedin)) else ByOwner
    case None => ByOwner
  }

  const OWNER_NAME := "Omar Badr"

  /** The name the byline shows. */
  function BylineName(b: Byline): string {
    match b
    case ByAuthor(name, _) => name
    case ByOwner => OWNER_NAME
  }

  /** The byline always shows a name: a blank author name is never printed. */
  lemma BylineNeverBlank(p: Post)
    ensures BylineName(BylineOf(p)) != ""
  {
  }

  /** The author box: the avatar (under the site root), the name and the
      LinkedIn link, printed as the template prints them. */
  datatype AuthorCard = AuthorCard(avatarSrc: string, name: string, linkedin: string)

  /** `renderAuthorBox`: a box only for an author with an avatar. */
  function AuthorBox(p: Post): (card: Option<AuthorCard>)
    ensures card.Some? <==> p.author.Some? && Truthy(p.author.value.avatar)
    ensures card.Some? ==>
      && card.value.avatarSrc == "../../" + p.author.value.avatar.text
      && card.value.name == TemplateText(p.author.value.name)
  {
    match p.author
    case Some(a) =>
      if Truthy(a.avatar) then
        Some(AuthorCard("../../" + a.avatar.text, TemplateText(a.name), TemplateText(a.linkedin)))
      else None
    case None => None
  }

  /** The byline and the box are decided by different fields: an author with
      an avatar but no usable name gets a box while the byline credits the
      owner, and the box prints the name field as the template renders it. */
  lemma BoxWithoutNamedByline(p: Post)
    requires p.author.Some? && !Truthy(p.author.value.name) && Truthy(p.author.value.avatar)
    ensures AuthorBox(p).Some? && BylineOf(p) == ByOwner
    ensures p.author.value.name.Absent? ==> AuthorBox(p).value.name == "undefined"
    ensures p.author.value.name.Null? ==> AuthorBox(p).value.name == "null"
    ensures p.author.value.name.Text? ==> AuthorBox(p).value.name == ""
  {
  }

  // ---------------------------------------------------------------------
  // Related posts.
  // ---------------------------------------------------------------------

  /** The date the JSON gives a post that is not out yet. */
  function ComingSoon(loc: Locale): string {
    match loc
    case Arabic => "قريباً"
    case English => "Coming Soon"
  }

  predicate IsEligible(loc: Locale, currentId: string, p: Post) {
    p.id != currentId && p.date != ComingSoon(loc)
  }

  /** The candidates for the related list: every post but the current one
      and the unpublished ones, in their original order. */
  function Eligible(loc: Locale, posts: seq<Post>, currentId: string): (r: seq<Post>)
    ensures forall i :: 0 <= i < |r| ==> IsEligible(loc, currentId, r[i])
    ensures forall x :: multiset(r)[x] == if IsEligible(loc, currentId, x) then multiset(posts)[x] else 0
    decreases |posts|
  {
    if |posts| == 0 then []
    else
      var rest := Eligible(loc, posts[1..], currentId);
      assert posts == [posts[0]] + posts[1..];
      if IsEligible(loc, currentId, posts[0]) then [posts[0]] + rest else rest
  }

  /** Filtering keeps the order: the candidates of two lists one after the
      other are the candidates of each, one after the other. */
  lemma {:induction false} EligibleAppend(loc: Locale, a: seq<Post>, b: seq<Post>, currentId: string)
    ensures Eligible(loc, a + b, currentId) == Eligible(loc, a, currentId) + Eligible(loc, b, currentId)
    decreases |a|
  {
    if |a| == 0 {
      assert a + b == b;
    } else {
      assert (a + b)[1..] == a[1..] + b;
      EligibleAppend(loc, a[1..], b, currentId);
    }
  }

  /** The related-posts section: hidden, or up to three cards. */
  datatype Related = HiddenSection | Cards(posts: seq<Post>)

  /** `renderRelatedPosts` given the order the shuffle produced: `shuffled`
      is any rearrangement of the eligible posts, since the random
      comparator fixes no particular order. The first three are shown. */
  function SelectRelated(loc: Locale, posts: seq<Post>, currentId: string, shuffled: seq<Post>): (r: Related)
    requires multiset(shuffled) == multiset(Eligible(loc, posts, currentId))
    ensures r.HiddenSection? <==> |Eligible(loc, posts, currentId)| == 0
    ensures r.Cards? ==>
      && |r.posts| == Min(3, |Eligible(loc, posts, currentId)|)
      && multiset(r.posts) <= multiset(Eligible(loc, posts, currentId))
      && forall i :: 0 <= i < |r.posts| ==> IsEligible(loc, currentId, r.posts[i])
  {
    var eligible := Eligible(loc, posts, currentId);
    var chosen := shuffled[..Min(3, |shuffled|)];
    SameMultisetSameLength(shuffled, eligible);
    PrefixSubMultiset(shuffled, |chosen|);
    SubMultisetKeepsEligible(loc, currentId, chosen, eligible);
    if |chosen| == 0 then HiddenSection else Cards(chosen)
  }

  lemma SameMultisetSameLength(a: seq<Post>, b: seq<Post>)
    requires multiset(a) == multiset(b)
    ensures |a| == |b|
  {
    assert |a| == |multiset(a)| && |b| == |multiset(b)|;
  }

  lemma PrefixSubMultiset(s: seq<Post>, n: nat)
    requires n <= |s|
    ensures multiset(s[..n]) <= multiset(s)
  {
    assert s == s[..n] + s[n..];
  }

  /** Posts drawn from a list of candidates are candidates. */
  lemma SubMultisetKeepsEligible(loc: Locale, currentId: string, a: seq<Post>, b: seq<Post>)
    requires multiset(a) <= multiset(b)
    requires forall i :: 0 <= i < |b| ==> IsEligible(loc, currentId, b[i])
    ensures forall i :: 0 <= i < |a| ==> IsEligible(loc, currentId, a[i])
  {
    forall i | 0 <= i < |a|
      ensures IsEligible(loc, currentId, a[i])
    {
      assert a[i] in multiset(a);
      assert a[i] in b;
    }
  }

  /** No post is listed more often than the JSON lists it; in particular a
      list of distinct posts yields distinct cards. */
  lemma RelatedDistinct(loc: Locale, posts: seq<Post>, currentId: string, shuffled: seq<Post>)
    requires multiset(shuffled) == multiset(Eligible(loc, posts, currentId))
    requires forall i, j :: 0 <= i < j < |posts| ==> posts[i] != posts[j]
    ensures var r := SelectRelated(loc, posts, currentId, shuffled);
      r.Cards? ==> forall i, j :: 0 <= i < j < |r.posts| ==> r.posts[i] != r.posts[j]
  {
    var r := SelectRelated(loc, posts, currentId, shuffled);
    if r.Cards? {
      DistinctAtMostOnce(posts);
      AtMostOnceDistinct(r.posts);
    }
  }

  /** A sequence without repeats holds each value at most once. */
  lemma {:induction false} DistinctAtMostOnce(s: seq<Post>)
    requires forall i, j :: 0 <= i < j < |s| ==> s[i] != s[j]
    ensures forall x :: multiset(s)[x] <= 1
    decreases |s|
  {
    if |s| > 0 {
      DistinctAtMostOnce(s[1..]);
      assert s == [s[0]] + s[1..];
      assert s[0] !in s[1..];
    }
  }

  /** A sequence that holds each value at most once has no repeats. */
  lemma AtMostOnceDistinct(s: seq<Post>)
    requires forall x :: multiset(s)[x] <= 1
    ensures forall i, j :: 0 <= i < j < |s| ==> s[i] != s[j]
  {
    forall i, j | 0 <= i < j < |s|
      ensures s[i] != s[j]
    {
      RepeatCountsTwice(s, i, j);
    }
  }

  /** A value at two positions occurs at least twice. */
  lemma RepeatCountsTwice(s: seq<Post>, i: nat, j: nat)
    requires i < j < |s|
    ensures s[i] == s[j] ==> multiset(s)[s[i]] >= 2
  {
    assert s == s[..j] + s[j..];
    assert s[..j][i] == s[i] && s[j..][0] == s[j];
  }

  // ---------------------------------------------------------------------
  // Table of contents.
  // ---------------------------------------------------------------------

  /** The post body's `h2` and `h3` elements, in document order. */
  datatype Tag = H2 | H3

  datatype Heading = Heading(tag: Tag, text: string)

  datatype Level = LevelH2 | LevelH3

  datatype TocEntry = TocEntry(id: string, href: string, level: Level, text: string)

  const HEADING_PREFIX := "heading-"

  function HeadingId(i: nat): string {
    HEADING_PREFIX + Decimal(i)
  }

  /** `generateTOC`: nothing for fewer than two headings; otherwise one entry
      per heading, numbered from zero. */
  function BuildToc(hs: seq<Heading>): (toc: Option<seq<TocEntry>>)
    ensures toc.None? <==> |hs| < 2
    ensures toc.Some? ==> |toc.value| == |hs|
  {
    if |hs| < 2 then None
    else Some(seq(|hs|, i requires 0 <= i < |hs| =>
      TocEntry(HeadingId(i), "#" + HeadingId(i),
               if hs[i].tag == H3 then LevelH3 else LevelH2, hs[i].text)))
  }

  /** Reads a heading id back as its index. */
  function HeadingIndex(id: string): Option<nat> {
    if |HEADING_PREFIX| <= |id| && id[..|HEADING_PREFIX|] == HEADING_PREFIX
       && |id| > |HEADING_PREFIX| && AllDigits(id[|HEADING_PREFIX|..])
    then Some(DecimalValue(id[|HEADING_PREFIX|..]))
    else None
  }

  /** Each entry links to its own heading, keeps the heading's text and
      level, and its id reads back as its position. */
  lemma TocEntries(hs: seq<Heading>, i: nat)
    requires |hs| >= 2 && i < |hs|
    ensures var e := BuildToc(hs).value[i];
      && e.href == "#" + e.id
      && HeadingIndex(e.id) == Some(i)
      && e.text == hs[i].text
      && (e.level == LevelH3 <==> hs[i].tag == H3)
  {
    var e := BuildToc(hs).value[i];
    assert e.id == HEADING_PREFIX + Decimal(i);
    assert e.id[..|HEADING_PREFIX|] == HEADING_PREFIX;
    assert e.id[|HEADING_PREFIX|..] == Decimal(i);
    DecimalRoundTrip(i);
  }

  /** Distinct headings get distinct ids, hence distinct links. */
  lemma TocIdsDistinct(hs: seq<Heading>, i: nat, j: nat)
    requires |hs| >= 2 && i < |hs| && j < |hs| && i != j
    ensures BuildToc(hs).value[i].id != BuildToc(hs).value[j].id
    ensures BuildToc(hs).value[i].href != BuildToc(hs).value[j].href
  {
    var a, b := BuildToc(hs).value[i], BuildToc(hs).value[j];
    TocEntries(hs, i);
    TocEntries(hs, j);
    assert ("#" + a.id)[1..] == a.id && ("#" + b.id)[1..] == b.id;
  }

  // ---------------------------------------------------------------------
  // The heading highlighted while scrolling.
  // ---------------------------------------------------------------------

  /** A heading's id and the top of its box relative to the viewport. */
  datatype Placed = Placed(id: string, top: real)

  const THRESHOLD: real := 150.0

  /** The last heading whose top is above the threshold. */
  function LastAbove(hs: seq<Placed>): (r: Option<nat>)
    ensures r.Some? ==> r.value < |hs| && hs[r.value].top < THRESHOLD
    ensures r.Some? ==> forall j :: r.value < j < |hs| ==> hs[j].top >= THRESHOLD
    ensures r.None? ==> forall j :: 0 <= j < |hs| ==> hs[j].top >= THRESHOLD
    decreases |hs|
  {
    if |hs| == 0 then None
    else if hs[|hs| - 1].top < THRESHOLD then Some(|hs| - 1)
    else LastAbove(hs[..|hs| - 1])
  }

  /** The id `handleScroll` settles on: that of the last heading above the
      threshold, or the empty text when there is none. */
  function ActiveId(hs: seq<Placed>): string {
    match LastAbove(hs)
    case None => ""
    case Some(k) => hs[k].id
  }

  /** The loop of `handleScroll`, which overwrites its choice for every
      heading above the threshold. */
  method ActiveHeadingId(hs: seq<Placed>) returns (id: string)
    ensures id == ActiveId(hs)
  {
    id := "";
    var i := 0;
    while i < |hs|
      invariant 0 <= i <= |hs|
      invariant id == ActiveId(hs[..i])
    {
      assert hs[..i + 1][..i] == hs[..i];
      if hs[i].top < THRESHOLD {
        id := hs[i].id;
      }
      i := i + 1;
    }
    assert hs[..i] == hs;
  }

  /** The `active` flag of each table-of-contents link after a scroll. */
  function MarkActive(hrefs: seq<string>, activeId: string): (flags: seq<bool>)
    ensures |flags| == |hrefs|
  {
    seq(|hrefs|, i requires 0 <= i < |hrefs| => hrefs[i] == "#" + activeId)
  }

  function Hrefs(toc: seq<TocEntry>): seq<string> {
    seq(|toc|, i requires 0 <= i < |toc| => toc[i].href)
  }

  /** Among distinct links at most one is marked. */
  lemma AtMostOneMarked(hrefs: seq<string>, activeId: string, i: nat, j: nat)
    requires forall a, b :: 0 <= a < b < |hrefs| ==> hrefs[a] != hrefs[b]
    requires i < |hrefs| && j < |hrefs|
    requires MarkActive(hrefs, activeId)[i] && MarkActive(hrefs, activeId)[j]
    ensures i == j
  {
  }

  /** With a table of contents in place, the heading at position `k` being
      the active one marks its entry and no other; with no heading above the
      threshold no entry is marked. */
  lemma TocMarksActiveEntry(hs: seq<Heading>, k: nat)
    requires |hs| >= 2 && k < |hs|
    ensures MarkActive(Hrefs(BuildToc(hs).value), HeadingId(k)) == seq(|hs|, i => i == k)
    ensures MarkActive(Hrefs(BuildToc(hs).value), "") == seq(|hs|, _ => false)
  {
    var toc := BuildToc(hs).value;
    forall i | 0 <= i < |hs|
      ensures (Hrefs(toc)[i] == "#" + HeadingId(k)) <==> i == k
      ensures Hrefs(toc)[i] != "#"
    {
      if i != k {
        DecimalInjective(i, k);
        assert Hrefs(toc)[i] == "#" + HeadingId(i);
        assert ("#" + HeadingId(i))[1..] == HeadingId(i);
        assert ("#" + HeadingId(k))[1..] == HeadingId(k);
        assert HeadingId(i)[|HEADING_PREFIX|..] == Decimal(i);
        assert HeadingId(k)[|HEADING_PREFIX|..] == Decimal(k);
      }
      assert |Hrefs(toc)[i]| > 1;
    }
  }

  /** The table of contents and the scroll highlight agree: when the headings
      the page measures are the ones the table was built from, in order, the
      entry marked after a scroll is the entry of the last heading above the
      threshold, and no entry is marked when none is above it. */
  lemma HighlightFollowsScroll(hs: seq<Heading>, placed: seq<Placed>)
    requires |hs| >= 2 && |placed| == |hs|
    requires forall i :: 0 <= i < |placed| ==> placed[i].id == HeadingId(i)
    ensures var flags := MarkActive(Hrefs(BuildToc(hs).value), ActiveId(placed));
      |flags| == |hs| && forall i :: 0 <= i < |hs| ==> (flags[i] <==> LastAbove(placed) == Some(i))
  {
    var last := LastAbove(placed);
    if last.Some? {
      TocMarksActiveEntry(hs, last.value);
    } else {
      TocMarksActiveEntry(hs, 0);
    }
  }
}
