/** `ComicParser.get_comic_info` after scraping, and the chapter lookup of the
    `/comic/<id>/chapter/<n>` route.  The regular-expression matches on the
    comic page are inputs; what is modelled is how they become the answer. */
module ComicInfo {
  import opened Wrappers
  import opened PyText
  import Deobfuscation
  import ChapterPipeline

  const Site := "https://ac.qq.com"
  const UnknownTitle := "未知标题"
  /** 未知, shared by the popularity and the score when they are missing. */
  const Unknown := "未知"
  const ChapterSeparator: char := '：'

  /** The three groups of one chapter-link match: the `title` attribute, the
      `/ComicView/index/id/…/cid/…` path and the link text. */
  datatype ChapterMatch = ChapterMatch(titleAttr: string, path: string, text: string)

  datatype Chapter = Chapter(number: nat, link: string, title: string)

  datatype Rating = Rating(score: string, ratingCount: string)

  /** What the scraping expressions found on the comic page. */
  datatype ComicPage = ComicPage(
    titleMatch: Option<string>,
    coverMatch: Option<string>,
    popularityMatch: Option<string>,
    ratingMatch: Option<(string, string)>,
    chapterMatches: seq<ChapterMatch>)

  datatype Info = Info(
    comicId: string,
    title: string,
    popularity: string,
    rating: Rating,
    chapters: seq<Chapter>,
    coverUrl: Option<string>,
    totalChapters: nat)

  datatype ComicError =
    | RequestFailed(status: int)      // 请求失败，状态码
    | ChapterNameMissing(index: nat)  // `split("：")[1]` raises IndexError

  // ---------------------------------------------------------------------------
  // Title and cover

  /** The comic title: the text before the first `-`, stripped; a title without
      `-` is kept as it is. */
  function ComicTitle(title: string): (r: string)
    ensures '-' in title ==> r == Strip(title[..IndexOf(title, '-').value])
    ensures '-' !in title ==> r == title
  {
    SplitAtFirst(title, '-');
    if '-' in title then Strip(Split(title, '-')[0]) else title
  }

  /** A protocol-relative cover address gets `https:`, a site-relative one the
      site's origin; anything else is kept. */
  function NormalizeCover(u: string): (r: string)
    ensures |u| <= |r| && r[|r| - |u|..] == u
    ensures r == u <==> !StartsWith(u, "/")
    ensures !StartsWith(r, "/")
    ensures StartsWith(u, "//") ==> StartsWith(r, "https://") && |r| == |"https:"| + |u|
    ensures StartsWith(u, "/") && !StartsWith(u, "//") ==> StartsWith(r, Site + "/") && |r| == |Site| + |u|
  {
    if StartsWith(u, "//") then
      var r := "https:" + u;
      assert r[0] == 'h' && r[|r| - |u|..] == u;
      assert r[..8] == "https:" + u[..2];
      r
    else if StartsWith(u, "/") then
      var r := Site + u;
      assert r[0] == 'h' && r[|r| - |u|..] == u;
      assert r[..|Site| + 1] == Site + u[..1];
      r
    else u
  }

  /** A normalised cover address is left alone by a second normalisation. */
  lemma NormalizeCoverIdempotent(u: string)
    ensures NormalizeCover(NormalizeCover(u)) == NormalizeCover(u)
  {
  }

  // ---------------------------------------------------------------------------
  // Chapter list

  /** `title_attr.strip().split("：")[1]`, or nothing when that raises. */
  function ChapterName(titleAttr: string): Option<string> {
    var parts := Split(Strip(titleAttr), ChapterSeparator);
    if |parts| < 2 then None else Some(parts[1])
  }

  /** The chapter name is the text between the first and the second full-width
      colon of the stripped attribute (or up to its end), and there is none
      exactly when the attribute has no colon. */
  lemma {:induction false} ChapterNameSpec(titleAttr: string)
    ensures ChapterName(titleAttr).Some? <==> ChapterSeparator in Strip(titleAttr)
    ensures ChapterName(titleAttr).Some? ==>
      var r, t := ChapterName(titleAttr).value, Strip(titleAttr);
      var rest := t[IndexOf(t, ChapterSeparator).value + 1..];
      && ChapterSeparator !in r
      && |r| <= |rest| && r == rest[..|r|]
      && (|r| == |rest| || rest[|r|] == ChapterSeparator)
  {
    var t := Strip(titleAttr);
    SplitSeveral(t, ChapterSeparator);
    if ChapterSeparator in t {
      SecondPiece(t, ChapterSeparator);
      SplitPiecesFree(t, ChapterSeparator);
    }
  }

  /** The chapter a match becomes when it is the `number`-th one found; none
      when its title attribute has no colon. */
  function MakeChapter(m: ChapterMatch, number: nat): Option<Chapter> {
    match ChapterName(m.titleAttr)
    case None => None
    case Some(name) => Some(Chapter(number, Site + m.path, name))
  }

  lemma MakeChapterFields(m: ChapterMatch, number: nat)
    ensures MakeChapter(m, number).Some? <==> ChapterName(m.titleAttr).Some?
    ensures MakeChapter(m, number).Some? ==>
      var c := MakeChapter(m, number).value;
      c.number == number && c.link == Site + m.path && Some(c.title) == ChapterName(m.titleAttr)
  {
  }

  /** The first loop of `get_comic_info` from match `from` on: match `i` becomes
      chapter `i + 1`, and the first match without a colon aborts the call. */
  function BuildFrom(ms: seq<ChapterMatch>, from: nat): (r: Result<seq<Chapter>, ComicError>)
    requires from <= |ms|
    ensures r.Success? ==>
      && |r.value| == |ms| - from
      && forall i :: from <= i < |ms| ==> Some(r.value[i - from]) == MakeChapter(ms[i], i + 1)
    decreases |ms| - from
  {
    if from == |ms| then Success([])
    else
      match MakeChapter(ms[from], from + 1)
      case None => Failure(ChapterNameMissing(from))
      case Some(c) =>
        match BuildFrom(ms, from + 1)
        case Failure(e) => Failure(e)
        case Success(rest) =>
          BuiltCons(ms, from, c, rest);
          Success([c] + rest)
  }

  /** The chapter of match `from` in front of the chapters of the later matches
      gives the chapters of the matches from `from` on. */
  lemma BuiltCons(ms: seq<ChapterMatch>, from: nat, c: Chapter, rest: seq<Chapter>)
    requires from < |ms| && MakeChapter(ms[from], from + 1) == Some(c)
    requires |rest| == |ms| - (from + 1)
    requires forall i :: from + 1 <= i < |ms| ==> Some(rest[i - (from + 1)]) == MakeChapter(ms[i], i + 1)
    ensures forall i :: from <= i < |ms| ==> Some(([c] + rest)[i - from]) == MakeChapter(ms[i], i + 1)
  {
    var r := [c] + rest;
    forall i | from <= i < |ms|
      ensures Some(r[i - from]) == MakeChapter(ms[i], i + 1)
    {
      if i > from {
        assert r[i - from] == rest[i - (from + 1)];
      }
    }
  }

  /** A failed build names the first match, from `from` on, without a colon. */
  lemma BuildFromFailure(ms: seq<ChapterMatch>, from: nat)
    requires from <= |ms|
    ensures var r := BuildFrom(ms, from);
      r.Failure? ==>
      && r.error.ChapterNameMissing?
      && from <= r.error.index < |ms| && MakeChapter(ms[r.error.index], r.error.index + 1).None?
      && forall i :: from <= i < r.error.index ==> MakeChapter(ms[i], i + 1).Some?
  {
    FailureNamesMissing(ms, from);
    FailurePrefixBuilt(ms, from);
  }

  /** The match a failed build names has no colon. */
  lemma {:induction false} FailureNamesMissing(ms: seq<ChapterMatch>, from: nat)
    requires from <= |ms|
    ensures var r := BuildFrom(ms, from);
      r.Failure? ==>
      && r.error.ChapterNameMissing?
      && from <= r.error.index < |ms| && MakeChapter(ms[r.error.index], r.error.index + 1).None?
    decreases |ms| - from
  {
    if from < |ms| && MakeChapter(ms[from], from + 1).Some? {
      FailureNamesMissing(ms, from + 1);
    }
  }

  /** Every match before the one a failed build names has a colon. */
  lemma {:induction false} FailurePrefixBuilt(ms: seq<ChapterMatch>, from: nat)
    requires from <= |ms|
    ensures var r := BuildFrom(ms, from);
      r.Failure? && r.error.ChapterNameMissing? && r.error.index <= |ms| ==>
      forall i :: from <= i < r.error.index ==> MakeChapter(ms[i], i + 1).Some?
    decreases |ms| - from
  {
    if from < |ms| && MakeChapter(ms[from], from + 1).Some? {
      FailurePrefixBuilt(ms, from + 1);
    }
  }

  /** The whole first loop: the `i`-th match (from 0) becomes chapter `i + 1`. */
  function BuildChapters(ms: seq<ChapterMatch>): (r: Result<seq<Chapter>, ComicError>)
    ensures r.Success? ==>
      && |r.value| == |ms|
      && forall i :: 0 <= i < |ms| ==> Some(r.value[i]) == MakeChapter(ms[i], i + 1)
    ensures r.Failure? ==> r.error.ChapterNameMissing?
    ensures r.Failure? && r.error.ChapterNameMissing? ==>
      var k := r.error.index;
      && k < |ms| && MakeChapter(ms[k], k + 1).None?
      && forall i :: 0 <= i < k ==> MakeChapter(ms[i], i + 1).Some?
  {
    BuildFromFailure(ms, 0);
    BuildFrom(ms, 0)
  }

  /** The list is built exactly when every title attribute has a colon. */
  lemma BuildChaptersSucceeds(ms: seq<ChapterMatch>)
    ensures BuildChapters(ms).Success? <==> forall i :: 0 <= i < |ms| ==> ChapterName(ms[i].titleAttr).Some?
  {
    var r := BuildChapters(ms);
    if r.Success? {
      forall i | 0 <= i < |ms|
        ensures ChapterName(ms[i].titleAttr).Some?
      {
        MakeChapterFields(ms[i], i + 1);
      }
    } else {
      MakeChapterFields(ms[r.error.index], r.error.index + 1);
    }
  }

  /** Each built chapter is numbered by its position, links to the site and is
      named by the colon-separated part of its title attribute. */
  lemma BuiltChapter(ms: seq<ChapterMatch>, i: nat)
    requires BuildChapters(ms).Success? && i < |ms|
    ensures var c := BuildChapters(ms).value[i];
      && c.number == i + 1
      && c.link == Site + ms[i].path
      && Some(c.title) == ChapterName(ms[i].titleAttr)
  {
    MakeChapterFields(ms[i], i + 1);
  }

  // ---------------------------------------------------------------------------
  // De-duplication by cid

  /** `re.search(r"/cid/(\d+)", link)` matches at position `p`. */
  predicate CidMatchAt(s: string, p: nat) {
    p + 5 <= |s| && s[p..p + 5] == "/cid/" && Deobfuscation.DigitsFrom(s, p + 5) > 0
  }

  /** The leftmost position at or after `from` where the `cid` pattern matches. */
  function CidAt(s: string, from: nat): (r: Option<nat>)
    requires from <= |s|
    ensures r.Some? ==> from <= r.value <= |s| && CidMatchAt(s, r.value)
    ensures r.Some? ==> forall q :: from <= q < r.value ==> !CidMatchAt(s, q)
    ensures r.None? ==> forall q :: from <= q <= |s| ==> !CidMatchAt(s, q)
    decreases |s| - from
  {
    if CidMatchAt(s, from) then Some(from)
    else if from == |s| then None
    else CidAt(s, from + 1)
  }

  /** The `cid` group of the link: the whole digit run after the leftmost
      `/cid/` that is followed by a digit. */
  function CidOf(link: string): (r: Option<string>)
    ensures r.None? <==> CidAt(link, 0).None?
    ensures r.Some? ==>
      var p := CidAt(link, 0).value;
      && |r.value| > 0 && Deobfuscation.AllDigits(r.value)
      && p + 5 + |r.value| <= |link| && r.value == link[p + 5..p + 5 + |r.value|]
      && (p + 5 + |r.value| == |link| || !Deobfuscation.IsDigit(link[p + 5 + |r.value|]))
  {
    match CidAt(link, 0)
    case None => None
    case Some(p) =>
      var n := Deobfuscation.DigitsFrom(link, p + 5);
      Deobfuscation.DigitRun(link, p + 5);
      Some(link[p + 5..p + 5 + n])
  }

  /** What `seen_links` records for a chapter: its cid, or the link itself when
      the link has none. */
  function Key(c: Chapter): string {
    match CidOf(c.link)
    case Some(cid) => cid
    case None => c.link
  }

  function KeySet(cs: seq<Chapter>): set<string>
    decreases |cs|
  {
    if |cs| == 0 then {} else {Key(cs[0])} + KeySet(cs[1..])
  }

  predicate Increasing(cs: seq<Chapter>) {
    forall i, j :: 0 <= i < j < |cs| ==> cs[i].number < cs[j].number
  }

  predicate DistinctKeys(cs: seq<Chapter>) {
    forall i, j :: 0 <= i < j < |cs| ==> Key(cs[i]) != Key(cs[j])
  }

  /** The second loop of `get_comic_info`, entered with the keys in `seen`
      already taken. */
  function DedupFrom(cs: seq<Chapter>, seen: set<string>): (r: seq<Chapter>)
    ensures |r| <= |cs|
    ensures forall i :: 0 <= i < |r| ==> r[i] in cs
    decreases |cs|
  {
    if |cs| == 0 then []
    else
      var k := Key(cs[0]);
      if k in seen then
        DedupFrom(cs[1..], seen)
      else
        var rest := DedupFrom(cs[1..], seen + {k});
        var r := [cs[0]] + rest;
        assert forall i :: 0 < i < |r| ==> r[i] == rest[i - 1];
        r
  }

  /** The kept chapters carry keys not already taken, each key once. */
  lemma {:induction false} DedupDistinct(cs: seq<Chapter>, seen: set<string>)
    ensures var r := DedupFrom(cs, seen);
      && (forall i :: 0 <= i < |r| ==> Key(r[i]) !in seen)
      && DistinctKeys(r)
    decreases |cs|
  {
    if |cs| > 0 {
      var k := Key(cs[0]);
      if k in seen {
        DedupDistinct(cs[1..], seen);
      } else {
        var rest := DedupFrom(cs[1..], seen + {k});
        DedupDistinct(cs[1..], seen + {k});
        var r := [cs[0]] + rest;
        assert forall i :: 0 < i < |r| ==> r[i] == rest[i - 1];
      }
    }
  }

  /** The kept chapters carry every key of the input that was not already taken. */
  lemma {:induction false} DedupKeySet(cs: seq<Chapter>, seen: set<string>)
    ensures KeySet(DedupFrom(cs, seen)) == KeySet(cs) - seen
    decreases |cs|
  {
    if |cs| > 0 {
      var k := Key(cs[0]);
      if k in seen {
        DedupKeySet(cs[1..], seen);
      } else {
        DedupKeySet(cs[1..], seen + {k});
        var rest := DedupFrom(cs[1..], seen + {k});
        assert ([cs[0]] + rest)[1..] == rest;
      }
    }
  }

  /** Chapters drawn from a list whose numbers all exceed `x` also exceed `x`. */
  lemma AboveMembers(cs: seq<Chapter>, r: seq<Chapter>, x: nat)
    requires forall i :: 0 <= i < |cs| ==> x < cs[i].number
    requires forall i :: 0 <= i < |r| ==> r[i] in cs
    ensures forall i :: 0 <= i < |r| ==> x < r[i].number
  {
    forall i | 0 <= i < |r|
      ensures x < r[i].number
    {
      var m :| 0 <= m < |cs| && cs[m] == r[i];
    }
  }

  /** The tail of an increasing list is increasing and lies above its head. */
  lemma TailIncreasing(cs: seq<Chapter>)
    requires |cs| > 0 && Increasing(cs)
    ensures Increasing(cs[1..])
    ensures forall i :: 0 <= i < |cs| - 1 ==> cs[0].number < cs[1..][i].number
  {
    var tail := cs[1..];
    forall i, j | 0 <= i < j < |tail|
      ensures tail[i].number < tail[j].number
    {
      assert tail[i] == cs[i + 1] && tail[j] == cs[j + 1];
    }
    forall i | 0 <= i < |tail|
      ensures cs[0].number < tail[i].number
    {
      assert tail[i] == cs[i + 1];
    }
  }

  /** Putting a chapter numbered below all of an increasing list in front keeps
      it increasing. */
  lemma ConsIncreasing(c: Chapter, rest: seq<Chapter>)
    requires Increasing(rest)
    requires forall i :: 0 <= i < |rest| ==> c.number < rest[i].number
    ensures Increasing([c] + rest)
  {
    var r := [c] + rest;
    forall i, j | 0 <= i < j < |r|
      ensures r[i].number < r[j].number
    {
      assert r[j] == rest[j - 1];
      if i > 0 {
        assert r[i] == rest[i - 1];
      }
    }
  }

  /** De-duplication keeps the relative order, so increasing numbers stay
      increasing. */
  lemma {:induction false} DedupIncreasing(cs: seq<Chapter>, seen: set<string>)
    requires Increasing(cs)
    ensures Increasing(DedupFrom(cs, seen))
    decreases |cs|
  {
    if |cs| > 0 {
      var k := Key(cs[0]);
      TailIncreasing(cs);
      if k in seen {
        DedupIncreasing(cs[1..], seen);
      } else {
        var rest := DedupFrom(cs[1..], seen + {k});
        DedupIncreasing(cs[1..], seen + {k});
        AboveMembers(cs[1..], rest, cs[0].number);
        ConsIncreasing(cs[0], rest);
      }
    }
  }

  function Dedup(cs: seq<Chapter>): seq<Chapter> {
    DedupFrom(cs, {})
  }

  /** The chapter kept for a cid is the first one carrying it. */
  lemma {:induction false} DedupKeepsFirst(cs: seq<Chapter>, seen: set<string>, k: nat)
    requires k < |cs| && Key(cs[k]) !in seen
    requires forall j :: 0 <= j < k ==> Key(cs[j]) != Key(cs[k])
    ensures cs[k] in DedupFrom(cs, seen)
    decreases |cs|
  {
    if k > 0 {
      var s' := if Key(cs[0]) in seen then seen else seen + {Key(cs[0])};
      assert cs[1..][k - 1] == cs[k];
      DedupKeepsFirst(cs[1..], s', k - 1);
    }
  }

  // ---------------------------------------------------------------------------
  // Sorting by number

  predicate SortedByNumber(cs: seq<Chapter>) {
    forall i, j :: 0 <= i < j < |cs| ==> cs[i].number <= cs[j].number
  }

  /** Puts `c` after every element whose number is not larger, so that equal
      numbers keep their order. */
  function InsertByNumber(sorted: seq<Chapter>, c: Chapter): (r: seq<Chapter>)
    ensures multiset(r) == multiset(sorted) + multiset{c}
    decreases |sorted|
  {
    if |sorted| == 0 then [c]
    else
      var n := |sorted| - 1;
      if sorted[n].number <= c.number then sorted + [c]
      else
        assert sorted == sorted[..n] + [sorted[n]];
        InsertByNumber(sorted[..n], c) + [sorted[n]]
  }

  predicate AtMost(xs: seq<Chapter>, bound: nat) {
    forall i :: 0 <= i < |xs| ==> xs[i].number <= bound
  }

  lemma SortedAppend(xs: seq<Chapter>, x: Chapter)
    requires SortedByNumber(xs) && AtMost(xs, x.number)
    ensures SortedByNumber(xs + [x])
  {
    var r := xs + [x];
    forall i, j | 0 <= i < j < |r|
      ensures r[i].number <= r[j].number
    {
      assert r[i] == xs[i];
    }
  }

  lemma SortedPrefix(cs: seq<Chapter>)
    requires |cs| > 0 && SortedByNumber(cs)
    ensures SortedByNumber(cs[..|cs| - 1])
    ensures AtMost(cs[..|cs| - 1], cs[|cs| - 1].number)
  {
    var front := cs[..|cs| - 1];
    forall i, j | 0 <= i < j < |front|
      ensures front[i].number <= front[j].number
    {
      assert front[i] == cs[i] && front[j] == cs[j];
    }
    forall i | 0 <= i < |front|
      ensures front[i].number <= cs[|cs| - 1].number
    {
      assert front[i] == cs[i];
    }
  }

  /** Inserting a chapter under a bound into a list under that bound stays under it. */
  lemma {:induction false} InsertAtMost(sorted: seq<Chapter>, c: Chapter, bound: nat)
    requires AtMost(sorted, bound) && c.number <= bound
    ensures AtMost(InsertByNumber(sorted, c), bound)
    decreases |sorted|
  {
    if |sorted| > 0 {
      var n := |sorted| - 1;
      var front := sorted[..n];
      assert AtMost(front, bound) by {
        forall i | 0 <= i < n
          ensures front[i].number <= bound
        {
          assert front[i] == sorted[i];
        }
      }
      if sorted[n].number <= c.number {
        assert InsertByNumber(sorted, c) == sorted + [c];
        AppendAtMost(sorted, c, bound);
      } else {
        InsertAtMost(front, c, bound);
        assert InsertByNumber(sorted, c) == InsertByNumber(front, c) + [sorted[n]];
        AppendAtMost(InsertByNumber(front, c), sorted[n], bound);
      }
    }
  }

  lemma AppendAtMost(xs: seq<Chapter>, x: Chapter, bound: nat)
    requires AtMost(xs, bound) && x.number <= bound
    ensures AtMost(xs + [x], bound)
  {
    var r := xs + [x];
    forall i | 0 <= i < |r|
      ensures r[i].number <= bound
    {
      if i < |xs| {
        assert r[i] == xs[i];
      }
    }
  }

  /** Inserting into a sorted list keeps it sorted. */
  lemma {:induction false} InsertSorted(sorted: seq<Chapter>, c: Chapter)
    requires SortedByNumber(sorted)
    ensures SortedByNumber(InsertByNumber(sorted, c))
    decreases |sorted|
  {
    if |sorted| > 0 {
      var n := |sorted| - 1;
      var front := sorted[..n];
      SortedPrefix(sorted);
      if sorted[n].number <= c.number {
        assert InsertByNumber(sorted, c) == sorted + [c];
        assert AtMost(sorted, c.number) by {
          forall i | 0 <= i < |sorted|
            ensures sorted[i].number <= c.number
          {
            if i < n {
              assert sorted[i] == front[i];
            }
          }
        }
        SortedAppend(sorted, c);
      } else {
        InsertSorted(front, c);
        InsertAtMost(front, c, sorted[n].number);
        assert InsertByNumber(sorted, c) == InsertByNumber(front, c) + [sorted[n]];
        SortedAppend(InsertByNumber(front, c), sorted[n]);
      }
    }
  }

  /** `chapters.sort(key=lambda x: x["number"])` as a stable insertion sort. */
  function SortByNumber(cs: seq<Chapter>): (r: seq<Chapter>)
    ensures multiset(r) == multiset(cs)
    ensures SortedByNumber(r)
    decreases |cs|
  {
    if |cs| == 0 then []
    else
      var n := |cs| - 1;
      assert cs == cs[..n] + [cs[n]];
      InsertSorted(SortByNumber(cs[..n]), cs[n]);
      InsertByNumber(SortByNumber(cs[..n]), cs[n])
  }

  /** Sorting a list that is already in order changes nothing. */
  lemma {:induction false} SortSortedIsIdentity(cs: seq<Chapter>)
    requires SortedByNumber(cs)
    ensures SortByNumber(cs) == cs
    decreases |cs|
  {
    if |cs| > 0 {
      var n := |cs| - 1;
      SortedPrefix(cs);
      SortSortedIsIdentity(cs[..n]);
      InsertAtEnd(cs);
    }
  }

  /** The last element of a sorted list is inserted back at the end. */
  lemma InsertAtEnd(cs: seq<Chapter>)
    requires |cs| > 0 && SortedByNumber(cs)
    ensures InsertByNumber(cs[..|cs| - 1], cs[|cs| - 1]) == cs
  {
    var n := |cs| - 1;
    if n > 0 {
      assert cs[..n][n - 1] == cs[n - 1];
    }
    assert cs[..n] + [cs[n]] == cs;
  }

  // ---------------------------------------------------------------------------
  // The whole call

  /** `get_comic_info(comic_id)` given the page's status and scraped fields. */
  function GetComicInfo(comicId: string, status: int, page: ComicPage): (r: Result<Info, ComicError>)
    ensures status != 200 ==> r == Failure(RequestFailed(status))
    ensures status == 200 ==> (r.Success? <==> BuildChapters(page.chapterMatches).Success?)
    ensures status == 200 && r.Failure? ==> r.error == BuildChapters(page.chapterMatches).error
    ensures r.Success? ==> r.value.comicId == comicId && r.value.totalChapters == |r.value.chapters|
    ensures r.Success? ==>
      && r.value.title == ComicTitle(page.titleMatch.GetOr(UnknownTitle))
      && (page.coverMatch.None? ==> r.value.coverUrl.None?)
      && (page.coverMatch.Some? ==> r.value.coverUrl == Some(NormalizeCover(page.coverMatch.value)))
      && (page.popularityMatch.None? ==> r.value.popularity == Unknown)
      && (page.popularityMatch.Some? ==> r.value.popularity == Strip(page.popularityMatch.value))
      && (page.ratingMatch.None? ==> r.value.rating == Rating(Unknown, "0"))
      && (page.ratingMatch.Some? ==>
        r.value.rating == Rating(Strip(page.ratingMatch.value.0), Strip(page.ratingMatch.value.1)))
  {
    if status != 200 then Failure(RequestFailed(status))
    else
      var title := ComicTitle(page.titleMatch.GetOr(UnknownTitle));
      var cover := match page.coverMatch
        case None => None
        case Some(u) => Some(NormalizeCover(u));
      var popularity := match page.popularityMatch
        case None => Unknown
        case Some(p) => Strip(p);
      var rating := match page.ratingMatch
        case None => Rating(Unknown, "0")
        case Some(g) => Rating(Strip(g.0), Strip(g.1));
      var built :- BuildChapters(page.chapterMatches);
      var sorted := SortByNumber(Dedup(built));
      Success(Info(comicId, title, popularity, rating, sorted, cover, |sorted|))
  }

  /** The chapters of a successful call: increasing numbers within 1..n for
      n matches, one chapter per key, and no more chapters than matches. */
  lemma ComicChapters(comicId: string, status: int, page: ComicPage)
    requires GetComicInfo(comicId, status, page).Success?
    ensures var cs, n := GetComicInfo(comicId, status, page).value.chapters, |page.chapterMatches|;
      && |cs| <= n
      && Increasing(cs) && DistinctKeys(cs)
      && forall i :: 0 <= i < |cs| ==> 1 <= cs[i].number <= n
  {
    var built := BuildChapters(page.chapterMatches).value;
    var cs := Dedup(built);
    SortIsNoOp(comicId, page);
    BuiltNumbering(built, page.chapterMatches);
    NumberedIncreasing(built);
    DedupIncreasing(built, {});
    DedupDistinct(built, {});
    forall i | 0 <= i < |cs|
      ensures 1 <= cs[i].number <= |built|
    {
      assert cs[i] in built;
    }
  }

  /** Numbers handed out before de-duplication are 1, 2, … in order. */
  lemma BuiltNumbering(built: seq<Chapter>, ms: seq<ChapterMatch>)
    requires BuildChapters(ms) == Success(built)
    ensures |built| == |ms|
    ensures forall i :: 0 <= i < |built| ==> built[i].number == i + 1
  {
    forall i | 0 <= i < |built|
      ensures built[i].number == i + 1
    {
      BuiltChapter(ms, i);
    }
  }

  lemma NumberedIncreasing(built: seq<Chapter>)
    requires forall i :: 0 <= i < |built| ==> built[i].number == i + 1
    ensures Increasing(built)
    ensures forall c :: c in built ==> 1 <= c.number <= |built|
  {
  }

  /** After a successful call, the chapter list is the de-duplicated list in
      its original order: the sort does not move anything. */
  lemma SortIsNoOp(comicId: string, page: ComicPage)
    requires GetComicInfo(comicId, 200, page).Success?
    ensures BuildChapters(page.chapterMatches).Success?
    ensures GetComicInfo(comicId, 200, page).value.chapters == Dedup(BuildChapters(page.chapterMatches).value)
  {
    var built := BuildChapters(page.chapterMatches).value;
    BuiltNumbering(built, page.chapterMatches);
    NumberedIncreasing(built);
    DedupIncreasing(built, {});
    SortSortedIsIdentity(Dedup(built));
  }

  // ---------------------------------------------------------------------------
  // Looking a chapter up

  /** Where the first loop of `get_specific_chapter` stops: the index of the
      first chapter with the requested number. */
  function FindIndex(cs: seq<Chapter>, n: int): (r: Option<nat>)
    ensures r.None? <==> forall i :: 0 <= i < |cs| ==> cs[i].number != n
    ensures r.Some? ==>
      && r.value < |cs| && cs[r.value].number == n
      && forall j :: 0 <= j < r.value ==> cs[j].number != n
    decreases |cs|
  {
    if |cs| == 0 then None
    else if cs[0].number == n then Some(0)
    else
      match FindIndex(cs[1..], n)
      case None => None
      case Some(i) => Some(i + 1)
  }

  /** The chapter that loop selects. */
  function FindChapter(cs: seq<Chapter>, n: int): (r: Option<Chapter>)
    ensures r.None? <==> forall i :: 0 <= i < |cs| ==> cs[i].number != n
    ensures r.Some? ==> exists i :: (
      && 0 <= i < |cs| && cs[i] == r.value && r.value.number == n
      && forall j :: 0 <= j < i ==> cs[j].number != n)
  {
    match FindIndex(cs, n)
    case None => None
    case Some(i) => Some(cs[i])
  }

  /** In a list with increasing numbers, every chapter is found by its number. */
  lemma FindByOwnNumber(cs: seq<Chapter>, k: nat)
    requires Increasing(cs) && k < |cs|
    ensures FindChapter(cs, cs[k].number) == Some(cs[k])
  {
    var r := FindChapter(cs, cs[k].number);
    var i :| 0 <= i < |cs| && cs[i] == r.value && r.value.number == cs[k].number &&
      forall j :: 0 <= j < i ==> cs[j].number != cs[k].number;
    assert i == k;
  }

  /** Numbers are given out before duplicates are dropped, so a list can hold
      two chapters and still have no chapter 2. */
  lemma DuplicateLeavesGap(a: Chapter, b: Chapter, c: Chapter)
    requires a.number == 1 && b.number == 2 && c.number == 3
    requires Key(a) == Key(b) && Key(c) != Key(a)
    ensures Dedup([a, b, c]) == [a, c]
    ensures FindChapter(Dedup([a, b, c]), 2).None?
  {
    assert [a, b, c][1..] == [b, c];
    assert [b, c][1..] == [c];
    assert [c][1..] == [];
    assert DedupFrom([c], {Key(a)}) == [c];
    assert DedupFrom([b, c], {Key(a)}) == [c];
    var none: set<string> := {};
    assert none + {Key(a)} == {Key(a)};
    assert DedupFrom([a, b, c], none) == [a] + DedupFrom([b, c], {Key(a)});
  }

  datatype ChapterPage =
    | ComicFailed                       // the comic lookup failed (HTTP 500)
    | ChapterNotFound(number: int)      // 未找到第 n 章 (HTTP 404)
    | Found(comicId: string, title: string, chapter: Chapter, images: ChapterPipeline.ChapterResponse)

  /** `get_specific_chapter(comic_id, chapter_number)` given the comic lookup. */
  function GetSpecificChapter(info: Result<Info, ComicError>, n: int, w: ChapterPipeline.World): (r: ChapterPage)
    ensures info.Failure? ==> r == ComicFailed
    ensures info.Success? ==>
      (r.ChapterNotFound? <==> forall i :: 0 <= i < |info.value.chapters| ==> info.value.chapters[i].number != n)
    ensures info.Success? ==>
      (r.Found? <==> exists i :: 0 <= i < |info.value.chapters| && info.value.chapters[i].number == n)
    ensures r.ChapterNotFound? ==> r.number == n
    ensures r.Found? ==>
      && info.Success?
      && r.chapter in info.value.chapters && r.chapter.number == n
      && Some(r.chapter) == FindChapter(info.value.chapters, n)
      && r.comicId == info.value.comicId && r.title == info.value.title
      && r.images == ChapterPipeline.GetChapterImages(r.chapter.link, w)
  {
    match info
    case Failure(_) => ComicFailed
    case Success(ci) =>
      match FindChapter(ci.chapters, n)
      case None => ChapterNotFound(n)
      case Some(c) => Found(ci.comicId, ci.title, c, ChapterPipeline.GetChapterImages(c.link, w))
  }
}
