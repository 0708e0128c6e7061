/** `modify_chapter_images_data` and `get_proxy_image_url`: every picture of a
    successfully loaded chapter is pointed at the image proxy, keeping the
    address it had under `original_url`. */
module Pictures {
  import opened Wrappers

  /** One entry of the payload's `picture` list, a JSON object seen through its
      string-valued keys. */
  type Picture = map<string, string>

  const UrlKey := "url"
  const OriginalUrlKey := "original_url"

  /** The decoded chapter payload: its `picture` list (absent when the key is
      missing) and the `chapter_title` key the loader adds. */
  datatype ChapterData = ChapterData(pictures: Option<seq<Picture>>, chapterTitle: Option<string>)

  /** The response of `get_chapter_images` on success. */
  datatype Envelope = Envelope(success: bool, data: Option<ChapterData>, chapterUrl: string, chapterTitle: string)

  /** `get_proxy_image_url(url)` with its default width 600 and quality 50;
      `quote` stands for `urllib.parse.quote`. */
  function ProxyUrl(url: string, quote: string -> string): string {
    "/image/proxy?url=" + quote(url) + "&width=600&quality=50"
  }

  /** The loop body for one picture. */
  function RewritePicture(p: Picture, quote: string -> string): (r: Picture)
    ensures UrlKey !in p ==> r == p
    ensures UrlKey in p ==>
      && r.Keys == p.Keys + {OriginalUrlKey}
      && r[OriginalUrlKey] == p[UrlKey]
      && r[UrlKey] == ProxyUrl(p[UrlKey], quote)
      && forall k :: k in p && k != UrlKey && k != OriginalUrlKey ==> r[k] == p[k]
  {
    if UrlKey in p then p[OriginalUrlKey := p[UrlKey]][UrlKey := ProxyUrl(p[UrlKey], quote)]
    else p
  }

  /** Puts a rewritten picture back the way it was: the saved address returns to
      `url` and `original_url` goes away. */
  function RestorePicture(p: Picture): Picture {
    if OriginalUrlKey in p then (p - {OriginalUrlKey})[UrlKey := p[OriginalUrlKey]] else p
  }

  /** Nothing is lost by the rewrite of a picture that had no `original_url` yet. */
  lemma RestoreRewrite(p: Picture, quote: string -> string)
    requires OriginalUrlKey !in p
    ensures RestorePicture(RewritePicture(p, quote)) == p
  {
    if UrlKey in p {
      var r := RewritePicture(p, quote);
      var q := RestorePicture(r);
      assert q.Keys == p.Keys;
      forall k | k in p
        ensures q[k] == p[k]
      {
        if k != UrlKey {
          assert q[k] == r[k];
        }
      }
    }
  }

  function RewriteAll(ps: seq<Picture>, quote: string -> string): (rs: seq<Picture>)
    ensures |rs| == |ps|
    ensures forall i :: 0 <= i < |ps| ==> rs[i] == RewritePicture(ps[i], quote)
  {
    seq(|ps|, i requires 0 <= i < |ps| => RewritePicture(ps[i], quote))
  }

  /** `modify_chapter_images_data(chapter_data)` */
  function ModifyChapterImagesData(env: Envelope, quote: string -> string): (r: Envelope)
    ensures !(env.success && env.data.Some?) ==> r == env
    ensures r.success == env.success && r.chapterUrl == env.chapterUrl && r.chapterTitle == env.chapterTitle
    ensures r.data.Some? == env.data.Some?
    ensures env.data.Some? ==>
      && r.data.value.chapterTitle == env.data.value.chapterTitle
      && r.data.value.pictures.Some? == env.data.value.pictures.Some?
    ensures env.success && env.data.Some? && env.data.value.pictures.Some? ==>
      var ps, rs := env.data.value.pictures.value, r.data.value.pictures.value;
      && |rs| == |ps|
      && forall i :: 0 <= i < |ps| ==> rs[i] == RewritePicture(ps[i], quote)
  {
    if env.success && env.data.Some? then
      match env.data.value.pictures
      case None => env
      case Some(ps) => env.(data := Some(env.data.value.(pictures := Some(RewriteAll(ps, quote)))))
    else env
  }

  /** Every picture of the rewritten payload can be put back to its original,
      provided none carried an `original_url` before. */
  lemma RestoreAll(env: Envelope, quote: string -> string, i: nat)
    requires env.success && env.data.Some? && env.data.value.pictures.Some?
    requires i < |env.data.value.pictures.value|
    requires OriginalUrlKey !in env.data.value.pictures.value[i]
    ensures RestorePicture(ModifyChapterImagesData(env, quote).data.value.pictures.value[i])
      == env.data.value.pictures.value[i]
  {
    RestoreRewrite(env.data.value.pictures.value[i], quote);
  }
}
