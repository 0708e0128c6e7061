/** `ComicParser.get_chapter_images`: fetch the chapter page, cut the nonce
    script out of it, evaluate it, strip the decoys from the `DATA` blob, decode
    it, parse it as JSON and wrap it, in at most three attempts.  The page
    fetch, the script engine, the JSON parser and `quote` are parameters. */
module ChapterPipeline {
  import opened Wrappers
  import opened PyText
  import Base64Custom
  import Deobfuscation
  import opened Pictures

  const MaxRetries: nat := 3
  const UnknownChapter := "未知章节"

  /** What the page-scraping regular expressions found: the chapter-title group
      of `<title>`, every `var DATA = '…'` literal and every `window["…;`
      fragment. */
  datatype Page = Page(titleMatch: Option<string>, dataMatches: seq<string>, windowFragments: seq<string>)

  /** One `requests.get`: it raises, or it answers with a status and a page. */
  datatype Fetch = Raised | Response(status: int, page: Page)

  /** `json.loads` on the decoded bytes, followed by the key assignment of the
      loader: the bytes are not UTF-8 JSON, they are JSON but not an object
      (the assignment raises `TypeError`), or they are an object. */
  datatype Json = Undecodable | NotAnObject | Object(data: ChapterData)

  /** The outside world one call sees: the answer to attempt `i` is `fetch(i)`;
      `eval` is the script engine (`None` when it raises or yields no string). */
  datatype World = World(
    fetch: nat -> Fetch,
    eval: string -> Option<string>,
    json: seq<Base64Custom.byte> -> Json,
    quote: string -> string)

  datatype ChapterError =
    | RequestFailed(status: int)   // 章节请求失败，状态码
    | NoEncryptedData              // 未找到加密数据
    | NoNonce                      // 未找到nonce数据
    | DataDecodeFailed             // 数据解码失败
    | ParseFailed                  // 解析失败
    | TooManyRetries               // 达到最大重试次数

  datatype ChapterResponse = Loaded(envelope: Envelope) | Error(error: ChapterError)

  /** Which `except` clause caught a failed attempt. */
  datatype Cause = DecodeError | OtherException

  datatype Attempt = Final(response: ChapterResponse) | Retry(cause: Cause)

  /** The chapter title: the stripped title group, or 未知章节 without one. */
  function ChapterTitle(m: Option<string>): string {
    match m
    case None => UnknownChapter
    case Some(t) => Strip(t)
  }

  /** `"=".join(fragment.split("=")[1:])[:-1]`: the text after the first `=`
      without its last character; without any `=` it is empty. */
  function NonceScript(fragment: string): (r: string)
    ensures '=' !in fragment ==> r == ""
    ensures '=' in fragment ==> r == DropLast(fragment[IndexOf(fragment, '=').value + 1..])
  {
    SplitAtFirst(fragment, '=');
    DropLast(Join('=', Split(fragment, '=')[1..]))
  }

  /** The blob as decoded bytes, from the `DATA` literal and the evaluated nonce. */
  function DecodeBlob(data: string, nonce: string): Result<seq<Base64Custom.byte>, Base64Custom.DecodeError> {
    Base64Custom.Decode(Deobfuscation.Deobfuscate(data, nonce))
  }

  /** A page on which the three terminal checks pass. */
  predicate Scrapable(f: Fetch) {
    f.Response? && f.status == 200 && |f.page.dataMatches| > 0 && |f.page.windowFragments| >= 2
  }

  /** The script the page hands to the engine. */
  function ScriptOf(f: Fetch): string
    requires Scrapable(f)
  {
    NonceScript(f.page.windowFragments[1])
  }

  /** The bytes the blob decodes to, when the script and the decoder succeed. */
  function PayloadOf(f: Fetch, w: World): Option<seq<Base64Custom.byte>>
    requires Scrapable(f)
  {
    match w.eval(ScriptOf(f))
    case None => None
    case Some(nonce) =>
      match DecodeBlob(f.page.dataMatches[0], nonce)
      case Failure(_) => None
      case Success(bs) => Some(bs)
  }

  /** `env` is what an attempt on page `f` returns once its blob parses to a
      JSON object: success set, the request URL, the chapter title both in the
      envelope and in the payload, and the payload's pictures (when it has a
      `picture` list) each pointed at the image proxy. */
  predicate LoadedFrom(env: Envelope, f: Fetch, url: string, w: World) {
    && Scrapable(f) && PayloadOf(f, w).Some? && w.json(PayloadOf(f, w).value).Object?
    && var d, title := w.json(PayloadOf(f, w).value).data, ChapterTitle(f.page.titleMatch);
    && env.success
    && env.chapterUrl == url
    && env.chapterTitle == title
    && env.data.Some?
    && env.data.value.chapterTitle == Some(title)
    && env.data.value.pictures.Some? == d.pictures.Some?
    && (d.pictures.Some? ==>
      var ps, rs := d.pictures.value, env.data.value.pictures.value;
      && |rs| == |ps|
      && forall i :: 0 <= i < |ps| ==> rs[i] == RewritePicture(ps[i], w.quote))
  }

  /** One pass through the body of the `while` loop. */
  function RunAttempt(f: Fetch, url: string, w: World): (r: Attempt)
    ensures f.Raised? ==> r == Retry(OtherException)
    ensures f.Response? && f.status != 200 ==> r == Final(Error(RequestFailed(f.status)))
    ensures f.Response? && f.status == 200 && |f.page.dataMatches| == 0 ==> r == Final(Error(NoEncryptedData))
    ensures f.Response? && f.status == 200 && |f.page.dataMatches| > 0 && |f.page.windowFragments| < 2 ==>
      r == Final(Error(NoNonce))
    ensures r.Final? && r.response.Error? ==> !Scrapable(f) && f.Response?
    ensures r == Retry(DecodeError) <==>
      Scrapable(f) && PayloadOf(f, w).Some? && w.json(PayloadOf(f, w).value).Undecodable?
    ensures Scrapable(f) && PayloadOf(f, w).Some? && w.json(PayloadOf(f, w).value).Object? ==>
      r.Final? && r.response.Loaded?
    ensures r.Final? && r.response.Loaded? ==> LoadedFrom(r.response.envelope, f, url, w)
  {
    match f
    case Raised => Retry(OtherException)
    case Response(status, page) =>
      if status != 200 then Final(Error(RequestFailed(status)))
      else
        var title := ChapterTitle(page.titleMatch);
        if |page.dataMatches| == 0 then Final(Error(NoEncryptedData))
        else if |page.windowFragments| < 2 then Final(Error(NoNonce))
        else
          match w.eval(NonceScript(page.windowFragments[1]))
          case None => Retry(OtherException)
          case Some(nonce) =>
            match DecodeBlob(page.dataMatches[0], nonce)
            case Failure(_) => Retry(OtherException)
            case Success(bs) =>
              match w.json(bs)
              case Undecodable => Retry(DecodeError)
              case NotAnObject => Retry(OtherException)
              case Object(d) =>
                var env := Envelope(true, Some(d.(chapterTitle := Some(title))), url, title);
                Final(Loaded(ModifyChapterImagesData(env, w.quote)))
  }

  /** The outcome of the attempt made with `retry_count == i`. */
  function AttemptAt(url: string, w: World, i: nat): Attempt {
    RunAttempt(w.fetch(i), url, w)
  }

  /** The outcomes of the attempts of one call, in order. */
  function Attempts(url: string, w: World): nat -> Attempt {
    (i: nat) => AttemptAt(url, w, i)
  }

  /** The error returned when the last allowed attempt fails. */
  function Exhausted(c: Cause): ChapterError {
    match c
    case DecodeError => DataDecodeFailed
    case OtherException => ParseFailed
  }

  /** The response of a call together with the number of pages it fetched. */
  datatype Trace = Trace(response: ChapterResponse, attempts: nat)

  /** The `while retry_count < max_retries` loop entered with `retry_count == count`,
      over the outcomes `attempt(count)`, `attempt(count + 1)`, … of its passes. */
  function Run(attempt: nat -> Attempt, count: nat): (t: Trace)
    requires count <= MaxRetries
    ensures count < MaxRetries ==> 1 <= t.attempts <= MaxRetries - count
    ensures count < MaxRetries ==>
      forall i :: count <= i < count + t.attempts - 1 ==> attempt(i).Retry?
    ensures count < MaxRetries ==>
      match attempt(count + t.attempts - 1)
      case Final(resp) => t.response == resp
      case Retry(c) => count + t.attempts == MaxRetries && t.response == Error(Exhausted(c))
    decreases MaxRetries - count
  {
    if count >= MaxRetries then Trace(Error(TooManyRetries), 0)
    else
      match attempt(count)
      case Final(resp) => Trace(resp, 1)
      case Retry(c) =>
        if count + 1 == MaxRetries then Trace(Error(Exhausted(c)), 1)
        else
          var t := Run(attempt, count + 1);
          Trace(t.response, t.attempts + 1)
  }

  /** `get_chapter_images(chapter_url)` */
  function GetChapterImages(url: string, w: World): ChapterResponse {
    Run(Attempts(url, w), 0).response
  }

  /** The loop as the source writes it, with returns from inside the body. */
  method GetChapterImagesLoop(url: string, w: World) returns (r: ChapterResponse)
    ensures r == GetChapterImages(url, w)
  {
    var attempt := Attempts(url, w);
    var retryCount := 0;
    while retryCount < MaxRetries
      invariant retryCount < MaxRetries
      invariant Run(attempt, retryCount).response == Run(attempt, 0).response
      decreases MaxRetries - retryCount
    {
      assert attempt(retryCount) == RunAttempt(w.fetch(retryCount), url, w);
      match RunAttempt(w.fetch(retryCount), url, w)
      case Final(resp) =>
        return resp;
      case Retry(c) =>
        retryCount := retryCount + 1;
        if retryCount == MaxRetries {
          return Error(Exhausted(c));
        }
    }
    // every exit from the loop is one of the returns above
    assert false;
    r := Error(TooManyRetries);
  }

  // ---------------------------------------------------------------------------
  // Properties of the retry policy

  /** A failed request, a page without `DATA` or without the second `window[`
      fragment ends the call on the attempt where it happens. */
  lemma TerminalOnFirstAttempt(url: string, w: World)
    requires w.fetch(0).Response? && !Scrapable(w.fetch(0))
    ensures Run(Attempts(url, w), 0).attempts == 1
    ensures GetChapterImages(url, w) == AttemptAt(url, w, 0).response
    ensures GetChapterImages(url, w).Error?
  {
    assert Attempts(url, w)(0) == AttemptAt(url, w, 0);
  }

  /** A failed attempt followed by a terminal one: exactly two fetches, and the
      second decides the answer. */
  lemma TerminalAfterRetry(attempt: nat -> Attempt)
    requires attempt(0).Retry? && attempt(1).Final?
    ensures Run(attempt, 0).attempts == 2
    ensures Run(attempt, 0).response == attempt(1).response
  {
    assert Run(attempt, 0).attempts == Run(attempt, 1).attempts + 1;
  }

  /** When every attempt fails, the call fetches exactly three times and reports
      the failure of the third. */
  lemma AlwaysFailing(attempt: nat -> Attempt)
    requires forall i :: 0 <= i < MaxRetries ==> attempt(i).Retry?
    ensures Run(attempt, 0).attempts == MaxRetries
    ensures Run(attempt, 0).response == Error(Exhausted(attempt(2).cause))
  {
    var t := Run(attempt, 0);
    assert attempt(t.attempts - 1).Retry?;
  }

  /** The call succeeds exactly when some attempt loads the chapter after only
      retryable failures. */
  lemma LoadedCharacterisation(attempt: nat -> Attempt)
    ensures Run(attempt, 0).response.Loaded? <==>
      exists k :: 0 <= k < MaxRetries && attempt(k).Final? && attempt(k).response.Loaded?
        && forall i :: 0 <= i < k ==> attempt(i).Retry?
  {
    var t := Run(attempt, 0);
    var last := t.attempts - 1;
    if t.response.Loaded? {
      assert attempt(last).Final?;
    }
    if exists k :: 0 <= k < MaxRetries && attempt(k).Final? && attempt(k).response.Loaded?
        && forall i :: 0 <= i < k ==> attempt(i).Retry? {
      var k :| 0 <= k < MaxRetries && attempt(k).Final? && attempt(k).response.Loaded?
        && forall i :: 0 <= i < k ==> attempt(i).Retry?;
      if last < k {
        assert attempt(last).Retry?;
      }
    }
  }

  /** On a page that passes the checks, a script that fails, a blob that does
      not decode, or JSON that is not an object costs the attempt with the
      generic `except Exception`. */
  lemma OtherFailuresRetry(f: Fetch, url: string, w: World)
    requires Scrapable(f)
    requires PayloadOf(f, w).None? || w.json(PayloadOf(f, w).value).NotAnObject?
    ensures RunAttempt(f, url, w) == Retry(OtherException)
  {
    var r := RunAttempt(f, url, w);
    assert !r.Final?;
    assert r != Retry(DecodeError);
  }

  /** The fall-through `return` after the loop is dead code: the call never
      reports that it ran out of retries. */
  lemma NeverTooManyRetries(url: string, w: World)
    ensures GetChapterImages(url, w) != Error(TooManyRetries)
  {
    var attempt := Attempts(url, w);
    var last := Run(attempt, 0).attempts - 1;
    assert attempt(last) == AttemptAt(url, w, last);
  }

  /** A loaded answer is the envelope of the attempt that loaded it: success set,
      the requested URL, and the title and rewritten payload of a fetched page
      that passed every check and whose blob parsed to a JSON object. */
  lemma LoadedEnvelope(url: string, w: World)
    requires GetChapterImages(url, w).Loaded?
    ensures GetChapterImages(url, w).envelope.success
    ensures GetChapterImages(url, w).envelope.chapterUrl == url
    ensures exists k :: 0 <= k < MaxRetries && LoadedFrom(GetChapterImages(url, w).envelope, w.fetch(k), url, w)
  {
    var attempt := Attempts(url, w);
    var t := Run(attempt, 0);
    var last := t.attempts - 1;
    var a := RunAttempt(w.fetch(last), url, w);
    assert attempt(last) == a;
    assert a == Final(t.response);
    assert LoadedFrom(t.response.envelope, w.fetch(last), url, w);
  }

  // ---------------------------------------------------------------------------
  // Examples

  /** A page whose blob `SGVXsbG8=` carries one decoy `X` at position 3, named
      by the nonce `3a`, decodes to the bytes of `Hello`. */
  lemma HelloPayload()
    ensures DecodeBlob("SGVXsbG8=", "3a") == Success([72, 101, 108, 108, 111])
  {
    Deobfuscation.ExampleBlob();
    Base64Custom.DecodeHello();
  }

  /** Whatever precedes the first `=` is dropped, and so is the last character. */
  lemma NonceAfterFirstEquals(head: string, tail: string)
    requires '=' !in head
    ensures NonceScript(head + "=" + tail) == DropLast(tail)
  {
    var f := head + "=" + tail;
    FirstIndex(f, '=', |head|);
    assert f[|head| + 1..] == tail;
  }

  /** The script slice of a typical fragment. */
  lemma NonceScriptExample()
    ensures NonceScript("window[\"nonce\"] = \"3a\";") == " \"3a\""
  {
    var head, tail := "window[\"nonce\"] ", " \"3a\";";
    calc {
      NonceScript("window[\"nonce\"] = \"3a\";");
      { ExampleFragment(); }
      NonceScript(head + "=" + tail);
      { ExampleHead(); NonceAfterFirstEquals(head, tail); }
      DropLast(tail);
      { ExampleTail(); }
      " \"3a\"";
    }
  }

  lemma ExampleFragment()
    ensures "window[\"nonce\"] = \"3a\";" == "window[\"nonce\"] " + "=" + " \"3a\";"
  {
  }

  lemma ExampleHead()
    ensures '=' !in "window[\"nonce\"] "
  {
  }

  lemma ExampleTail()
    ensures DropLast(" \"3a\";") == " \"3a\""
  {
  }
}
