# Tencent comic chapter decoder — a Dafny model

This project models the part of the comic API service (`api/index.py`) that
turns a chapter page into its image manifest, plus the post-processing of a
comic's chapter list. The chapter payload arrives as a blob that is obfuscated
in two layers:

1. A small script on the page computes a *nonce*, a string of
   `<digits><letters>` runs.
2. Each run names a decoy stretch that must be cut out of the blob. The
   position is the digits taken `& 255`, the length is the number of letters,
   and the runs are applied from last to first.
3. The cleaned blob is decoded by a hand-written base64 decoder over the table
   `A–Z a–z 0–9 + / =`.
4. The decoded bytes are parsed as JSON.
5. Every picture URL is rewritten to go through the service's image proxy.

A call makes at most three attempts, so a failed attempt is retried at most twice.

Modules:

- `Wrappers`: `Option` and `Result`.
- `Bits`: Python's unbounded `<<`, `>>`, `&`, `|` on naturals, with the mask and disjoint-OR facts the decoder needs.
- `PyText`: the Python string and list behaviour the code relies on:
  - `str.split` and `str.join` on one character
  - `str.strip` with the full `str.isspace` set
  - `s[:-1]`
  - `del xs[a:b]` with slice clamping
- `Base64Custom`: `decode_base64_custom`, and a standard RFC 4648 section 4 encoder to compare it with.
- `Deobfuscation`: the nonce tokenizer, the reverse-order deletion loop, and the decoy-inserting inverse.
- `Pictures`: `modify_chapter_images_data` and `get_proxy_image_url`.
- `ChapterPipeline`: one attempt of `get_chapter_images` and its retry loop.
- `ComicInfo`, the post-processing and lookup code:
  - title, cover, chapter naming, numbering, cid de-duplication and sort in `get_comic_info`
  - the chapter lookup of `get_specific_chapter`

The outside world is passed in as parameters:

- **Page fetch:** `World.fetch`. Attempt `i` gets `fetch(i)`.
- **JavaScript engine:** `World.eval`. It returns `None` when the engine raises or gives no string.
- **`json.loads` plus the key assignment that follows it:** `World.json`.
- **`urllib.parse.quote`:** `World.quote`.
- **Regular-expression matches on the HTML:** the fields of `Page` and `ComicPage`.

Behaviour of the code that the model keeps as written:

- **Out-of-range deletions.** `del T[a:b]` clamps an out-of-range deletion silently, and `Deobfuscation.Step` does the same.
- **What gets retried.** Every exception inside the loop consumes an attempt: a network exception, a script error, a decoder exception, or a non-object JSON value. Only a non-200 status, a missing `DATA` literal, and fewer than two `window[` fragments end the call at once.
- **Result after three failures.** The third failure returns its own message, 数据解码失败 or 解析失败. The final `return` (达到最大重试次数) is unreachable. `ChapterPipeline.NeverTooManyRetries` proves this.
- **Length errors.** A trailing partial group fails with an `IndexError` from `T[e]`, modelled as `IndexOutOfRange`.

## Model

| member | source | states |
|---|---|---|
| Bits.AndLowMask | api/index.py:61-62 | `x & (2^k - 1)` keeps exactly the low `k` bits: it equals `x mod 2^k` |
| Bits.OrDisjoint | api/index.py:60-62 | OR-ing a shifted value with one that fits below the shift is addition |
| Base64Custom.IsSymbolInKeyStr | api/index.py:46 | the range-based symbol test accepts exactly the 65 characters of `keyStr` |
| Base64Custom.Lookup | api/index.py:51-57 | a symbol lookup succeeds exactly when the index exists and the character is in the table; the value is below 65 |
| Base64Custom.LookupIsKeyStrIndex | api/index.py:46-57 | the value found is the first position of the character in `keyStr`, as `str.index` returns; failure happens exactly past the end or off the table |
| Base64Custom.GroupBytes | api/index.py:60-68 | a group appends 1 value, plus 1 unless symbol 3 is `=`, plus 1 unless symbol 4 is `=`; the first is `4b + d/16` (with a `=` in second place it is `4b` with bit 2 set), the one for a third symbol is `16(d mod 16) + f/4`, the one for a fourth symbol is `64(f mod 4) + g`; all are bytes exactly when symbol 1 is not `=` |
| Base64Custom.GroupArithmetic | api/index.py:60-62 | the three shift, mask and OR expressions equal the plain arithmetic values above, for every combination of table positions |
| Base64Custom.OrBitTwo | api/index.py:60 | `b << 2` OR-ed with 4 adds 4 exactly when `b` is even |
| Base64Custom.DecodeGroup | api/index.py:50-68 | one loop pass succeeds exactly when four table symbols are available; it appends 1 to 3 values, namely the group values of the four table positions, which are all bytes exactly when the first symbol is not `=` |
| Base64Custom.ToBytes | api/index.py:70 | `bytes(result)` succeeds exactly when every value lies in 0..255, and keeps the values |
| Base64Custom.DecodeList | api/index.py:50-68 | the `while e < len(T)` loop, group by group; no contract of its own, see `DecodeListAccepts` and `DecodeListBytes` |
| Base64Custom.Decode | api/index.py:44-70 | the whole decoder; no contract of its own, see `DecodeAccepts` and `DecodeEncode` |
| Base64Custom.DecodeListAccepts | api/index.py:50-68 | the loop completes exactly when the length is a multiple of 4 and every symbol is in the table; the output length is between n/4 and 3n/4 |
| Base64Custom.DecodeListBytes | api/index.py:60-70 | after the loop, every value is a byte exactly when no group starts with `=` |
| Base64Custom.DecodeAccepts | api/index.py:44-70 | the decoder returns bytes exactly for multiple-of-4 input over the table with no group starting with `=` |
| Base64Custom.DecodeEncode | api/index.py:44-70 | decoding a standard base64 encoding gives back the encoded bytes |
| Base64Custom.DecodeHello | api/index.py:44-70 | `SGVsbG8=` decodes to the bytes of `Hello` |
| PyText.IndexOf | api/index.py:51 | the first position of an element, or none exactly when the element is absent |
| PyText.DropLast | api/index.py:212 | `s[:-1]` drops the last element and keeps the rest; the empty sequence stays empty |
| PyText.Split | api/index.py:135 | `str.split(sep)` gives at least one piece; its content is stated by `SplitAtFirst`, `SecondPiece`, `SplitPiecesFree` and `JoinSplit` |
| PyText.Join | api/index.py:212 | `sep.join(parts)`; no contract of its own, see `JoinSplit` and `SplitAtFirst` |
| PyText.Strip | api/index.py:84 | `str.strip()` never lengthens the text; its content is stated by `StripSpec` |
| PyText.JoinSplit | api/index.py:212 | joining the pieces of a split with the same separator restores the string |
| PyText.SplitAtFirst | api/index.py:84 | the first piece is the text before the first separator; the rest, joined, is the text after it; no separator gives the string alone |
| PyText.SecondPiece | api/index.py:135 | the second piece of a split runs from after the first separator to the next one or the end |
| PyText.SplitPiecesFree | api/index.py:135 | no piece of a split contains the separator |
| PyText.StripSpec | api/index.py:84 | `strip` returns the infix left after removing leading and trailing whitespace; its ends are not whitespace |
| PyText.StripIdempotent | api/index.py:105 | stripping twice is stripping once |
| PyText.DeleteSlice | api/index.py:225 | `del T[lo:hi]` is a no-op when `lo` is past the end or the range is empty; otherwise it removes exactly `T[lo:min(hi, len)]` and keeps the rest in order |
| PyText.InsertThenDelete | api/index.py:225 | deleting a stretch right after inserting it at the same place restores the list |
| Deobfuscation.DigitRun | api/index.py:218 | the digit run found at a position consists of digits and is followed by a non-digit or the end |
| Deobfuscation.TokenizeFrom | api/index.py:218 | the scan of `findall` from one position; no contract of its own, see `TokenizeAt`, `TokenizePrefix`, `SkipNoMatch`, `SkipNonDigits` and `TrailingDigits` |
| Deobfuscation.Tokenize | api/index.py:218 | `re.findall("\d+[a-zA-Z]+", nonce)`; no contract of its own, see `TokenizeRender` and `TokenizeBetween` |
| Deobfuscation.TokenizeAt | api/index.py:218 | scanning from where a rendered token list starts reads back exactly that list |
| Deobfuscation.TokenizeRender | api/index.py:218 | tokenising a nonce written as `<digits><letters>` runs returns exactly those runs, in order |
| Deobfuscation.SkipNoMatch | api/index.py:218 | where no digit run followed by a letter starts, the scan moves on by one character and finds nothing there |
| Deobfuscation.SkipNonDigits | api/index.py:218 | a stretch without digits yields no match |
| Deobfuscation.TrailingDigits | api/index.py:218 | digits running to the end of the nonce yield no match |
| Deobfuscation.TokenizePrefix | api/index.py:218 | rendered tokens followed by text that does not start with a letter are read back exactly, and the scan goes on after them |
| Deobfuscation.TokenizeBetween | api/index.py:218 | digit-free text before the tokens and a digit run after them are ignored: tokenising the whole reads back exactly the tokens |
| Deobfuscation.Position | api/index.py:223 | `int(first digit run) & 255`; no contract of its own, see `TokenInstruction` |
| Deobfuscation.Length | api/index.py:224 | the length of the token with its digits removed; no contract of its own, see `TokenInstruction` |
| Deobfuscation.Step | api/index.py:223-225 | one pass of the `while jlen` body; no contract of its own, see `StepRemoves` |
| Deobfuscation.TokenInstruction | api/index.py:223-224 | a token's position is its numeric prefix mod 256, so it is below 256; its length is its letter count |
| Deobfuscation.StepRemoves | api/index.py:223-225 | one token removes `T[p:min(p+n, len)]` for `p` = digits mod 256 and `n` = letter count; it changes nothing when `p` is past the end |
| Deobfuscation.ApplyReversed | api/index.py:219-226 | applying the tokens from last to first never lengthens the blob; see `DeobfuscateLoop` and `DeobfuscateObfuscate` |
| Deobfuscation.Deobfuscate | api/index.py:216-227 | tokenise the nonce, then apply the tokens last to first; no contract of its own, see `DeobfuscateObfuscate` and `ExampleBlob` |
| Deobfuscation.DeobfuscateLoop | api/index.py:217-227 | the `while jlen` loop equals applying the tokens from last to first; the blob never grows |
| Deobfuscation.DeobfuscateObfuscate | api/index.py:219-226 | removing the tokens last-to-first undoes inserting decoys first-to-last at valid positions |
| Deobfuscation.ReverseOrderMatters | api/index.py:221-222 | applying the same two tokens in the other order gives a different blob |
| Deobfuscation.ExampleBlob | api/index.py:217-227 | nonce `3a` removes the decoy from `SGVXsbG8=`, leaving `SGVsbG8=` |
| ChapterPipeline.ChapterTitle | api/index.py:189-197 | the stripped title group, or `未知章节` without a match; no contract of its own, see `LoadedEnvelope` |
| ChapterPipeline.DecodeBlob | api/index.py:216-228 | de-obfuscate, then decode; no contract of its own, see `HelloPayload` |
| ChapterPipeline.NonceScript | api/index.py:212 | the script is the text after the first `=` without its last character, or empty when there is no `=` |
| ChapterPipeline.RunAttempt | api/index.py:184-253 | a raised fetch retries; a non-200 status gives RequestFailed, no `DATA` literal gives NoEncryptedData and fewer than two `window[` fragments give NoNonce, each ending the call; a checked page whose blob parses to a JSON object loads; only undecodable JSON is a decode failure, and every other failure retries; a loaded envelope carries success, the request URL, the stripped title in the envelope and in the payload, and every payload picture rewritten to the proxy |
| ChapterPipeline.OtherFailuresRetry | api/index.py:212-253 | on a checked page, a failing script, a blob the decoder rejects or JSON that is not an object costs the attempt as a generic exception |
| ChapterPipeline.Run | api/index.py:179-253 | over any sequence of attempt outcomes, the loop makes 1 to 3 attempts; all but the last are retried; the last either decides the answer or is the third failure and names its cause |
| ChapterPipeline.NeverTooManyRetries | api/index.py:179-255 | the final "too many retries" return is never reached |
| ChapterPipeline.GetChapterImages | api/index.py:176-255 | `get_chapter_images` as the answer of the retry function; no contract of its own, see `LoadedCharacterisation`, `LoadedEnvelope` and `GetChapterImagesLoop` |
| ChapterPipeline.GetChapterImagesLoop | api/index.py:179-255 | the loop with its early returns computes the same answer as the retry function |
| ChapterPipeline.TerminalOnFirstAttempt | api/index.py:185-210 | a page that fails a terminal check ends the call after one fetch with that error |
| ChapterPipeline.TerminalAfterRetry | api/index.py:244-253 | a retryable failure followed by a terminal attempt costs exactly two fetches, and the second decides |
| ChapterPipeline.AlwaysFailing | api/index.py:244-253 | when every attempt fails, exactly three fetches happen and the third failure's cause is reported |
| ChapterPipeline.LoadedCharacterisation | api/index.py:230-253 | the call succeeds exactly when some attempt loads after only retryable failures |
| ChapterPipeline.LoadedEnvelope | api/index.py:191-243 | a loaded answer has success set and the requested URL, and is the envelope of some fetched page that passed every check and whose blob parsed to a JSON object: that page's title, and its payload with every picture rewritten |
| ChapterPipeline.HelloPayload | api/index.py:217-228 | the obfuscated `SGVXsbG8=` with nonce `3a` decodes to `Hello` |
| ChapterPipeline.NonceScriptExample | api/index.py:212 | `window["nonce"] = "3a";` yields the script ` "3a"` |
| ChapterPipeline.NonceAfterFirstEquals | api/index.py:212 | for any fragment whose first `=` follows an `=`-free head, the script is the rest after that `=` minus its last character |
| Pictures.ProxyUrl | api/index.py:259-266 | the proxy address with width 600 and quality 50; no contract of its own, see `RewritePicture` |
| Pictures.RewritePicture | api/index.py:274-277 | a picture with a `url` gets `original_url` set to the old url and the proxy address in `url`, with no other key changed; one without `url` is unchanged |
| Pictures.RewriteAll | api/index.py:273-277 | the `for pic in pictures` loop keeps the number of pictures and rewrites each in place |
| Pictures.RestoreRewrite | api/index.py:276-277 | for a picture without `original_url`, moving `original_url` back to `url` restores the picture; an existing `original_url` is overwritten by the rewrite, so it is not covered |
| Pictures.ModifyChapterImagesData | api/index.py:270-278 | nothing changes unless `success` is set and `data` is present; the picture count is kept and each picture is rewritten |
| Pictures.RestoreAll | api/index.py:270-278 | for pictures without `original_url`, restoring every rewritten picture gives back the originals |
| ComicInfo.ComicTitle | api/index.py:84 | the title is the stripped text before the first `-`, or the whole title when it has none |
| ComicInfo.NormalizeCover | api/index.py:96-99 | a `//` address gets exactly `https:` in front, any other `/` address exactly `https://ac.qq.com` in front, and anything else is unchanged; the result never starts with `/` |
| ComicInfo.NormalizeCoverIdempotent | api/index.py:96-99 | normalising twice is normalising once |
| ComicInfo.ChapterName | api/index.py:135 | `title_attr.split("：")[1]`, or none when it would raise; no contract of its own, see `ChapterNameSpec` |
| ComicInfo.ChapterNameSpec | api/index.py:128-135 | the chapter name is the text between the first and second `：` of the stripped attribute, and exists exactly when there is a `：` |
| ComicInfo.MakeChapter | api/index.py:132-141 | one loop pass building a chapter; no contract of its own, see `BuiltChapter` |
| ComicInfo.BuildChapters | api/index.py:125-142 | match `i` becomes chapter `i + 1` with the site link; a failure names the first match without `：` |
| ComicInfo.BuildChaptersSucceeds | api/index.py:135 | the list is built exactly when every title attribute has a `：` |
| ComicInfo.BuiltChapter | api/index.py:132-141 | each built chapter has its position as number, the site-prefixed link and the colon-separated name |
| ComicInfo.BuiltNumbering | api/index.py:138 | numbers handed out before de-duplication are 1, 2, … |
| ComicInfo.CidAt | api/index.py:149 | the search finds the leftmost position where `/cid/` is followed by a digit, or reports that there is none |
| ComicInfo.CidOf | api/index.py:149-151 | there is a cid exactly when the link contains `/cid/` followed by a digit; the cid is then the whole digit run right after the first such `/cid/`, so it is followed by a non-digit or by the end of the link |
| ComicInfo.Key | api/index.py:147-151 | the cid of a chapter link, or the whole link without one; no contract of its own, see `CidOf` |
| ComicInfo.Dedup | api/index.py:144-161 | de-duplication from an empty `seen_links`; no contract of its own, see `DedupKeySet`, `DedupKeepsFirst` and `DedupIncreasing` |
| ComicInfo.DedupFrom | api/index.py:144-159 | kept chapters come from the input and are no more than the input |
| ComicInfo.DedupDistinct | api/index.py:144-159 | kept chapters carry keys not already taken, and have pairwise distinct keys |
| ComicInfo.DedupKeySet | api/index.py:144-159 | the kept keys are exactly the input's keys minus those already taken |
| ComicInfo.DedupKeepsFirst | api/index.py:147-159 | the first chapter carrying a key is the one kept |
| ComicInfo.DedupIncreasing | api/index.py:147-161 | de-duplication preserves relative order, so increasing numbers stay increasing |
| ComicInfo.SortByNumber | api/index.py:164 | the sort yields a permutation ordered by number |
| ComicInfo.InsertSorted | api/index.py:164 | inserting into a sorted list keeps it sorted |
| ComicInfo.SortSortedIsIdentity | api/index.py:164 | sorting an already ordered list changes nothing |
| ComicInfo.GetComicInfo | api/index.py:73-174 | a non-200 status is an error; otherwise the call succeeds exactly when the chapter list builds, fails with its error otherwise, and the total is the chapter count; on success the title is the page title (or `未知标题` when there is none) cut at its first `-`, the cover is absent or normalised, popularity is the stripped text or `未知`, and a missing rating gives score `未知` with count `0` |
| ComicInfo.ComicChapters | api/index.py:125-174 | the chapters of a successful call have increasing numbers within 1..n for n matches, distinct keys, and number at most n |
| ComicInfo.SortIsNoOp | api/index.py:138-164 | the final chapter list is the de-duplicated list in its original order |
| ComicInfo.FindIndex | api/index.py:307-311 | the lookup stops at the first chapter with the requested number, and finds none exactly when no chapter has it |
| ComicInfo.FindChapter | api/index.py:307-314 | the chapter found is the first with the requested number; none exactly when no chapter has it |
| ComicInfo.FindByOwnNumber | api/index.py:307-311 | in a list with increasing numbers every chapter is found by its own number |
| ComicInfo.DuplicateLeavesGap | api/index.py:138-161 | a duplicate dropped after numbering leaves two chapters and no chapter 2 |
| ComicInfo.GetSpecificChapter | api/index.py:299-317 | a failed comic lookup is reported; after a successful lookup a chapter is found exactly when some chapter has the number; a found chapter is the first chapter with that number, carries the comic's id and title, and its images come from its own link |

## Left out

- Flask routing, `jsonify` and HTTP status codes of the routes: web glue. `GetSpecificChapter` keeps only the outcome kinds.
- `requests.get` and the request headers: network I/O. Each fetch is an input (`World.fetch`).
- `MiniRacer().eval`: a foreign JavaScript engine. It is an uninterpreted parameter.
- The regular expressions that scrape the HTML: their matches are inputs.
- Digits are ASCII `0`–`9` only, while Python's `\d` also matches other Unicode decimal digits. This applies to every modelled use of `\d`: the nonce tokenizer `\d+[a-zA-Z]+` (api/index.py:218), the position `re.findall("\d+", …)` of `Deobfuscation.Position` (api/index.py:223) and the cid group `/cid/(\d+)` of `ComicInfo.CidAt` and `ComicInfo.CidOf` (api/index.py:149).
- `Deobfuscation.DecimalValue`: it never fails. From Python 3.11 on, `int()` raises `ValueError` for a decimal string longer than 4300 digits (api/index.py:223). In the source that exception would use up an attempt.
- `json.loads` and UTF-8 decoding: a library parser, abstracted as `World.json`. A decoded object is seen only through its `picture` list and `chapter_title`.
- `urllib.parse.quote`: a library call, kept abstract.
- The image proxy, with its PIL resizing, floating-point aspect ratio and JPEG encoding.
- Exception messages (`str(e)`): errors are modelled by kind.
- `link_text` (api/index.py:129-131): it is computed and never used.
- `Pictures.RewritePicture`: a picture is a string-to-string map, and `"url" in pic` is a key test. Other JSON shapes are not modelled:
  - a string entry, where `"url" in pic` is a substring test
  - a list entry, where it is a membership test
  - a dict or string `picture` value, which is iterated without raising
  - a non-string `url`
  - an entry for which the assignments then raise
- `ChapterPipeline.RunAttempt`: an object payload always loads. In the source, a picture shape that makes `modify_chapter_images_data` raise is caught by `except Exception` (api/index.py:250-253), and that attempt is used up.
- `ComicInfo.SortByNumber`: stability is not stated. The numbers it sorts are distinct, and the proved fact that matters is that sorting an ordered list changes nothing.
- `ComicInfo.GetComicInfo`: a network exception escaping `get_comic_info` is not modelled. The route turns it into a 500 like any other failure.
