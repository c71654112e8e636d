# curl tool: file-name helpers (src/tool_operhlp.c)

This project models the file-name helpers of curl's command-line tool and
proves properties of the model:

- `output_expected` decides whether a transfer is expected to produce output.
  A download always is. An upload is when the URL starts with `http://` or
  `https://`, in any letter case.
- `stdin_upload` recognises the upload names `-` and `.` as standard input.
- `get_url_file_name` derives the local output name from a URL. The search
  starts just past the first `://`, or at the start of the URL if there is none.
  The rightmost `/` and the rightmost `\` in that window are found independently,
  and the name is what follows the later of the two. If the window has neither,
  the name is `""`.
- `add_file_name_to_url` appends the local file's last segment, percent-encoded,
  to a URL whose path has no file name part. It replaces the caller's URL
  string only when every step succeeds.

Files:

- `cstr.dfy` (module `CStr`) models the C library searches the code relies on:
  `strstr` is `FindFirst`, `strrchr` is `LastIndex`, and `checkprefix` is
  `CheckPrefix`. A C string is the sequence of characters before its NUL, and a
  pointer into it is an index.
- `operhlp.dfy` (module `OperHlp`) models the four operations.
  - `SepFreeSuffix` is an independent reference definition of "the part after
    the last separator", computed by one scan that treats `/` and `\` alike.
    The extractor's two-search boundary rule (`NameAfterBoundary`) and the
    augmenter's local-segment rule (`LocalSegment`) are both proved equal to
    it, so the two operations cut a name at the same place.
  - libcurl's URL API (`curl_url`, `curl_url_set`, `curl_url_get`),
    `curl_easy_escape` and the allocation done by `aprintf` are not modelled
    internally. They are the fields of a `UrlLib` value. Each field says what a
    call returns, and `None` stands for a failure. The specification function
    `AddFileName` returns the result code, the caller's URL afterwards and the
    sequence of library calls made. With the call sequence, "the encoder is not
    called" can be stated.
  - The method `AddFileNameToUrl` follows the C control flow. Its `goto fail`
    jumps become `break fail` out of a labelled block. The caller's `*inurlp`
    is the field of a `UrlSlot` object, which the method replaces in place. The
    method is proved equal to `AddFileName`.

Two behaviours of the code differ from what one might expect, and the model follows the code:

- Every failure of `add_file_name_to_url` returns `CURLE_OUT_OF_MEMORY`. That
  includes a parse failure, a path that cannot be read or set, and a failed
  rebuild. The reason is that `result` starts as that value and no `goto fail`
  changes it.
- A path such as `/dir` already has a file name part: its last `/` is followed
  by `d`. So `http://example.com/dir` is returned unchanged and does not become
  `.../dir/x.txt`. The `path + "/" + enc` form is used only for a path with no
  `/` at all.

## Model

| member | source | states |
|---|---|---|
| `CStr.FindFirst` | src/tool_operhlp.c:156 | strstr: the index returned is a match of the pattern and no earlier index matches; None means no index matches |
| `CStr.LastIndex` | src/tool_operhlp.c:162-163 | strrchr: None exactly when the character is absent; otherwise the index holds it and no later index does |
| `CStr.CheckPrefix` | src/tool_operhlp.c:60 | checkprefix: true exactly when the string is at least as long as the prefix and agrees with it character by character up to ASCII case |
| `OperHlp.OutputExpected` | src/tool_operhlp.c:56-64 | true for every download; for an upload, true exactly when the upper-cased URL starts with `HTTP://` or `HTTPS://` |
| `OperHlp.StdinUpload` | src/tool_operhlp.c:66-70 | true exactly when the upload name is the single character `-` or `.` |
| `OperHlp.SchemeEnd` | src/tool_operhlp.c:156-160 | the search starts just past the first occurrence of "://" (no earlier index matches), or at 0 when the URL has none |
| `OperHlp.NameAfterBoundary` | src/tool_operhlp.c:162-172 | choosing the later of the rightmost `\` and the rightmost `/` gives the reference tail after the last separator, or "" when the window has no separator |
| `OperHlp.UrlFileName` | src/tool_operhlp.c:156-172 | the name is a suffix of the URL without `/` or `\`; it is the tail after the URL's last separator when one lies past the first "://", and "" otherwise |
| `OperHlp.GetUrlFileName` | src/tool_operhlp.c:149-176 | CURLE_OK exactly when the copy is allocated, and then `*filename` is the name part; otherwise CURLE_OUT_OF_MEMORY and `*filename` stays NULL |
| `OperHlp.SchemeSkipped` | src/tool_operhlp.c:156-160 | for a scheme without separators, the slashes of "://" are never a boundary: the name comes from what follows "://" alone |
| `OperHlp.NoSchemeSearchedWhole` | src/tool_operhlp.c:159-160 | without "://" the whole URL is searched |
| `OperHlp.LaterSeparatorWins` | src/tool_operhlp.c:162-165 | whichever kind of separator comes last is the boundary: the name is exactly what follows it |
| `OperHlp.UrlFileNameLastSegment` | src/tool_operhlp.c:156-169 | for `scheme://path` followed by a separator and a separator-free `file`, the name is `file` (e.g. `b.txt`, or `file.txt` after a backslash) |
| `OperHlp.UrlFileNameTrailingSeparator` | src/tool_operhlp.c:167-169 | a URL ending in a separator after "://" has the name "" |
| `OperHlp.UrlFileNameSchemeOnly` | src/tool_operhlp.c:156-172 | `scheme://` alone has the name "" |
| `OperHlp.UrlFileNameNoSeparator` | src/tool_operhlp.c:167-172 | a URL without any separator, including "", has the name "" |
| `OperHlp.PathHasFileName` | src/tool_operhlp.c:89-90 | the path has a file name part exactly when it contains `/` and does not end in `/` |
| `OperHlp.PathHasFileNameExamples` | src/tool_operhlp.c:89-90 | `/dir` has a file name part; `/dir/`, `dir` and "" do not |
| `OperHlp.LocalSegment` | src/tool_operhlp.c:96-105 | the segment taken from the local file name is the reference tail after its last `/` or `\`, or the whole name if it has neither |
| `OperHlp.SameBoundaryRule` | src/tool_operhlp.c:96-105 | the extractor and the augmenter cut a name at the same place, and the local segment holds no separator |
| `OperHlp.LocalSegmentLastPart` | src/tool_operhlp.c:96-105 | the segment of `dir + sep + file` is `file` for a separator-free `file` |
| `OperHlp.NewPath` | src/tool_operhlp.c:113-118 | a path ending in `/` becomes `path + enc`; a path without `/` becomes `path + "/" + enc` |
| `OperHlp.NewPathExamples` | src/tool_operhlp.c:113-118 | `/dir/` with `report%201.csv` gives `/dir/report%201.csv`; "" with `x.txt` gives `/x.txt` |
| `OperHlp.NewPathHasFileName` | src/tool_operhlp.c:113-118 | after a non-empty segment without `/` is added, the path has a file name part and its last `/` is just before the segment |
| `OperHlp.AddFileName` | src/tool_operhlp.c:76-143 | every outcome other than CURLE_OK is CURLE_OUT_OF_MEMORY with the caller's URL unchanged; a changed URL comes only with CURLE_OK, after the rebuild as last call |
| `OperHlp.AddToPath` | src/tool_operhlp.c:89-133 | a path with a file name part gives CURLE_OK with the URL and the calls unchanged; every other outcome than CURLE_OK is CURLE_OUT_OF_MEMORY with the URL unchanged; a changed URL comes only after the rebuild |
| `OperHlp.AddEncoded` | src/tool_operhlp.c:109-133 | CURLE_OK only when formatting, setting the path and rebuilding succeed, after exactly those three calls, with the URL the builder returned; otherwise CURLE_OUT_OF_MEMORY with the URL unchanged |
| `OperHlp.UrlSlot.constructor` | src/tool_operhlp.c:76 | the slot standing for the caller's `char *` holds the URL it is given; `add_file_name_to_url` replaces it in place at :130-131 |
| `OperHlp.AllStepsSucceed` | src/tool_operhlp.c:78-133 | the reference account of success: handle, parse and path obtained, then either a file name part or encode, format, set path and rebuild all succeed; it implies the path was obtained |
| `OperHlp.AddFileNameToUrl` | src/tool_operhlp.c:76-143 | the method's code, new `*inurlp` and call sequence are those of `AddFileName`; on CURLE_OUT_OF_MEMORY `*inurlp` is unchanged |
| `OperHlp.AddResultCodes` | src/tool_operhlp.c:78-142 | CURLE_OK exactly when every step succeeds; any other outcome is CURLE_OUT_OF_MEMORY with the URL unchanged; a changed URL comes only with CURLE_OK, and the last call made is then the rebuild (`GetUrl`) |
| `OperHlp.EncodedCodes` | src/tool_operhlp.c:115-133 | once the segment is encoded: CURLE_OK exactly when formatting, setting the path and rebuilding succeed, and then the new URL is what the builder returns for the handle with the new path; otherwise CURLE_OUT_OF_MEMORY with the URL unchanged |
| `OperHlp.AddReplacesWithRebuiltUrl` | src/tool_operhlp.c:109-131 | when every step succeeds on a path without a file name part, the result is CURLE_OK, `*inurlp` becomes the URL rebuilt from the joined path, and the calls are handle, parse, get path, encode the local segment, format, set path, rebuild, in that order |
| `OperHlp.AddKeepsUrlWithFileName` | src/tool_operhlp.c:89-137 | a path with a file name part gives CURLE_OK with the URL unchanged, after only the handle, parse and get-path calls |
| `OperHlp.AddEncodesLocalSegment` | src/tool_operhlp.c:94-109 | the encoder is called at most once, only for a path without a file name part, and only on the local file's last segment, which has no separator |
| `OperHlp.AddSetsJoinedPath` | src/tool_operhlp.c:107-124 | the encoder gets the local segment, and the path set is `path + enc` or `path + "/" + enc`, depending on whether the path ends in `/` |
| `OperHlp.AddIdempotent` | src/tool_operhlp.c:89-132 | if the library parses the rebuilt URL back to the new path and the encoded segment is non-empty without `/`, a second call returns CURLE_OK and leaves the URL unchanged |

## Left out

- `clean_getout` (src/tool_operhlp.c:38-54) only frees a linked list of pending transfers. Its one visible effect is that the list head becomes NULL, and Dafny has no explicit deallocation.
- The MSDOS/WIN32 `sanitize_file_name` step of `get_url_file_name` (src/tool_operhlp.c:178-187) calls into tool_doswin, which is not part of this model. `CurleUrlMalformat` exists only because that step could return it.
- The DEBUGBUILD `CURL_TESTDIR` prefix of `get_url_file_name` (src/tool_operhlp.c:193-206) reads the process environment and writes into a 512-byte buffer. It does not exist in production builds.
- libcurl's URL parser and builder, `curl_easy_escape`, `aprintf`, `strdup`, `free` and `curl_free` are not modelled internally. Their results are parameters: `UrlLib` for the URL calls, and `dupOk` for the copy in `get_url_file_name`. No claim is made about percent-encoding or URL normalisation.
- Releasing memory has no counterpart. The model has no `free(*inurlp)` before the replacement, no `curl_url_cleanup` and no `curl_free(path)`. The model does keep the rule that `*inurlp` is replaced only on success.
- `AddFileNameToUrl`: the handle is threaded as a value of the abstract type `H`. `curl_url_set` of a new path yields the handle's next state rather than updating a shared object, which is equivalent here because the handle never escapes the function.
- C strings cannot hold a NUL character, but the model's `string` values can. `FindFirst`, `LastIndex`, `CheckPrefix` and every operation built on them are meant for NUL-free strings, where they agree with `strstr`, `strrchr` and `checkprefix`. On a string with an embedded `'\0'` they search past the point where the C functions stop.
- `CheckPrefix`: curl's `strncasecompare` (lib/strcase.c) is not part of this model. It is stated as the ASCII case-insensitive comparison that it performs.
- `UrlFileNameLastSegment`, `UrlFileNameSchemeOnly`, `UrlFileNameNoSeparator`: literal example URLs such as `http://example.com/a/b.txt` are not stated as literals. These lemmas prove the general families that contain them.
