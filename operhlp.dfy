/*
 * The file-name helpers of curl's command-line tool (src/tool_operhlp.c):
 * deciding whether output is expected, recognising an upload from standard
 * input, deriving a local file name from a URL, and adding the local file's
 * name to a URL whose path has no file name part.
 */
module OperHlp {
  import opened CStr

  /** The CURLcode values named in src/tool_operhlp.c. */
  datatype CurlCode = CurleOk | CurleUrlMalformat | CurleOutOfMemory

  // ---------------------------------------------------------------------
  // output_expected and stdin_upload

  /**
   * output_expected: a download (no upload file) always expects output, and
   * so does an upload to a URL that starts with http:// or https://, in any
   * letter case.
   */
  function OutputExpected(url: string, uploadfile: Option<string>): (r: bool)
    ensures uploadfile.None? ==> r
    ensures uploadfile.Some? ==>
      (r <==> (|url| >= 7 && Upper(url[..7]) == "HTTP://") ||
              (|url| >= 8 && Upper(url[..8]) == "HTTPS://"))
  {
    CheckPrefixIsUpper("http://", url);
    CheckPrefixIsUpper("https://", url);
    UpperHttp();
    uploadfile.None? || CheckPrefix("http://", url) || CheckPrefix("https://", url)
  }

  /** stdin_upload: the upload file name "-" or "." means standard input. */
  function StdinUpload(uploadfile: string): (r: bool)
    ensures r <==> |uploadfile| == 1 && (uploadfile[0] == '-' || uploadfile[0] == '.')
  {
    uploadfile == "-" || uploadfile == "."
  }

  // ---------------------------------------------------------------------
  // The trailing-segment rule shared by both file-name operations

  /** The two characters either operation treats as a path separator. */
  predicate IsSep(c: char) {
    c == '/' || c == '\\'
  }

  predicate HasSep(s: string) {
    exists i :: 0 <= i < |s| && IsSep(s[i])
  }

  predicate SepFree(s: string) {
    forall i :: 0 <= i < |s| ==> !IsSep(s[i])
  }

  /**
   * Reference definition of "the part after the last separator": the
   * longest tail of `s` without a separator, found by one scan that treats
   * '/' and '\\' alike.
   */
  function SepFreeSuffix(s: string): (r: string)
    ensures |r| <= |s| && r == s[|s| - |r|..]
    ensures SepFree(r)
    ensures |r| < |s| ==> IsSep(s[|s| - |r| - 1])
  {
    if |s| == 0 then []
    else if IsSep(s[|s| - 1]) then []
    else
      var init := s[..|s| - 1];
      var r := SepFreeSuffix(init) + [s[|s| - 1]];
      assert s[|s| - |r|..] == init[|init| - (|r| - 1)..] + [s[|s| - 1]];
      r
  }

  /** The tail after a separator that no later separator follows is the separator-free suffix. */
  lemma SepFreeSuffixAfter(s: string, b: nat)
    requires b < |s| && IsSep(s[b]) && SepFree(s[b + 1..])
    ensures SepFreeSuffix(s) == s[b + 1..]
  {
  }

  /** A string without separators is its own separator-free suffix. */
  lemma SepFreeSuffixOfSepFree(s: string)
    requires SepFree(s)
    ensures SepFreeSuffix(s) == s
  {
  }

  /** When a tail of `s` holds a separator, its separator-free suffix is that of all of `s`. */
  lemma SepFreeSuffixOfTail(s: string, k: nat)
    requires k <= |s|
    ensures HasSep(s[k..]) ==> SepFreeSuffix(s[k..]) == SepFreeSuffix(s)
  {
    var w := s[k..];
    if !HasSep(w) {
      return;
    }
    var r := SepFreeSuffix(w);
    var b := |w| - |r| - 1;
    assert s[k + b + 1..] == w[b + 1..];
    SepFreeSuffixAfter(s, k + b);
  }

  // ---------------------------------------------------------------------
  // get_url_file_name

  /** Where the search for the remote name starts: just past the first "://", or at 0. */
  function SchemeEnd(url: string): (r: nat)
    ensures r <= |url|
    ensures FindFirst(url, "://").Some? ==> r >= 3 && MatchAt(url, "://", r - 3)
    ensures FindFirst(url, "://").Some? ==> forall j :: 0 <= j < r - 3 ==> !MatchAt(url, "://", j)
    ensures FindFirst(url, "://").None? ==> r == 0
  {
    match FindFirst(url, "://")
    case Some(i) => i + 3
    case None => 0
  }

  /**
   * The boundary choice of get_url_file_name within the search window `w`:
   * the rightmost '\\' and the rightmost '/' are found independently and
   * the later of the two is the boundary; the name is what follows it, or
   * "" when `w` has neither.
   */
  function NameAfterBoundary(w: string): (r: string)
    ensures r == if HasSep(w) then SepFreeSuffix(w) else []
  {
    var back := LastIndex(w, '\\');
    var fwd := LastIndex(w, '/');
    var pc := if back.Some? && (fwd.None? || fwd.value < back.value) then back else fwd;
    if pc.Some? then
      assert IsSep(w[pc.value]);
      SepFreeSuffixAfter(w, pc.value);
      w[pc.value + 1..]
    else
      []
  }

  /**
   * get_url_file_name's name part of `url`: a tail of `url` without any
   * separator, which is all of what follows the URL's last separator when
   * that separator lies past the first "://", and "" when there is none.
   */
  function UrlFileName(url: string): (r: string)
    ensures |r| <= |url| && r == url[|url| - |r|..]
    ensures SepFree(r)
    ensures HasSep(url[SchemeEnd(url)..]) ==> r == SepFreeSuffix(url)
    ensures !HasSep(url[SchemeEnd(url)..]) ==> r == []
  {
    var k := SchemeEnd(url);
    var r := NameAfterBoundary(url[k..]);
    SepFreeSuffixOfTail(url, k);
    assert r == [] ==> r == url[|url|..];
    r
  }

  /** The outcome of get_url_file_name: its return code and what it left in `*filename`. */
  datatype NameResult = NameResult(code: CurlCode, filename: Option<string>)

  /**
   * get_url_file_name, with the success of strdup as the parameter `dupOk`:
   * `*filename` holds the name exactly when the result is CURLE_OK, and is
   * left NULL when the copy cannot be allocated.
   */
  function GetUrlFileName(url: string, dupOk: bool): (r: NameResult)
    ensures r.code == CurleOk <==> r.filename.Some?
    ensures r.code == CurleOk <==> dupOk
    ensures r.filename.Some? ==> r.filename.value == UrlFileName(url)
    ensures !dupOk ==> r == NameResult(CurleOutOfMemory, None)
  {
    if dupOk then NameResult(CurleOk, Some(UrlFileName(url)))
    else NameResult(CurleOutOfMemory, None)
  }

  /**
   * A scheme without separators followed by "://" is skipped whole: its
   * slashes are never a boundary, and the name comes from what follows.
   */
  lemma SchemeSkipped(scheme: string, rest: string)
    requires SepFree(scheme)
    ensures UrlFileName(scheme + "://" + rest) == if HasSep(rest) then SepFreeSuffix(rest) else []
  {
    var url := scheme + "://" + rest;
    assert MatchAt(url, "://", |scheme|);
    forall j | 0 <= j < |scheme| ensures !MatchAt(url, "://", j) {
      if j + 1 < |scheme| {
        assert url[j + 1] == scheme[j + 1];
      } else {
        assert url[j + 1] == ':';
      }
      assert url[j..j + 3][1] == url[j + 1];
    }
    assert SchemeEnd(url) == |scheme| + 3;
    assert url[SchemeEnd(url)..] == rest;
  }

  /** A URL without "://" is searched whole. */
  lemma NoSchemeSearchedWhole(url: string)
    requires FindFirst(url, "://").None?
    ensures UrlFileName(url) == if HasSep(url) then SepFreeSuffix(url) else []
  {
    assert url[SchemeEnd(url)..] == url;
  }

  /** The later of the two kinds of separator wins: only what follows the last one is kept. */
  lemma LaterSeparatorWins(p: string, c: char, q: string)
    requires IsSep(c) && SepFree(q)
    ensures NameAfterBoundary(p + [c] + q) == q
  {
    var w := p + [c] + q;
    assert w[|p|] == c;
    assert w[|p| + 1..] == q;
    SepFreeSuffixAfter(w, |p|);
  }

  /**
   * The name part of a URL is what follows the last separator of its path,
   * whether that separator is a '/' or a '\\': for instance "b.txt" for
   * "http://example.com/a/b.txt" and "file.txt" for
   * "ftp://host/dir\\file.txt".
   */
  lemma UrlFileNameLastSegment(scheme: string, path: string, c: char, file: string)
    requires SepFree(scheme) && IsSep(c) && SepFree(file)
    ensures UrlFileName(scheme + "://" + path + [c] + file) == file
  {
    var rest := path + [c] + file;
    assert scheme + "://" + path + [c] + file == scheme + "://" + rest;
    SchemeSkipped(scheme, rest);
    assert rest[|path|] == c;
    assert rest[|path| + 1..] == file;
    SepFreeSuffixAfter(rest, |path|);
  }

  /** A URL ending in a separator, such as "http://example.com/", has an empty name part. */
  lemma UrlFileNameTrailingSeparator(scheme: string, path: string, c: char)
    requires SepFree(scheme) && IsSep(c)
    ensures UrlFileName(scheme + "://" + path + [c]) == ""
  {
    UrlFileNameLastSegment(scheme, path, c, "");
    assert scheme + "://" + path + [c] + "" == scheme + "://" + path + [c];
  }

  /** A bare scheme and separator, such as "http://", has an empty name part. */
  lemma UrlFileNameSchemeOnly(scheme: string)
    requires SepFree(scheme)
    ensures UrlFileName(scheme + "://") == ""
  {
    SchemeSkipped(scheme, "");
    assert scheme + "://" + "" == scheme + "://";
  }

  /** A URL without any separator, such as "noscheme" or "", has an empty name part. */
  lemma UrlFileNameNoSeparator(url: string)
    requires SepFree(url)
    ensures UrlFileName(url) == ""
  {
    forall j | 0 <= j <= |url| ensures !MatchAt(url, "://", j) {
      if j + 3 <= |url| {
        assert url[j..j + 3][1] == url[j + 1];
      }
    }
    NoSchemeSearchedWhole(url);
  }

  // ---------------------------------------------------------------------
  // add_file_name_to_url

  /**
   * The test at the head of add_file_name_to_url: the path has a file name
   * part when its last '/' is followed by at least one character. A path
   * such as "/dir" therefore has one; only a path that ends in '/' or has
   * no '/' at all lacks one.
   */
  function PathHasFileName(path: string): (r: bool)
    ensures r <==> '/' in path && path[|path| - 1] != '/'
  {
    var ptr := LastIndex(path, '/');
    ptr.Some? && ptr.value + 1 < |path|
  }

  /**
   * The part of the local file name that add_file_name_to_url encodes: the
   * rightmost '/' is found first and the rightmost '\\' is then searched for
   * from there on, so what is kept follows whichever of the two comes last,
   * or is the whole name when it has neither.
   */
  function LocalSegment(filename: string): (r: string)
    ensures r == SepFreeSuffix(filename)
  {
    var slash := LastIndex(filename, '/');
    var from := if slash.Some? then slash.value else 0;
    var file2 := LastIndex(filename[from..], '\\');
    if file2.Some? then
      assert filename[from + file2.value] == '\\';
      assert filename[from + file2.value + 1..] == filename[from..][file2.value + 1..];
      SepFreeSuffixAfter(filename, from + file2.value);
      filename[from + file2.value + 1..]
    else if slash.Some? then
      assert filename[slash.value + 1..] == filename[from..][1..];
      SepFreeSuffixAfter(filename, slash.value);
      filename[slash.value + 1..]
    else
      SepFreeSuffixOfSepFree(filename);
      filename
  }

  /**
   * The new path built from a path without a file name part and the encoded
   * segment: exactly one '/' separates the two, the path's own when it ends
   * in one, an added one when it has none.
   */
  function NewPath(path: string, enc: string): (r: string)
    requires !PathHasFileName(path)
    ensures |path| > 0 && path[|path| - 1] == '/' ==> r == path + enc
    ensures '/' !in path ==> r == path + "/" + enc
  {
    if LastIndex(path, '/').Some? then path + enc else path + "/" + enc
  }

  /** Both operations cut a name at the same place: after the last '/' or '\\'. */
  lemma SameBoundaryRule(s: string)
    ensures HasSep(s) ==> NameAfterBoundary(s) == LocalSegment(s)
    ensures SepFree(LocalSegment(s))
  {
  }

  /**
   * After a non-empty segment without '/' is added, the path has a file name
   * part, and that part is the segment itself.
   */
  lemma NewPathHasFileName(path: string, enc: string)
    requires !PathHasFileName(path) && enc != [] && '/' !in enc
    ensures PathHasFileName(NewPath(path, enc))
    ensures LastIndex(NewPath(path, enc), '/') == Some(|NewPath(path, enc)| - |enc| - 1)
  {
    var r := NewPath(path, enc);
    var b := |r| - |enc| - 1;
    assert r[b] == '/';
    assert r[b + 1..] == enc;
    forall j | b < j < |r| ensures r[j] != '/' {
      assert r[j] == enc[j - b - 1];
    }
    assert r[|r| - 1] == enc[|enc| - 1];
  }

  /**
   * The URL handling of libcurl that add_file_name_to_url calls, as values:
   * each entry says what a call returns, None standing for its failure. `H`
   * is the state of a parsed URL handle.
   */
  datatype UrlLib<!H> = UrlLib(
    handleOk: bool,                       // curl_url() allocates a handle
    setUrl: string -> Option<H>,          // curl_url_set(CURLUPART_URL, GUESS_SCHEME | NON_SUPPORT_SCHEME)
    getPath: H -> Option<string>,         // curl_url_get(CURLUPART_PATH)
    escape: string -> Option<string>,     // curl_easy_escape
    formatOk: bool,                       // aprintf allocates the new path
    setPath: (H, string) -> Option<H>,    // curl_url_set(CURLUPART_PATH)
    getUrl: H -> Option<string>)          // curl_url_get(CURLUPART_URL, DEFAULT_SCHEME)

  /** The library calls add_file_name_to_url makes, in order, with the arguments that matter. */
  datatype LibCall =
    | NewHandle
    | SetUrl(url: string)
    | GetPath
    | Escape(segment: string)
    | Format
    | SetPath(path: string)
    | GetUrl

  /** What add_file_name_to_url returns, what `*inurlp` holds afterwards, and the calls it made. */
  datatype AddOutcome = AddOutcome(code: CurlCode, url: string, calls: seq<LibCall>)

  /**
   * add_file_name_to_url as a function of the library's answers: `url` is
   * the caller's `*inurlp` on entry. The result code starts out as
   * CURLE_OUT_OF_MEMORY and only the two OK paths change it, so every failure
   * reports that code and leaves `*inurlp` as it was.
   */
  function AddFileName<H>(lib: UrlLib<H>, url: string, filename: string): (out: AddOutcome)
    ensures out.code != CurleOk ==> out.code == CurleOutOfMemory && out.url == url
    ensures out.url != url ==> out.code == CurleOk && |out.calls| > 0 && out.calls[|out.calls| - 1] == GetUrl
  {
    if !lib.handleOk then AddOutcome(CurleOutOfMemory, url, [NewHandle])
    else
      var calls := [NewHandle, SetUrl(url)];
      match lib.setUrl(url)
      case None => AddOutcome(CurleOutOfMemory, url, calls)
      case Some(uh) =>
        match lib.getPath(uh)
        case None => AddOutcome(CurleOutOfMemory, url, calls + [GetPath])
        case Some(path) => AddToPath(lib, url, filename, uh, path, calls + [GetPath])
  }

  /** add_file_name_to_url once the path of the parsed URL is known; `calls` are those made so far. */
  function AddToPath<H>(lib: UrlLib<H>, url: string, filename: string, uh: H, path: string,
                        calls: seq<LibCall>): (out: AddOutcome)
    ensures PathHasFileName(path) ==> out == AddOutcome(CurleOk, url, calls)
    ensures out.code != CurleOk ==> out.code == CurleOutOfMemory && out.url == url
    ensures out.url != url ==> out.code == CurleOk && |out.calls| > 0 && out.calls[|out.calls| - 1] == GetUrl
  {
    if PathHasFileName(path) then AddOutcome(CurleOk, url, calls)
    else
      var filep := LocalSegment(filename);
      match lib.escape(filep)
      case None => AddOutcome(CurleOutOfMemory, url, calls + [Escape(filep)])
      case Some(encfile) => AddEncoded(lib, url, uh, NewPath(path, encfile), calls + [Escape(filep)])
  }

  /** add_file_name_to_url once the encoded segment is known and the new path is formatted. */
  function AddEncoded<H>(lib: UrlLib<H>, url: string, uh: H, newpath: string,
                         calls: seq<LibCall>): (out: AddOutcome)
    ensures out.code != CurleOk ==> out.code == CurleOutOfMemory && out.url == url
    ensures out.code == CurleOk ==>
      && out.calls == calls + [Format, SetPath(newpath), GetUrl]
      && lib.formatOk && lib.setPath(uh, newpath).Some?
      && lib.getUrl(lib.setPath(uh, newpath).value) == Some(out.url)
  {
    var calls := calls + [Format];
    if !lib.formatOk then AddOutcome(CurleOutOfMemory, url, calls)
    else
      var calls := calls + [SetPath(newpath)];
      match lib.setPath(uh, newpath)
      case None => AddOutcome(CurleOutOfMemory, url, calls)
      case Some(uh2) =>
        match lib.getUrl(uh2)
        case None => AddOutcome(CurleOutOfMemory, url, calls + [GetUrl])
        case Some(newurl) => AddOutcome(CurleOk, newurl, calls + [GetUrl])
  }

  /** The caller's `char *` that add_file_name_to_url may replace through `inurlp`. */
  class UrlSlot {
    var url: string

    constructor (url: string)
      ensures this.url == url
    {
      this.url := url;
    }
  }

  /**
   * add_file_name_to_url: `inurlp.url` is replaced by the rebuilt URL only
   * when every step succeeds; on every failure it is untouched and the
   * result is CURLE_OUT_OF_MEMORY.
   */
  method AddFileNameToUrl<H>(lib: UrlLib<H>, inurlp: UrlSlot, filename: string)
    returns (result: CurlCode, calls: seq<LibCall>)
    modifies inurlp
    ensures AddOutcome(result, inurlp.url, calls) == AddFileName(lib, old(inurlp.url), filename)
    ensures result == CurleOutOfMemory ==> inurlp.url == old(inurlp.url)
  {
    ghost var url := inurlp.url;
    result := CurleOutOfMemory;
    calls := [NewHandle];
    if lib.handleOk {
      label fail: {
        calls := [NewHandle, SetUrl(inurlp.url)];
        var parsed := lib.setUrl(inurlp.url);
        if parsed.None? {
          break fail;
        }
        var uh := parsed.value;
        calls := calls + [GetPath];
        var gotPath := lib.getPath(uh);
        if gotPath.None? {
          assert AddFileName(lib, url, filename) == AddOutcome(result, url, calls);
          break fail;
        }
        var path := gotPath.value;
        assert calls == [NewHandle, SetUrl(url), GetPath];
        assert AddFileName(lib, url, filename) == AddToPath(lib, url, filename, uh, path, calls);
        if !PathHasFileName(path) {
          var filep := LocalSegment(filename);
          calls := calls + [Escape(filep)];
          var encfile := lib.escape(filep);
          if encfile.Some? {
            var newpath := NewPath(path, encfile.value);
            assert AddFileName(lib, url, filename) == AddEncoded(lib, url, uh, newpath, calls);
            calls := calls + [Format];
            if !lib.formatOk {
              break fail;
            }
            calls := calls + [SetPath(newpath)];
            var uerr := lib.setPath(uh, newpath);
            if uerr.None? {
              assert AddFileName(lib, url, filename) == AddOutcome(result, url, calls);
              break fail;
            }
            uh := uerr.value;
            calls := calls + [GetUrl];
            var newurl := lib.getUrl(uh);
            if newurl.None? {
              assert AddFileName(lib, url, filename) == AddOutcome(result, url, calls);
              break fail;
            }
            inurlp.url := newurl.value;
            result := CurleOk;
            assert AddFileName(lib, url, filename) == AddOutcome(result, inurlp.url, calls);
          } else {
            assert AddFileName(lib, url, filename) == AddOutcome(result, url, calls);
          }
        } else {
          result := CurleOk;
        }
      }
    }
  }

  /**
   * The reference account of when add_file_name_to_url succeeds: a handle,
   * a parse and a path are obtained, and either the path already has a file
   * name part or the encoding, formatting, path setting and rebuild all
   * succeed.
   */
  ghost predicate AllStepsSucceed<H>(lib: UrlLib<H>, url: string, filename: string)
    ensures AllStepsSucceed(lib, url, filename) ==> ParsedPath(lib, url).Some?
  {
    && lib.handleOk
    && lib.setUrl(url).Some?
    && var uh := lib.setUrl(url).value;
    && lib.getPath(uh).Some?
    && var path := lib.getPath(uh).value;
    || PathHasFileName(path)
    || (&& lib.escape(LocalSegment(filename)).Some?
        && lib.formatOk
        && var enc := lib.escape(LocalSegment(filename)).value;
        && lib.setPath(uh, NewPath(path, enc)).Some?
        && lib.getUrl(lib.setPath(uh, NewPath(path, enc)).value).Some?)
  }

  /**
   * The result is CURLE_OK exactly when every step succeeds; otherwise it is
   * CURLE_OUT_OF_MEMORY, whichever step failed, and the URL is left as it
   * was. A different URL is only ever the rebuilt one, the last call made.
   */
  lemma AddResultCodes<H>(lib: UrlLib<H>, url: string, filename: string)
    ensures var out := AddFileName(lib, url, filename);
      && (out.code == CurleOk <==> AllStepsSucceed(lib, url, filename))
      && (out.code != CurleOk ==> out.code == CurleOutOfMemory && out.url == url)
      && (out.url != url ==> out.code == CurleOk && out.calls[|out.calls| - 1] == GetUrl)
  {
    if lib.handleOk && lib.setUrl(url).Some? && lib.getPath(lib.setUrl(url).value).Some? {
      var uh := lib.setUrl(url).value;
      var path := lib.getPath(uh).value;
      var calls := [NewHandle, SetUrl(url)] + [GetPath];
      assert AddFileName(lib, url, filename) == AddToPath(lib, url, filename, uh, path, calls);
      if !PathHasFileName(path) {
        var seg := LocalSegment(filename);
        if lib.escape(seg).Some? {
          var np := NewPath(path, lib.escape(seg).value);
          assert AddToPath(lib, url, filename, uh, path, calls) == AddEncoded(lib, url, uh, np, calls + [Escape(seg)]);
          EncodedCodes(lib, url, uh, np, calls + [Escape(seg)]);
        }
      }
    }
  }

  /** The codes of the last three steps: format, set the path, rebuild. */
  lemma EncodedCodes<H>(lib: UrlLib<H>, url: string, uh: H, newpath: string, calls: seq<LibCall>)
    ensures var out := AddEncoded(lib, url, uh, newpath, calls);
      && (out.code == CurleOk <==>
            lib.formatOk && lib.setPath(uh, newpath).Some? && lib.getUrl(lib.setPath(uh, newpath).value).Some?)
      && (out.code != CurleOk ==> out.code == CurleOutOfMemory && out.url == url)
      && (out.url != url ==> out.code == CurleOk && out.calls[|out.calls| - 1] == GetUrl)
      && (out.code == CurleOk ==> out.url == lib.getUrl(lib.setPath(uh, newpath).value).value)
  {
  }

  /**
   * When every step succeeds on a path without a file name part, `*inurlp`
   * becomes the URL rebuilt from the joined path, after exactly the seven
   * library calls of the function, in order.
   */
  lemma AddReplacesWithRebuiltUrl<H>(lib: UrlLib<H>, url: string, filename: string, uh: H, path: string,
                                     enc: string, uh2: H, newurl: string)
    requires lib.handleOk && lib.setUrl(url) == Some(uh) && lib.getPath(uh) == Some(path)
    requires !PathHasFileName(path)
    requires lib.escape(LocalSegment(filename)) == Some(enc) && lib.formatOk
    requires lib.setPath(uh, NewPath(path, enc)) == Some(uh2) && lib.getUrl(uh2) == Some(newurl)
    ensures AddFileName(lib, url, filename).code == CurleOk
    ensures AddFileName(lib, url, filename).url == newurl
    ensures AddFileName(lib, url, filename).calls ==
      [NewHandle, SetUrl(url)] + [GetPath] + [Escape(SepFreeSuffix(filename))] + [Format, SetPath(NewPath(path, enc)), GetUrl]
  {
  }

  /**
   * When the parsed path already has a file name part the URL is returned
   * unchanged with CURLE_OK, and neither the encoder nor the path setter nor
   * the builder is called.
   */
  lemma AddKeepsUrlWithFileName<H>(lib: UrlLib<H>, url: string, filename: string, uh: H, path: string)
    requires lib.handleOk && lib.setUrl(url) == Some(uh) && lib.getPath(uh) == Some(path)
    requires PathHasFileName(path)
    ensures AddFileName(lib, url, filename) == AddOutcome(CurleOk, url, [NewHandle, SetUrl(url), GetPath])
  {
  }

  /** The path add_file_name_to_url obtains from the parsed URL, if it gets that far. */
  function ParsedPath<H>(lib: UrlLib<H>, url: string): Option<string> {
    if lib.handleOk && lib.setUrl(url).Some? then lib.getPath(lib.setUrl(url).value) else None
  }

  /** The arguments of the encoder calls in `calls`, in order. */
  function Escaped(calls: seq<LibCall>): seq<string> {
    if calls == [] then []
    else
      var last := calls[|calls| - 1];
      Escaped(calls[..|calls| - 1]) + (if last.Escape? then [last.segment] else [])
  }

  /**
   * Whatever the outcome, the encoder is called at most once, only when the
   * path lacks a file name part, and always on the local file's last
   * segment, which holds neither '/' nor '\\'.
   */
  lemma AddEncodesLocalSegment<H>(lib: UrlLib<H>, url: string, filename: string)
    ensures var escaped := Escaped(AddFileName(lib, url, filename).calls);
      && (escaped == [] || escaped == [SepFreeSuffix(filename)])
      && SepFree(SepFreeSuffix(filename))
      && (escaped != [] ==> ParsedPath(lib, url).Some? && !PathHasFileName(ParsedPath(lib, url).value))
  {
    var calls := AddFileName(lib, url, filename).calls;
    var c1 := [NewHandle];
    var c2 := c1 + [SetUrl(url)];
    var c3 := c2 + [GetPath];
    EscapedAppend([], NewHandle);
    EscapedAppend(c1, SetUrl(url));
    EscapedAppend(c2, GetPath);
    assert [] + c1 == c1 && [NewHandle, SetUrl(url)] == c2;
    if lib.handleOk && lib.setUrl(url).Some? && lib.getPath(lib.setUrl(url).value).Some? {
      var uh := lib.setUrl(url).value;
      var path := lib.getPath(uh).value;
      EscapedToPath(lib, url, filename, uh, path, c3);
    }
  }

  /** Appending one call adds its argument to Escaped when it is an encoder call. */
  lemma EscapedAppend(calls: seq<LibCall>, c: LibCall)
    ensures Escaped(calls + [c]) == Escaped(calls) + (if c.Escape? then [c.segment] else [])
  {
    assert (calls + [c])[..|calls|] == calls;
  }

  /** Once the path is known, the local segment is encoded exactly when the path has no name. */
  lemma EscapedToPath<H>(lib: UrlLib<H>, url: string, filename: string, uh: H, path: string,
                         calls: seq<LibCall>)
    ensures Escaped(AddToPath(lib, url, filename, uh, path, calls).calls) ==
      Escaped(calls) + (if PathHasFileName(path) then [] else [LocalSegment(filename)])
  {
    if !PathHasFileName(path) {
      EscapedUnnamedPath(lib, url, filename, uh, path, calls);
    }
  }

  /** For a path without a file name part, the local segment is encoded once. */
  lemma EscapedUnnamedPath<H>(lib: UrlLib<H>, url: string, filename: string, uh: H, path: string,
                              calls: seq<LibCall>)
    requires !PathHasFileName(path)
    ensures Escaped(AddToPath(lib, url, filename, uh, path, calls).calls) == Escaped(calls) + [LocalSegment(filename)]
  {
    var seg := LocalSegment(filename);
    var c4 := calls + [Escape(seg)];
    EscapedAppend(calls, Escape(seg));
    match lib.escape(seg)
    case None =>
    case Some(enc) =>
      assert AddToPath(lib, url, filename, uh, path, calls) == AddEncoded(lib, url, uh, NewPath(path, enc), c4);
      EscapedEncoded(lib, url, uh, NewPath(path, enc), c4);
  }

  /** Formatting, setting the path and rebuilding call no encoder. */
  lemma EscapedEncoded<H>(lib: UrlLib<H>, url: string, uh: H, newpath: string, calls: seq<LibCall>)
    ensures Escaped(AddEncoded(lib, url, uh, newpath, calls).calls) == Escaped(calls)
  {
    var c5 := calls + [Format];
    var c6 := c5 + [SetPath(newpath)];
    EscapedAppend(calls, Format);
    EscapedAppend(c5, SetPath(newpath));
    EscapedAppend(c6, GetUrl);
  }

  /**
   * When the path lacks a file name part and the segment is encoded as
   * `enc`, the path set is `path + enc` if the path ends in '/' and
   * `path + "/" + enc` otherwise.
   */
  lemma AddSetsJoinedPath<H>(lib: UrlLib<H>, url: string, filename: string, uh: H, path: string, enc: string)
    requires lib.handleOk && lib.setUrl(url) == Some(uh) && lib.getPath(uh) == Some(path)
    requires !PathHasFileName(path)
    requires lib.escape(LocalSegment(filename)) == Some(enc) && lib.formatOk
    ensures var calls := AddFileName(lib, url, filename).calls;
      && |calls| >= 6
      && calls[3] == Escape(SepFreeSuffix(filename))
      && calls[5] == SetPath(if |path| > 0 && path[|path| - 1] == '/' then path + enc else path + "/" + enc)
  {
    var c3 := [NewHandle, SetUrl(url)] + [GetPath];
    var c4 := c3 + [Escape(LocalSegment(filename))];
    var np := NewPath(path, enc);
    assert AddFileName(lib, url, filename) == AddToPath(lib, url, filename, uh, path, c3);
    assert AddToPath(lib, url, filename, uh, path, c3) == AddEncoded(lib, url, uh, np, c4);
    var c6 := c4 + [Format] + [SetPath(np)];
    var calls := AddEncoded(lib, url, uh, np, c4).calls;
    assert calls == c6 || calls == c6 + [GetUrl];
    assert calls[3] == c6[3] && calls[5] == c6[5];
  }

  /**
   * Adding the file name twice changes nothing the second time, provided
   * the encoded segment is non-empty and free of '/', and the library parses
   * the rebuilt URL back into the path it was given.
   */
  lemma AddIdempotent<H>(lib: UrlLib<H>, url: string, filename: string, uh: H, path: string, enc: string,
                         uh2: H, newurl: string, uh3: H)
    requires lib.handleOk && lib.setUrl(url) == Some(uh) && lib.getPath(uh) == Some(path)
    requires !PathHasFileName(path)
    requires lib.escape(LocalSegment(filename)) == Some(enc) && enc != [] && '/' !in enc
    requires lib.formatOk && lib.setPath(uh, NewPath(path, enc)) == Some(uh2) && lib.getUrl(uh2) == Some(newurl)
    requires lib.setUrl(newurl) == Some(uh3) && lib.getPath(uh3) == Some(NewPath(path, enc))
    ensures AddFileName(lib, url, filename).url == newurl
    ensures AddFileName(lib, newurl, filename) == AddOutcome(CurleOk, newurl, [NewHandle, SetUrl(newurl), GetPath])
  {
    NewPathHasFileName(path, enc);
  }

  /**
   * "/dir" already has a file name part, so a URL with that path is left
   * unchanged; "/dir/" and "dir" have none.
   */
  lemma PathHasFileNameExamples()
    ensures PathHasFileName("/dir")
    ensures !PathHasFileName("/dir/")
    ensures !PathHasFileName("dir")
    ensures !PathHasFileName("")
  {
    assert "/dir"[0] == '/';
    assert "dir"[0] != '/' && "dir"[1] != '/' && "dir"[2] != '/';
  }

  /** The new paths for the two kinds of path without a file name part. */
  lemma NewPathExamples()
    ensures NewPath("/dir/", "report%201.csv") == "/dir/report%201.csv"
    ensures NewPath("", "x.txt") == "/x.txt"
  {
    PathHasFileNameExamples();
  }

  /** The local segment is what follows the last '/' or '\\' of the local file name. */
  lemma LocalSegmentLastPart(dir: string, c: char, file: string)
    requires IsSep(c) && SepFree(file)
    ensures LocalSegment(dir + [c] + file) == file
  {
    LaterSeparatorWins(dir, c, file);
    assert (dir + [c] + file)[|dir|] == c;
  }
}
