/*
 * The C library string searches and the case-insensitive prefix test that
 * src/tool_operhlp.c relies on. A C string is modelled as the sequence of
 * characters in front of its terminating NUL, and a pointer into it as an
 * index.
 */
module CStr {

  datatype Option<T> = None | Some(value: T)

  /** True when `pat` occurs in `s` starting at index `i`. */
  predicate MatchAt(s: string, pat: string, i: nat) {
    i + |pat| <= |s| && s[i..i + |pat|] == pat
  }

  /** The first index at or after `from` where `pat` occurs in `s`. */
  function FindFrom(s: string, pat: string, from: nat): (r: Option<nat>)
    requires from <= |s|
    ensures r.Some? ==> from <= r.value && MatchAt(s, pat, r.value)
    ensures r.Some? ==> forall j :: from <= j < r.value ==> !MatchAt(s, pat, j)
    ensures r.None? ==> forall j :: from <= j <= |s| ==> !MatchAt(s, pat, j)
    decreases |s| - from
  {
    if MatchAt(s, pat, from) then Some(from)
    else if from == |s| then None
    else FindFrom(s, pat, from + 1)
  }

  /** strstr: the index of the first occurrence of `pat` in `s`, if any. */
  function FindFirst(s: string, pat: string): (r: Option<nat>)
    ensures r.Some? ==> MatchAt(s, pat, r.value)
    ensures r.Some? ==> forall j :: 0 <= j < r.value ==> !MatchAt(s, pat, j)
    ensures r.None? ==> forall j :: 0 <= j <= |s| ==> !MatchAt(s, pat, j)
  {
    FindFrom(s, pat, 0)
  }

  /** strrchr: the index of the last occurrence of `c` in `s`, if any. */
  function LastIndex(s: string, c: char): (r: Option<nat>)
    ensures r.None? <==> c !in s
    ensures r.Some? ==> r.value < |s| && s[r.value] == c
    ensures r.Some? ==> forall j :: r.value < j < |s| ==> s[j] != c
  {
    if |s| == 0 then None
    else if s[|s| - 1] == c then Some(|s| - 1)
    else
      var r := LastIndex(s[..|s| - 1], c);
      assert s == s[..|s| - 1] + [s[|s| - 1]];
      r
  }

  /** Curl_raw_toupper: ASCII upper-casing, every other character unchanged. */
  function ToUpper(c: char): char {
    if 'a' <= c <= 'z' then (c as int - 32) as char else c
  }

  /**
   * checkprefix(p, s): `s` starts with `p`, letters compared without regard
   * to ASCII case. Written as the character-by-character comparison that
   * curl's strncasecompare performs over strlen(p) characters.
   */
  function CheckPrefix(p: string, s: string): (r: bool)
    ensures r <==> |p| <= |s| && forall i :: 0 <= i < |p| ==> ToUpper(p[i]) == ToUpper(s[i])
  {
    if p == [] then true
    else if s == [] then false
    else
      var rest := CheckPrefix(p[1..], s[1..]);
      assert forall i :: 1 <= i < |p| && i < |s| ==> p[1..][i - 1] == p[i] && s[1..][i - 1] == s[i];
      ToUpper(p[0]) == ToUpper(s[0]) && rest
  }

  /** `s` with every ASCII letter upper-cased. */
  function Upper(s: string): (r: string)
    ensures |r| == |s| && forall i :: 0 <= i < |s| ==> r[i] == ToUpper(s[i])
  {
    seq(|s|, i requires 0 <= i < |s| => ToUpper(s[i]))
  }

  /** checkprefix(p, s) holds exactly when the upper-cased head of `s` is the upper-cased `p`. */
  lemma CheckPrefixIsUpper(p: string, s: string)
    ensures CheckPrefix(p, s) <==> |p| <= |s| && Upper(s[..|p|]) == Upper(p)
  {
    if |p| <= |s| && Upper(s[..|p|]) == Upper(p) {
      forall i | 0 <= i < |p| ensures ToUpper(p[i]) == ToUpper(s[i]) {
        assert Upper(s[..|p|])[i] == ToUpper(s[i]);
      }
    }
  }

  /** The two schemes, upper-cased. */
  lemma UpperHttp()
    ensures Upper("http://") == "HTTP://"
    ensures Upper("https://") == "HTTPS://"
  {
    var http := "http://";
    var https := "https://";
    assert ToUpper('h') == 'H' && ToUpper('t') == 'T' && ToUpper('p') == 'P' && ToUpper('s') == 'S';
    assert ToUpper(':') == ':' && ToUpper('/') == '/';
    assert Upper(http)[0] == 'H' && Upper(http)[1] == 'T' && Upper(http)[2] == 'T' && Upper(http)[3] == 'P';
    assert Upper(http)[4] == ':' && Upper(http)[5] == '/' && Upper(http)[6] == '/';
    assert Upper(https)[0] == 'H' && Upper(https)[1] == 'T' && Upper(https)[2] == 'T' && Upper(https)[3] == 'P';
    assert Upper(https)[4] == 'S' && Upper(https)[5] == ':' && Upper(https)[6] == '/' && Upper(https)[7] == '/';
  }
}
