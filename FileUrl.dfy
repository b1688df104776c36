/**
 * `urlStringToPath` of lib.py: a `file://` URL turned into a local path by
 * dropping the scheme, and also the third slash when a drive letter follows.
 */
module FileUrl {
  import opened Wrappers
  import opened Text

  const FilePrefix: string := "file://"

  /** `p` is what is left of `s` after dropping some leading characters. */
  predicate IsSuffix(p: string, s: string) {
    |p| <= |s| && s[|s| - |p|..] == p
  }

  /**
   * `urlStringToPath(urlString)`. A string without the prefix is returned
   * unchanged. With the prefix, index 9 is read unconditionally, so a URL of
   * fewer than ten characters raises `IndexError`; otherwise a colon at
   * index 9 (`file:///C:...`) drops eight characters and anything else seven.
   */
  function UrlStringToPath(urlString: string): (r: Result<string, Raised>)
    ensures !StartsWith(urlString, FilePrefix) ==> r == Success(urlString)
    ensures r == Failure(IndexError) <==> StartsWith(urlString, FilePrefix) && |urlString| < 10
    ensures r.Failure? ==> r.error == IndexError
    ensures r.Success? ==> IsSuffix(r.value, urlString)
  {
    if StartsWith(urlString, FilePrefix) then
      if |urlString| <= 9 then Failure(IndexError)
      else
        var separatorIndex := if urlString[9] == ':' then 8 else 7;
        Success(urlString[separatorIndex..])
    else
      Success(urlString)
  }

  /** A POSIX path behind `file://` comes back unchanged, unless a colon is its third character. */
  lemma UnixPathRoundTrip(path: string)
    requires |path| >= 3 && path[2] != ':'
    ensures UrlStringToPath(FilePrefix + path) == Success(path)
  {
  }

  /** A drive path behind `file:///` (`file:///C:/x.mp3`) comes back unchanged. */
  lemma DrivePathRoundTrip(drive: string)
    requires |drive| >= 2 && drive[1] == ':'
    ensures UrlStringToPath(FilePrefix + "/" + drive) == Success(drive)
  {
  }

  /**
   * The drive test looks only at index 9, so a POSIX path whose third
   * character is a colon (`/a:b`) is taken for a drive path and loses its
   * leading slash.
   */
  lemma ColonAtIndexNineDropsSlash(path: string)
    requires |path| >= 3 && path[2] == ':'
    ensures UrlStringToPath(FilePrefix + path) == Success(path[1..])
  {
  }

  // ---------------------------------------------------------------- the unguarded index

  /**
   * `urlStringToPath` with the read of index 9 guarded by a length test,
   * so that short URLs such as `file:///a` convert instead of raising.
   */
  function UrlStringToPathGuarded(urlString: string): (path: string)
    ensures IsSuffix(path, urlString)
  {
    if StartsWith(urlString, FilePrefix) then
      var separatorIndex := if |urlString| > 9 && urlString[9] == ':' then 8 else 7;
      urlString[separatorIndex..]
    else
      urlString
  }

  /** The guarded version returns every POSIX path, short ones included. */
  lemma GuardedUnixPathRoundTrip(path: string)
    requires !(|path| >= 3 && path[2] == ':')
    ensures UrlStringToPathGuarded(FilePrefix + path) == path
  {
  }

  /** Wherever the original returns, the guarded version returns the same path. */
  lemma GuardedAgrees(urlString: string)
    ensures UrlStringToPath(urlString).Success? ==>
              UrlStringToPathGuarded(urlString) == UrlStringToPath(urlString).value
  {
  }

  /** `file:///a` raises `IndexError` as written; guarded, it converts to `/a`. */
  lemma ShortFileUrlRaises()
    ensures UrlStringToPath("file:///a") == Failure(IndexError)
    ensures UrlStringToPathGuarded("file:///a") == "/a"
  {
  }
}
