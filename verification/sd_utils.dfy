/** The two helpers NetworkManager re-implements on top of its systemd copy:
    the HTTP(S) URL check used to validate connection properties, and the
    base64 character decoder that can treat '=' padding as a value. */
module SdUtils {
  import opened Common

  /** A byte that can occur inside a C string: anything but NUL. */
  type NonNulByte = b: uint8 | b != 0 witness 0x20

  /** A C string as the bytes before its terminating NUL, so none of them is
      NUL. */
  type Bytes = seq<NonNulByte>

  /** "http://" */
  const HTTP_PREFIX: Bytes := [0x68, 0x74, 0x74, 0x70, 0x3a, 0x2f, 0x2f]
  /** "https://" */
  const HTTPS_PREFIX: Bytes := [0x68, 0x74, 0x74, 0x70, 0x73, 0x3a, 0x2f, 0x2f]

  predicate HasPrefix(s: Bytes, p: Bytes) {
    |p| <= |s| && s[..|p|] == p
  }

  /** Every byte is a 7-bit ASCII character. */
  predicate IsAscii(s: Bytes) {
    forall i :: 0 <= i < |s| ==> s[i] < 128
  }

  /** No URL carries both scheme prefixes: "http://" has ':' where
      "https://" has 's'. */
  lemma HttpsIsNotHttp(s: Bytes)
    ensures HasPrefix(s, HTTP_PREFIX) ==> !HasPrefix(s, HTTPS_PREFIX)
  {
    if HasPrefix(s, HTTP_PREFIX) {
      assert s[4] == s[..|HTTP_PREFIX|][4] == 0x3a;
    }
  }

  /** The URLs accepted as valid: the scheme is "http://" or "https://",
      something follows it, and the whole URL is ASCII. */
  predicate ValidHttpUrl(s: Bytes) {
    && (HasPrefix(s, HTTP_PREFIX) || HasPrefix(s, HTTPS_PREFIX))
    && |s| > |HTTP_PREFIX| + (if HasPrefix(s, HTTPS_PREFIX) then 1 else 0)
    && IsAscii(s)
  }

  /** nm_sd_http_url_is_valid (with its private `_http_url_is_valid`): a
      NULL or empty URL is rejected; then the scheme prefix is stripped, an
      empty remainder is rejected, and the remainder is scanned for a byte of
      128 or more. */
  method HttpUrlIsValid(url: Option<Bytes>) returns (v: bool)
    ensures v <==> url.Some? && ValidHttpUrl(url.value)
  {
    if url.None? || |url.value| == 0 {
      return false;
    }
    var s := url.value;
    var start: nat;
    if HasPrefix(s, HTTP_PREFIX) {
      start := |HTTP_PREFIX|;
    } else if HasPrefix(s, HTTPS_PREFIX) {
      start := |HTTPS_PREFIX|;
    } else {
      return false;
    }
    HttpsIsNotHttp(s);
    if start == |s| {
      return false;
    }
    assert forall i :: 0 <= i < start ==> s[i] < 128 by {
      forall i | 0 <= i < start ensures s[i] < 128 {
        assert s[i] == s[..start][i];
      }
    }
    var i := start;
    while i < |s|
      invariant start <= i <= |s|
      invariant forall j :: 0 <= j < i ==> s[j] < 128
    {
      if s[i] >= 128 {
        return false;
      }
      i := i + 1;
    }
    return true;
  }

  /** G_MAXINT, the largest C `int`. */
  const G_MAXINT: int := 0x7fff_ffff

  /** The byte '='. */
  const PADDING: uint8 := 0x3d

  /** What systemd's `unbase64char` returns: the 6-bit value of a base64
      digit, or a negative error code. */
  predicate IsBase64Decoder(decode: uint8 -> int) {
    forall c :: decode(c) < 64
  }

  /** nm_sd_utils_unbase64char: '=' decodes to the sentinel G_MAXINT when
      padding is accepted; every other byte, and '=' otherwise, is passed to
      the systemd decoder `decode`. */
  function UnBase64Char(decode: uint8 -> int, ch: uint8, acceptPaddingEqual: bool): (r: int)
    ensures IsBase64Decoder(decode) ==> (r == G_MAXINT <==> ch == PADDING && acceptPaddingEqual)
    ensures IsBase64Decoder(decode) ==> r != G_MAXINT ==> r < 64
    ensures ch != PADDING || !acceptPaddingEqual ==> r == decode(ch)
  {
    if ch == PADDING && acceptPaddingEqual then G_MAXINT
    else decode(ch)
  }
}
