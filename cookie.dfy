/** `get_auth_cookie`: picks the Tor control-port cookie file and returns its
    contents hex-encoded for the AUTHENTICATE command. */
module Cookie {
  import opened Wrappers
  import opened Text
  import opened Hex

  /** What the program can read: a path maps to the bytes of the file there when
      the file exists and can be read. A missing file and a file whose read raises
      are both absent, because the source skips both the same way. */
  type FileSystem = map<string, seq<byte>>

  const RunPath := "/var/run/tor/control.authcookie"
  const LibPath := "/var/lib/tor/control.authcookie"

  /** The candidates, in the order they are tried. */
  const CookiePaths: seq<string> := [RunPath, LibPath]

  /** The only cookie length the source accepts. */
  const CookieLength := 32

  datatype CookieError = CookieNotFound

  /** The bytes of the file at `path` with surrounding ASCII whitespace removed. */
  function Stripped(fs: FileSystem, path: string): seq<byte>
    requires path in fs
  {
    StripBytes(fs[path])
  }

  /** A candidate is accepted when it can be read and exactly 32 bytes remain after stripping. */
  predicate Accepted(fs: FileSystem, path: string) {
    path in fs && |Stripped(fs, path)| == CookieLength
  }

  /** The stripped contents of the first accepted path of `paths`. */
  function FirstAccepted(fs: FileSystem, paths: seq<string>): (r: Option<seq<byte>>)
    ensures r.Some? ==> |r.value| == CookieLength
    ensures r.None? <==> forall k :: 0 <= k < |paths| ==> !Accepted(fs, paths[k])
  {
    if paths == [] then None
    else if Accepted(fs, paths[0]) then Some(Stripped(fs, paths[0]))
    else
      assert forall k :: 1 <= k < |paths| ==> paths[k] == paths[1..][k - 1];
      FirstAccepted(fs, paths[1..])
  }

  /** The first accepted path decides, whatever comes after it. */
  lemma {:induction false} FirstAcceptedIsFirst(fs: FileSystem, paths: seq<string>, i: nat)
    requires i < |paths| && Accepted(fs, paths[i])
    requires forall j :: 0 <= j < i ==> !Accepted(fs, paths[j])
    ensures FirstAccepted(fs, paths) == Some(Stripped(fs, paths[i]))
  {
    if i > 0 {
      assert !Accepted(fs, paths[0]);
      assert paths[1..][i - 1] == paths[i];
      forall j | 0 <= j < i - 1 ensures !Accepted(fs, paths[1..][j]) {
        assert paths[1..][j] == paths[j + 1];
      }
      FirstAcceptedIsFirst(fs, paths[1..], i - 1);
    }
  }

  /** The cookie the source settles on: the stripped contents of the first accepted
      candidate, trying the /var/run path before the /var/lib path. */
  function CookieBytes(fs: FileSystem): (r: Option<seq<byte>>)
    ensures r.Some? ==> |r.value| == CookieLength
    ensures Accepted(fs, RunPath) ==> r == Some(Stripped(fs, RunPath))
    ensures !Accepted(fs, RunPath) && Accepted(fs, LibPath) ==> r == Some(Stripped(fs, LibPath))
    ensures !Accepted(fs, RunPath) && !Accepted(fs, LibPath) ==> r == None
  {
    assert CookiePaths[0] == RunPath && CookiePaths[1] == LibPath;
    if Accepted(fs, RunPath) then
      FirstAcceptedIsFirst(fs, CookiePaths, 0);
      FirstAccepted(fs, CookiePaths)
    else if Accepted(fs, LibPath) then
      FirstAcceptedIsFirst(fs, CookiePaths, 1);
      FirstAccepted(fs, CookiePaths)
    else
      FirstAccepted(fs, CookiePaths)
  }

  /** The loop of `get_auth_cookie`: candidates are tried in order, the first
      accepted one is returned hex-encoded, and a run that accepts none ends in
      FileNotFoundError. */
  method GetAuthCookie(fs: FileSystem) returns (r: Result<string, CookieError>)
    ensures r.Ok? <==> CookieBytes(fs).Some?
    ensures r.Ok? ==> r.value == HexEncode(CookieBytes(fs).value)
    ensures r.Ok? ==> |r.value| == 2 * CookieLength && HexDecode(r.value) == CookieBytes(fs)
  {
    var i := 0;
    while i < |CookiePaths|
      invariant 0 <= i <= |CookiePaths|
      invariant forall j :: 0 <= j < i ==> !Accepted(fs, CookiePaths[j])
    {
      var path := CookiePaths[i];
      if path in fs {
        var raw := StripBytes(fs[path]);
        if |raw| == CookieLength {
          FirstAcceptedIsFirst(fs, CookiePaths, i);
          DecodeEncode(raw);
          return Ok(HexEncode(raw));
        }
      }
      i := i + 1;
    }
    return Err(CookieNotFound);
  }
}
