/** `ipchanger`: one identity rotation. It reads the cookie, sends the control
    command through `nc`, asks for the exit address and its location, and appends
    one line to the change log. Everything outside the process (the files, `nc`,
    the two web services and the clock) enters as a parameter. */
module Changer {
  import opened Wrappers
  import opened Text
  import opened Hex
  import opened Cookie
  import opened Control
  import opened Identity

  /** How one cycle ended. */
  datatype CycleOutcome =
    | NoCookie                    // get_auth_cookie raised: reported, nothing sent
    | ControlFailed(sent: string) // nc exited non-zero: reported, cycle over
    | Escaped(sent: string)       // nc could not be started: the exception leaves the cycle
    | Rotated(sent: string, authError: bool, ip: string, location: Location, logLine: string)

  /** One line of the change log, without its newline. */
  function LogLine(now: string, ip: string, loc: Location): string {
    now + " - New Tor IP: " + ip + " | Country: " + loc.country + " | City: " + loc.city
  }

  /** The command a cycle sends when it has found a cookie. */
  function CommandFor(fs: FileSystem): (cmd: string)
    requires CookieBytes(fs).Some?
    ensures SplitCrlf(cmd) == Some([AuthenticatePrefix + HexEncode(CookieBytes(fs).value), SignalNewnym, Quit])
  {
    var hex := HexEncode(CookieBytes(fs).value);
    assert NoLineBreak(hex) by {
      forall k | 0 <= k < |hex| ensures !IsLineBreak(hex[k]) {
        assert IsHexDigit(hex[k]);
      }
    }
    AuthenticateCommand(hex)
  }

  /** What a cycle does, given what the outside world answers:
      `fs` the readable files, `nc` how `nc` ends for a given input, `identity` the
      body of the address check, `geo` the body returned for a URL, `now` the time. */
  function Cycle(fs: FileSystem, nc: string -> NcRun, identity: Option<JsonObject>,
                 geo: string -> Option<JsonObject>, now: string): (o: CycleOutcome)
    ensures o.NoCookie? <==> CookieBytes(fs).None?
    ensures !o.NoCookie? ==> o.sent == CommandFor(fs)
    ensures o.Rotated? <==> CookieBytes(fs).Some? && nc(CommandFor(fs)).Exited? && nc(CommandFor(fs)).code == 0
    ensures o.ControlFailed? <==> CookieBytes(fs).Some? && nc(CommandFor(fs)).Exited? && nc(CommandFor(fs)).code != 0
    ensures o.Rotated? ==> (o.authError <==> Contains(nc(o.sent).stdout, AuthFailureCode))
    ensures o.Rotated? ==> o.ip == IdentityIp(identity) && o.location == GetIpLocation(geo(LocationUrl(o.ip)))
    ensures o.Rotated? ==> o.logLine == LogLine(now, o.ip, o.location)
  {
    if CookieBytes(fs).None? then NoCookie
    else
      var command := CommandFor(fs);
      match Interpret(nc(command))
      case Raise => Escaped(command)
      case Abort => ControlFailed(command)
      case Continue(authError) =>
        var ip := IdentityIp(identity);
        var loc := GetIpLocation(geo(LocationUrl(ip)));
        Rotated(command, authError, ip, loc, LogLine(now, ip, loc))
  }

  /** The sent command carries the cookie losslessly: the daemon, decoding the
      AUTHENTICATE argument, gets exactly the 32 stripped bytes of the chosen file. */
  lemma SentCookieRoundTrip(fs: FileSystem, nc: string -> NcRun, identity: Option<JsonObject>,
                            geo: string -> Option<JsonObject>, now: string)
    requires !Cycle(fs, nc, identity, geo, now).NoCookie?
    ensures var lines := SplitCrlf(Cycle(fs, nc, identity, geo, now).sent).value;
            |lines| == 3 && "AUTHENTICATE " <= lines[0] &&
            HexDecode(lines[0][|"AUTHENTICATE "|..]) == CookieBytes(fs) &&
            |lines[0]| == |"AUTHENTICATE "| + 2 * CookieLength
  {
    var hex := HexEncode(CookieBytes(fs).value);
    DecodeEncode(CookieBytes(fs).value);
    assert ("AUTHENTICATE " + hex)[|"AUTHENTICATE "|..] == hex;
  }

  /** The append-only log file; its text is all this model needs of it. */
  class ChangeLog {
    var text: string

    constructor (initial: string)
      ensures text == initial
    {
      text := initial;
    }

    /** `log_file.write(line + "\n")` on a file opened for appending. */
    method Append(line: string)
      modifies this
      ensures text == old(text) + line + "\n"
    {
      text := text + line + "\n";
    }
  }

  /** The cycle as the source runs it, step by step, writing to `log` only when
      the rotation went through. */
  method IpChanger(fs: FileSystem, nc: string -> NcRun, identity: Option<JsonObject>,
                   geo: string -> Option<JsonObject>, now: string, log: ChangeLog)
    returns (o: CycleOutcome)
    modifies log
    ensures o == Cycle(fs, nc, identity, geo, now)
    ensures o.Rotated? ==> log.text == old(log.text) + o.logLine + "\n"
    ensures !o.Rotated? ==> log.text == old(log.text)
  {
    var cookie := GetAuthCookie(fs);
    if cookie.Err? {
      return NoCookie;
    }
    var command := AuthenticateCommand(cookie.value);
    assert command == CommandFor(fs);
    var run := nc(command);
    var authError := false;
    match Interpret(run) {
      case Raise => return Escaped(command);
      case Abort => return ControlFailed(command);
      case Continue(flag) => authError := flag;
    }
    var ip := IdentityIp(identity);
    var loc := GetIpLocation(geo(LocationUrl(ip)));
    var line := LogLine(now, ip, loc);
    log.Append(line);
    o := Rotated(command, authError, ip, loc, line);
  }
}
