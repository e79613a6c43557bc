# TorMask decision core, modelled in Dafny

TorMask (`tormask.py`) is a root-run Python script. It installs Tor and its
helpers, makes sure `/etc/tor/torrc` opens the control port with cookie
authentication, and then asks Tor for a new identity every *interval* seconds.
It does this by piping `AUTHENTICATE <cookie hex>`, `SIGNAL NEWNYM` and `QUIT` into
`nc 127.0.0.1 9051`. After each request it looks up the new exit address and its
country and city, and appends one line to a change log.

This project models the deterministic decisions inside that script. The outside
world enters each one as a parameter:

- the readable files, as a map from path to bytes;
- how `nc` ends, as a function from the text sent to an exit code and stdout;
- the two HTTP answers, as optional JSON objects;
- the clock, as a string;
- what the user types, as a sequence of lines.

Modules (one file each):

- `Wrappers` (wrappers.dfy): `Option` and `Result`.
- `Text` (text.dfy): the Python built-ins the script relies on. These are
  `bytes.strip`, `str.strip`, `str.strip('"')`, ASCII `str.lower`,
  `str.split('=')` and substring `in`, plus "first element satisfying a test".
- `Hex` (hex.dfy): `bytes.hex()`, and a decoder as its inverse.
- `Cookie` (cookie.dfy): `get_auth_cookie`.
- `Control` (control.dfy): the control-port command text, a CR LF line splitter
  as its reading side, the `515` test and the `nc` exit-status decision.
- `Identity` (identity.dfy): the `IP` field of the address check and
  `get_ip_location`.
- `Changer` (changer.dfy): one `ipchanger` cycle. It has a specification
  function `Cycle` and a method `IpChanger` that follows the source step by step
  and appends to a `ChangeLog` object.
- `Setup` (setup.dfy): the os-release scan, the distribution table, the group
  commands and the torrc check and patch.
- `Interval` (interval.dfy): the interval prompt loop of `main`.

The script behaves as follows, and the model follows it:

- The cookie must be exactly 32 bytes after stripping. Any other length is skipped.
- A reply containing `515` is reported, but the cycle still goes on and logs a line.
  Only a non-zero exit of `nc` ends the cycle early.
- A failed address check is not a hard error. The address becomes "Unknown", and
  that "Unknown" is still sent to the geolocation service and logged.
- There is one geolocation provider, and it gives only country and city. The log
  has no header. Its lines have the form
  `<now> - New Tor IP: <ip> | Country: <country> | City: <city>`.
- An invalid or non-positive interval is asked for again, not replaced by 10. The
  `interval == 0` default that follows the loop can never fire.
- There is no scheduler with interactive commands or statistics. The script just
  loops `ipchanger(); sleep(interval)` until SIGINT.

## Model

| member | source | states |
|---|---|---|
| `Text.FirstIndex` | tormask.py:49-52 | the index returned satisfies the test and no earlier index does; `None` exactly when no element satisfies it |
| `Text.FirstIndexIsFirst` | tormask.py:49-52 | an index that satisfies the test with none before it is the one found: the scan stops at the first match |
| `Text.Strip` | tormask.py:139 | the result is a contiguous piece of the input with only removable elements outside it, and neither of its ends is removable (`StripOf`) |
| `Text.TrimsCompose` | tormask.py:139 | trimming the front and then the back leaves a piece of the input with only removable elements around it |
| `Text.StripOfUnique` | tormask.py:139 | `StripOf` determines its result: two pieces that both satisfy it are equal |
| `Text.StripIsStripOf` | tormask.py:139 | a sequence satisfies `StripOf` exactly when it is what `Strip` returns (both directions) |
| `Text.StripBytes` | tormask.py:139 | `bytes.strip()` removes exactly the surrounding ASCII whitespace |
| `Text.StripSpace` | tormask.py:51 | `str.strip()` removes exactly the surrounding `str.isspace` characters |
| `Text.StripQuotes` | tormask.py:51 | `strip('"')` removes exactly the surrounding double quotes, so neither end of the result is one |
| `Text.Lower` | tormask.py:51 | same length, no ASCII capital left, and every character is either kept or is a capital moved to its lower-case letter |
| `Text.Before` | tormask.py:51 | the text taken by `split("=")[1]` is a prefix of the rest of the line, holds no `=`, and stops exactly at the next `=` or at the end |
| `Text.Contains` | tormask.py:177 | Python's substring `in` holds exactly when the pattern occurs at some position |
| `Hex.HexEncode` | tormask.py:141 | `bytes.hex()` gives two characters per byte, each a lower-case hexadecimal digit |
| `Hex.HexDecode` | tormask.py:141 | a successful decoding has half as many bytes as the text has characters |
| `Hex.DecodeEncode` | tormask.py:140-141 | decoding the hex text gives back exactly the cookie bytes |
| `Hex.DecodedIsEncoding` | tormask.py:141 | any text that decodes is the encoding of its decoding |
| `Hex.HexDecodeIff` | tormask.py:141 | text decodes to given bytes if and only if it is their encoding (both directions) |
| `Cookie.FirstAccepted` | tormask.py:135-146 | a cookie found is 32 bytes long; there is none exactly when no path in the list is readable with 32 bytes after stripping |
| `Cookie.FirstAcceptedIsFirst` | tormask.py:135-141 | the first acceptable path decides: its stripped bytes are returned whatever the later paths hold |
| `Cookie.CookieBytes` | tormask.py:131-146 | the cookie is 32 bytes; the /var/run file is used when acceptable, otherwise the /var/lib file when acceptable, otherwise there is none |
| `Cookie.GetAuthCookie` | tormask.py:130-146 | the loop succeeds exactly when some candidate is acceptable; it then returns the 64-character hex of the first acceptable candidate's stripped bytes, which decodes back to them; otherwise CookieNotFound |
| `Control.AuthenticateCommand` | tormask.py:167 | for a cookie text without line breaks, the command reads back as exactly the three lines `AUTHENTICATE <hex>`, `SIGNAL NEWNYM`, `QUIT`, each ended by CR LF |
| `Control.CommandLines` | tormask.py:167 | the fixed command text reads back as the AUTHENTICATE line with the cookie, SIGNAL NEWNYM and QUIT |
| `Control.SplitThree` | tormask.py:167 | any three lines without line breaks, each followed by CR LF, read back as those three lines in order |
| `Control.SplitLinesHaveNoBreaks` | tormask.py:167 | no line read back from control-protocol text contains a CR or LF |
| `Control.SplitJoin` | tormask.py:167 | splitting CR LF-joined lines without line breaks gives back those lines |
| `Control.JoinSplit` | tormask.py:167 | joining the lines split from a text gives back the text |
| `Control.ReportsAuthFailure` | tormask.py:177-178 | the authentication error is reported exactly when `515` occurs anywhere in `nc`'s output |
| `Control.Interpret` | tormask.py:168-181 | the cycle stops exactly when `nc` exits non-zero; a failure to start `nc` escapes; otherwise it continues, flagged exactly when `515` occurs |
| `Control.AuthErrorDoesNotAbort` | tormask.py:176-181 | a `515` reply with exit status 0 continues with the error flagged, and the same reply with a non-zero status aborts |
| `Identity.LocationUrl` | tormask.py:149 | the geolocation URL is the ip-api endpoint followed by the address, which can be read back from it |
| `Identity.IdentityIp` | tormask.py:187-193 | the address is the body's `IP` member when there is one, and "Unknown" when the request failed or the member is absent |
| `Identity.GetIpLocation` | tormask.py:148-158 | a non-success answer gives ("Unknown", "Unknown"); on success each present field is copied; each field is "Unknown" or comes from a successful answer |
| `Changer.CommandFor` | tormask.py:162-167 | the command of a cycle reads back as AUTHENTICATE with the hex of the selected cookie, then SIGNAL NEWNYM, then QUIT |
| `Changer.Cycle` | tormask.py:160-208 | no cookie means nothing is sent; the cycle rotates and logs exactly when `nc` exits 0, and fails exactly when it exits non-zero; a rotated cycle carries the `515` flag, the looked-up address and its location, and the log line built from them |
| `Changer.SentCookieRoundTrip` | tormask.py:140-141 | whenever a command is sent, its first line is AUTHENTICATE followed by 64 hex digits that decode to exactly the selected cookie |
| `Changer.ChangeLog.Append` | tormask.py:205-208 | the log text becomes the old text followed by the line and a newline |
| `Changer.IpChanger` | tormask.py:160-208 | the step-by-step cycle ends as `Cycle` says, appends exactly one line when it rotated, and leaves the log untouched otherwise |
| `Setup.IdField` | tormask.py:51 | `split("=")[1]` on an `ID=` line is the text after `ID=` up to the next `=` or the end of the line, and holds no `=` |
| `Setup.IdValue` | tormask.py:51 | the distribution is the field with surrounding whitespace removed, then surrounding double quotes removed, then lowered |
| `Setup.IdValueShape` | tormask.py:51 | the parsed distribution holds no `=` and no ASCII capital, and neither starts nor ends with a double quote |
| `Setup.DistroId` | tormask.py:46-52 | with no `ID=` line the distribution is the empty string |
| `Setup.DistroIdFirstMatch` | tormask.py:49-52 | the first line starting with `ID=` decides the distribution |
| `Setup.LaterLinesIgnored` | tormask.py:49-52 | once an `ID=` line is present, appending more lines does not change the result |
| `Setup.DetectDistro` | tormask.py:46-55 | a missing os-release gives the `NoOsRelease` error (the source exits); otherwise the loop with `break` yields the first `ID=` line's value, or "" |
| `Setup.PlanFor` | tormask.py:59-81 | maps arch/manjaro/blackarch to pacman, debian/ubuntu/kali/parrot to apt, fedora to dnf and any `opensuse*` to zypper; everything else is unsupported; the group is `debian-tor` exactly for apt and `tor` otherwise; every command runs the manager; the commands are exactly `apt update` then the install for apt, and the install alone for the other managers, the install being the manager's install arguments followed by curl, tor, jq, xxd |
| `Setup.GroupCommands` | tormask.py:83-95 | `groupadd` is run exactly when `getent` failed; `usermod -aG` is run exactly when the group name does not occur as a substring of the `groups` output; no other group or user change is made; `groupadd` comes first |
| `Setup.NeedsUpdate` | tormask.py:107-113 | the flag is raised exactly when one of the three required settings is missing from torrc |
| `Setup.PatchTorrc` | tormask.py:115-122 | the old text is kept as a prefix; a configured file is left alone; otherwise exactly the fixed block is appended; the result is configured |
| `Setup.BlockConfigures` | tormask.py:118-122 | appending the fixed block makes any torrc contain all three settings |
| `Setup.PatchIdempotent` | tormask.py:107-122 | patching a patched torrc changes nothing, so a second setup run writes nothing |
| `Interval.ParseInt` | tormask.py:223 | an answer parses exactly when it is a non-empty digit string, or a minus sign followed by one; a negative value comes only from the minus sign |
| `Interval.LeadingZero` | tormask.py:223 | a leading zero does not change the value of a numeral |
| `Interval.DigitsOfValue` | tormask.py:223 | a numeral without leading zeros is the decimal numeral of its own value |
| `Interval.ParseNegative` | tormask.py:223 | a minus sign before a digit string negates its value |
| `Interval.ParseShow` | tormask.py:223 | every integer's decimal numeral parses back to that integer |
| `Interval.DefaultIfZero` | tormask.py:231-232 | the interval after the default is never zero and equals any non-zero input |
| `Interval.PromptInterval` | tormask.py:221-232 | the prompt ends on the first answer that parses to a positive integer, and uses that integer. Every earlier answer was unparsable or non-positive. Running out of input happens exactly when no answer is acceptable. The default of 10 leaves the chosen value unchanged |

## Left out

- Subprocess effects are not modelled. This covers package installation,
  `getent`, `groupadd`, `usermod`, `groups`, `systemctl restart tor` and the `nc`
  process itself. Only the commands' arguments and their exit codes or output
  appear, as values and parameters.
- HTTP is not modelled: `requests`, the SOCKS proxy, the timeouts and status
  checks. Each answer is an optional JSON object, and `None` stands for every
  exception the source catches.
- File I/O is not modelled. Files are reduced to their contents:
  - the cookie files and os-release are given as values;
  - torrc is a string;
  - the change log is a `ChangeLog` object holding its text.
  Not modelled are the log directory created at import time, and the exits taken
  when torrc cannot be read or written.
- `datetime.now()` becomes a string parameter. The coloured console output, the
  banner and the printed error messages are left out.
- The SIGINT handler and the endless `ipchanger(); time.sleep(interval)` loop are
  left out. They are timing and signal behaviour with no contract to state.
- The root check (`os.geteuid`) and the user lookup (`os.getlogin`, then `$USER`)
  are left out. The user name is a parameter of `Setup.GroupCommands`.
- Splitting os-release into lines is taken as given: `DetectDistro` receives the
  lines as Python's file iteration yields them.
- Text.Lower: lowers ASCII capitals only, where Python's `str.lower` is full Unicode;
  distribution identifiers are ASCII.
- Interval.ParseInt: accepts only an optional `-` followed by decimal digits.
  Python's `int()` also allows surrounding whitespace, a `+` sign, digit
  underscores and non-ASCII decimal digits (such as Arabic-Indic `٣`), so those
  answers are rejected here but accepted by the source.
- Identity.GetIpLocation: JSON members are modelled as strings. A non-string
  `country`, `city` or `IP` value, which the source would pass through unchanged,
  is outside the model.
- Changer.Cycle: the log append itself is assumed to succeed. An I/O error there
  would escape `ipchanger` in the source.
