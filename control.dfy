/** The Tor control-port exchange inside `ipchanger`: the command text handed to
    `nc 127.0.0.1 9051` and what the program concludes from how `nc` ends. The
    commands are AUTHENTICATE (section 3.5 of the Tor control-spec), SIGNAL NEWNYM
    (section 3.7) and QUIT, each ended by CR LF. */
module Control {
  import opened Wrappers
  import opened Text

  const CRLF := "\r\n"

  /** The reply code the source looks for: 515 is "Bad authentication". */
  const AuthFailureCode := "515"

  predicate IsLineBreak(c: char) {
    c == '\r' || c == '\n'
  }

  predicate NoLineBreak(s: string) {
    forall k :: 0 <= k < |s| ==> !IsLineBreak(s[k])
  }

  const AuthenticatePrefix := "AUTHENTICATE "
  const SignalNewnym := "SIGNAL NEWNYM"
  const Quit := "QUIT"

  /** The text of the AUTHENTICATE, SIGNAL NEWNYM, QUIT sequence for a hex cookie. */
  function AuthenticateCommand(cookieHex: string): (cmd: string)
    ensures NoLineBreak(cookieHex) ==>
      SplitCrlf(cmd) == Some([AuthenticatePrefix + cookieHex, SignalNewnym, Quit])
  {
    var cmd := AuthenticatePrefix + cookieHex + CRLF + SignalNewnym + CRLF + Quit + CRLF;
    if NoLineBreak(cookieHex) then
      CommandLines(cookieHex);
      cmd
    else
      cmd
  }

  /** The command is the three lines joined, each without a line break of its own. */
  lemma CommandLines(cookieHex: string)
    requires NoLineBreak(cookieHex)
    ensures SplitCrlf(AuthenticatePrefix + cookieHex + CRLF + SignalNewnym + CRLF + Quit + CRLF)
            == Some([AuthenticatePrefix + cookieHex, SignalNewnym, Quit])
  {
    FixedTextsClean();
    NoLineBreakConcat(AuthenticatePrefix, cookieHex);
    SplitThree(AuthenticatePrefix + cookieHex, SignalNewnym, Quit);
  }

  lemma FixedTextsClean()
    ensures NoLineBreak(AuthenticatePrefix) && NoLineBreak(SignalNewnym) && NoLineBreak(Quit)
  {
  }

  /** Three clean lines, each followed by CR LF, read back as those three lines. */
  lemma SplitThree(a: string, b: string, c: string)
    requires NoLineBreak(a) && NoLineBreak(b) && NoLineBreak(c)
    ensures SplitCrlf(a + CRLF + b + CRLF + c + CRLF) == Some([a, b, c])
  {
    var lines := [a, b, c];
    assert lines[1..] == [b, c] && lines[1..][1..] == [c] && lines[1..][1..][1..] == [];
    assert JoinCrlf([c]) == c + CRLF;
    assert JoinCrlf([b, c]) == b + CRLF + (c + CRLF);
    assert JoinCrlf(lines) == a + CRLF + b + CRLF + c + CRLF;
    SplitJoin(lines);
  }

  lemma NoLineBreakConcat(a: string, b: string)
    requires NoLineBreak(a) && NoLineBreak(b)
    ensures NoLineBreak(a + b)
  {
    forall k | 0 <= k < |a + b| ensures !IsLineBreak((a + b)[k]) {
      if k >= |a| {
        assert (a + b)[k] == b[k - |a|];
      }
    }
  }

  /** Text with a CR LF at `i` is the text before it, the CR LF and the text after. */
  lemma CrlfAt(s: string, i: nat)
    requires i + 1 < |s| && s[i] == '\r' && s[i + 1] == '\n'
    ensures s == s[..i] + CRLF + s[i + 2..]
  {
  }

  /** Lines each followed by CR LF, concatenated: how a control-protocol client
      writes a sequence of commands. */
  function JoinCrlf(lines: seq<string>): string {
    if lines == [] then [] else lines[0] + CRLF + JoinCrlf(lines[1..])
  }

  /** The reading side of the control protocol: splits text into CR LF-terminated
      lines, and fails on unterminated text or a bare CR or LF. */
  function SplitCrlf(s: string): Option<seq<string>>
    decreases |s|
  {
    if s == [] then Some([])
    else match FirstIndex(s, IsLineBreak)
      case None => None
      case Some(i) =>
        if i + 1 < |s| && s[i] == '\r' && s[i + 1] == '\n' then
          match SplitCrlf(s[i + 2..])
          case None => None
          case Some(rest) => Some([s[..i]] + rest)
        else None
  }

  /** Splitting what was joined gives back the lines, provided no line contains a
      line break of its own. */
  lemma {:induction false} SplitJoin(lines: seq<string>)
    requires forall k :: 0 <= k < |lines| ==> NoLineBreak(lines[k])
    ensures SplitCrlf(JoinCrlf(lines)) == Some(lines)
  {
    if lines != [] {
      var s := JoinCrlf(lines);
      var l := lines[0];
      var tail := JoinCrlf(lines[1..]);
      assert s == l + CRLF + tail;
      FirstLineBreak(l, tail);
      assert s[..|l|] == l;
      assert s[|l| + 2..] == tail;
      SplitJoin(lines[1..]);
      assert [l] + lines[1..] == lines;
    }
  }

  /** In a line followed by CR LF, the first line break is the CR. */
  lemma FirstLineBreak(l: string, tail: string)
    requires NoLineBreak(l)
    ensures FirstIndex(l + CRLF + tail, IsLineBreak) == Some(|l|)
  {
    var s := l + CRLF + tail;
    assert IsLineBreak(s[|l|]);
    assert forall j :: 0 <= j < |l| ==> s[j] == l[j];
  }

  /** One step of SplitCrlf on non-empty text: the first line ends at the first
      line break, which is a CR followed by LF. */
  lemma SplitCrlfStep(s: string)
    requires s != [] && SplitCrlf(s).Some?
    ensures FirstIndex(s, IsLineBreak).Some?
    ensures var i := FirstIndex(s, IsLineBreak).value;
      && i + 1 < |s| && s[i] == '\r' && s[i + 1] == '\n'
      && SplitCrlf(s[i + 2..]).Some?
      && SplitCrlf(s).value == [s[..i]] + SplitCrlf(s[i + 2..]).value
  {
  }

  /** And joining what was split gives back the text. */
  lemma {:induction false} JoinSplit(s: string)
    requires SplitCrlf(s).Some?
    ensures JoinCrlf(SplitCrlf(s).value) == s
    decreases |s|
  {
    if s != [] {
      SplitCrlfStep(s);
      var i := FirstIndex(s, IsLineBreak).value;
      var rest := s[i + 2..];
      var lines := SplitCrlf(s).value;
      JoinSplit(rest);
      assert lines[0] == s[..i] && lines[1..] == SplitCrlf(rest).value;
      CrlfAt(s, i);
    }
  }

  /** The lines read back never contain a CR or LF of their own. */
  lemma {:induction false} SplitLinesHaveNoBreaks(s: string)
    requires SplitCrlf(s).Some?
    ensures forall k :: 0 <= k < |SplitCrlf(s).value| ==> NoLineBreak(SplitCrlf(s).value[k])
    decreases |s|
  {
    if s != [] {
      SplitCrlfStep(s);
      var i := FirstIndex(s, IsLineBreak).value;
      SplitLinesHaveNoBreaks(s[i + 2..]);
      assert NoLineBreak(s[..i]);
    }
  }

  /** The `"515" in output` test: the reply mentions the bad-authentication code
      anywhere, not only at the start of a line. */
  function ReportsAuthFailure(output: string): (bad: bool)
    ensures bad <==> exists i: nat :: OccursAt(output, AuthFailureCode, i)
  {
    Contains(output, AuthFailureCode)
  }

  /** How the `nc` subprocess ended. `subprocess.run(..., check=True)` raises
      CalledProcessError for a non-zero exit; a failure to start `nc` at all raises
      an OSError, which the source does not catch. */
  datatype NcRun = Exited(code: int, stdout: string) | LaunchFailed

  /** What the cycle does next after the control-port exchange. */
  datatype ControlVerdict =
    | Continue(authError: bool)  // nc exited 0; authError says a 515 was seen and reported
    | Abort                      // CalledProcessError: reported, and the cycle returns
    | Raise                      // the exception escapes the cycle

  function Interpret(run: NcRun): (v: ControlVerdict)
    ensures v == Abort <==> run.Exited? && run.code != 0
    ensures v == Raise <==> run.LaunchFailed?
    ensures v.Continue? ==> (v.authError <==> exists i: nat :: OccursAt(run.stdout, AuthFailureCode, i))
  {
    match run
    case LaunchFailed => Raise
    case Exited(code, out) =>
      if code != 0 then Abort else Continue(ReportsAuthFailure(out))
  }

  /** A 515 reply is reported but does not end the cycle: only the exit status does. */
  lemma AuthErrorDoesNotAbort(out: string)
    requires Contains(out, AuthFailureCode)
    ensures Interpret(Exited(0, out)) == Continue(true)
    ensures Interpret(Exited(1, out)) == Abort
  {
  }
}
