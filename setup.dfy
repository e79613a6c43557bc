/** The decisions `setup` takes before the first rotation: which distribution this
    is, how to install the tools and which group may read the cookie, whether the
    user must be added to that group, and whether torrc needs the control-port
    block. The subprocesses and file writes themselves are not modelled; their
    inputs and outputs are. */
module Setup {
  import opened Wrappers
  import opened Text

  datatype SetupError = NoOsRelease | UnsupportedDistro(distro: string)

  // ---------------------------------------------------------------- os-release

  const IdPrefix := "ID="

  /** `line.startswith("ID=")`; a `VERSION_ID=` line therefore never matches. */
  predicate IsIdLine(line: string) {
    IdPrefix <= line
  }

  /** `line.split("=")[1]` on an `ID=` line: the text between the first and the
      second `=`, or to the end of the line when there is no second one. */
  function IdField(line: string): (f: string)
    requires IsIdLine(line)
    ensures |IdPrefix| + |f| <= |line| && line[|IdPrefix|..|IdPrefix| + |f|] == f
    ensures '=' !in f
    ensures |IdPrefix| + |f| < |line| ==> line[|IdPrefix| + |f|] == '='
  {
    Before(line[|IdPrefix|..], '=')
  }

  /** `line.split("=")[1].strip().strip('"').lower()` on an `ID=` line: the field
      with surrounding whitespace removed, then surrounding double quotes, then
      lowered. */
  function IdValue(line: string): (v: string)
    requires IsIdLine(line)
    ensures exists spaced: string, unquoted: string ::
      StripOf(IdField(line), spaced, IsSpaceChar) && StripOf(spaced, unquoted, IsQuote) && v == Lower(unquoted)
  {
    var spaced := StripSpace(IdField(line));
    var unquoted := StripQuotes(spaced);
    Lower(unquoted)
  }

  /** A value with no `=`, no ASCII capital, and no double quote at either end. */
  predicate PlainValue(v: string) {
    && (forall k :: 0 <= k < |v| ==> v[k] != '=' && !('A' <= v[k] <= 'Z'))
    && (v == [] || (v[0] != '"' && v[|v| - 1] != '"'))
  }

  /** The distribution read from an `ID=` line is a plain value. */
  lemma IdValueShape(line: string)
    requires IsIdLine(line)
    ensures PlainValue(IdValue(line))
  {
    var field := IdField(line);
    var spaced := StripSpace(field);
    var unquoted := StripQuotes(spaced);
    StripOfKeepsOut(field, spaced, IsSpaceChar, '=');
    StripOfKeepsOut(spaced, unquoted, IsQuote, '=');
    QuotesGone(spaced, unquoted);
    LowerShape(unquoted);
    assert IdValue(line) == Lower(unquoted);
  }

  /** Lowering keeps the absence of `=` and of quotes at the ends, and leaves no
      ASCII capital. */
  lemma LowerShape(u: string)
    requires '=' !in u
    requires u == [] || (u[0] != '"' && u[|u| - 1] != '"')
    ensures PlainValue(Lower(u))
  {
    LowerKeeps(u, '=');
    LowerKeeps(u, '"');
  }

  /** The distribution named by the first `ID=` line of os-release, or "" when
      there is none. */
  function DistroId(lines: seq<string>): (d: string)
    ensures (forall k :: 0 <= k < |lines| ==> !IsIdLine(lines[k])) ==> d == ""
  {
    match FirstIndex(lines, IsIdLine)
    case None => ""
    case Some(i) => IdValue(lines[i])
  }

  predicate FirstIdLine(lines: seq<string>, i: nat)
    requires i < |lines|
  {
    IsIdLine(lines[i]) && forall j :: 0 <= j < i ==> !IsIdLine(lines[j])
  }

  /** The first `ID=` line decides, whatever follows it. */
  lemma DistroIdFirstMatch(lines: seq<string>, i: nat)
    requires i < |lines| && FirstIdLine(lines, i)
    ensures DistroId(lines) == IdValue(lines[i])
  {
    FirstIndexIsFirst(lines, IsIdLine, i);
  }

  /** Lines after the first `ID=` line do not change the answer. */
  lemma LaterLinesIgnored(lines: seq<string>, more: seq<string>)
    requires exists k :: 0 <= k < |lines| && IsIdLine(lines[k])
    ensures DistroId(lines + more) == DistroId(lines)
  {
    var i := FirstIndex(lines, IsIdLine).value;
    assert FirstIdLine(lines, i);
    assert (lines + more)[i] == lines[i];
    assert FirstIdLine(lines + more, i);
    DistroIdFirstMatch(lines + more, i);
  }

  /** The os-release scan: `NoOsRelease` when the file is missing (the source exits with
      "Unsupported Linux distribution"), otherwise the distribution it names. */
  method DetectDistro(osRelease: Option<seq<string>>) returns (r: Result<string, SetupError>)
    ensures r.Err? <==> osRelease.None?
    ensures r.Err? ==> r.error == NoOsRelease
    ensures r.Ok? ==> r.value == DistroId(osRelease.value)
  {
    if osRelease.None? {
      return Err(NoOsRelease);
    }
    var lines := osRelease.value;
    var distro := "";
    var i := 0;
    while i < |lines|
      invariant 0 <= i <= |lines|
      invariant forall j :: 0 <= j < i ==> !IsIdLine(lines[j])
    {
      if IsIdLine(lines[i]) {
        DistroIdFirstMatch(lines, i);
        distro := IdValue(lines[i]);
        break;
      }
      i := i + 1;
    }
    return Ok(distro);
  }

  // ---------------------------------------------------------------- distro table

  datatype PackageManager = Pacman | Apt | Dnf | Zypper

  /** The tools every install command asks for, in this order. */
  const Packages: seq<string> := ["curl", "tor", "jq", "xxd"]

  const ArchFamily: seq<string> := ["arch", "manjaro", "blackarch"]
  const DebianFamily: seq<string> := ["debian", "ubuntu", "kali", "parrot"]

  /** A plan for one supported distribution: the package manager, the group that
      may read Tor's cookie, and the commands run in order. */
  datatype InstallPlan = InstallPlan(manager: PackageManager, torGroup: string, commands: seq<seq<string>>)

  function Program(m: PackageManager): string {
    match m
    case Pacman => "pacman"
    case Apt => "apt"
    case Dnf => "dnf"
    case Zypper => "zypper"
  }

  /** The manager's own arguments for "install these packages without asking". */
  function InstallArgs(m: PackageManager): seq<string> {
    match m
    case Pacman => ["pacman", "-S", "--needed", "--noconfirm"]
    case Apt => ["apt", "install", "-y"]
    case Dnf => ["dnf", "install", "-y"]
    case Zypper => ["zypper", "install", "-y"]
  }

  /** The if/elif chain of `setup`, tried in the source's order. */
  function PlanFor(distro: string): (r: Result<InstallPlan, SetupError>)
    ensures r.Err? ==> r.error == UnsupportedDistro(distro)
    ensures distro in ArchFamily ==> r.Ok? && r.value.manager == Pacman
    ensures distro in DebianFamily ==> r.Ok? && r.value.manager == Apt
    ensures distro == "fedora" ==> r.Ok? && r.value.manager == Dnf
    ensures "opensuse" <= distro ==> r.Ok? && r.value.manager == Zypper
    ensures r.Ok? ==> distro in ArchFamily || distro in DebianFamily || distro == "fedora" || "opensuse" <= distro
    ensures r.Ok? ==> (r.value.torGroup == "debian-tor" <==> r.value.manager == Apt)
    ensures r.Ok? ==> r.value.torGroup == "debian-tor" || r.value.torGroup == "tor"
    ensures r.Ok? ==> |r.value.commands| > 0 && r.value.commands[|r.value.commands| - 1] == InstallArgs(r.value.manager) + Packages
    ensures r.Ok? ==> r.value.commands == (if r.value.manager == Apt then [["apt", "update"]] else []) +
                                          [InstallArgs(r.value.manager) + Packages]
    ensures r.Ok? ==> forall k :: 0 <= k < |r.value.commands| ==>
              |r.value.commands[k]| > 0 && r.value.commands[k][0] == Program(r.value.manager)
  {
    assert "opensuse" <= distro ==> distro !in ArchFamily && distro !in DebianFamily && distro != "fedora" by {
      if "opensuse" <= distro { assert distro[0] == 'o'; }
    }
    if distro in ArchFamily then
      Ok(InstallPlan(Pacman, "tor", [InstallArgs(Pacman) + Packages]))
    else if distro in DebianFamily then
      Ok(InstallPlan(Apt, "debian-tor", [["apt", "update"], InstallArgs(Apt) + Packages]))
    else if distro == "fedora" then
      Ok(InstallPlan(Dnf, "tor", [InstallArgs(Dnf) + Packages]))
    else if "opensuse" <= distro then
      Ok(InstallPlan(Zypper, "tor", [InstallArgs(Zypper) + Packages]))
    else
      Err(UnsupportedDistro(distro))
  }

  // ---------------------------------------------------------------- tor group

  /** The commands run to let `user` read the cookie: `groupadd` when `getent group`
      failed, and `usermod -aG` when the group's name is not a substring of what
      `groups user` printed. */
  function GroupCommands(group: string, getentExit: int, groupsOutput: string, user: string)
    : (cmds: seq<seq<string>>)
    ensures ["groupadd", group] in cmds <==> getentExit != 0
    ensures ["usermod", "-aG", group, user] in cmds <==> !exists i: nat :: OccursAt(groupsOutput, group, i)
    ensures |cmds| == (if getentExit != 0 then 1 else 0) +
                      (if exists i: nat :: OccursAt(groupsOutput, group, i) then 0 else 1)
    ensures |cmds| == 2 ==> cmds[0] == ["groupadd", group]
  {
    (if getentExit != 0 then [["groupadd", group]] else []) +
    (if !Contains(groupsOutput, group) then [["usermod", "-aG", group, user]] else [])
  }

  // ---------------------------------------------------------------- torrc

  /** The settings the control-port exchange depends on. */
  const ControlPortSetting := "ControlPort 9051"
  const CookieAuthSetting := "CookieAuthentication 1"
  const GroupReadableSetting := "CookieAuthFileGroupReadable 1"
  const RequiredSettings: seq<string> := [ControlPortSetting, CookieAuthSetting, GroupReadableSetting]

  const BlockComment := "\n# Added by TorMasker automation script\n"

  /** The text appended to torrc when a setting is missing. */
  const TorrcBlock := BlockComment + ControlPortSetting + "\n" + CookieAuthSetting + "\n" + GroupReadableSetting + "\n"

  /** Every required setting appears somewhere in the file, as a substring. */
  predicate Configured(content: string) {
    forall k :: 0 <= k < |RequiredSettings| ==> Contains(content, RequiredSettings[k])
  }

  /** The `needs_update` flag, raised by each of the three checks in turn. */
  method NeedsUpdate(content: string) returns (needs: bool)
    ensures needs <==> !Configured(content)
  {
    needs := false;
    if !Contains(content, ControlPortSetting) {
      needs := true;
    }
    if !Contains(content, CookieAuthSetting) {
      needs := true;
    }
    if !Contains(content, GroupReadableSetting) {
      needs := true;
    }
    assert RequiredSettings[0] == ControlPortSetting;
    assert RequiredSettings[1] == CookieAuthSetting;
    assert RequiredSettings[2] == GroupReadableSetting;
  }

  /** The file after setup: unchanged when configured, otherwise with the block appended. */
  function PatchTorrc(content: string): (r: string)
    ensures content <= r
    ensures Configured(r)
    ensures Configured(content) ==> r == content
    ensures !Configured(content) ==> r[|content|..] == TorrcBlock
  {
    if Configured(content) then content
    else
      BlockConfigures(content);
      content + TorrcBlock
  }

  /** Appending the block makes any file configured. */
  lemma BlockConfigures(content: string)
    ensures Configured(content + TorrcBlock)
  {
    var at := BlockPositions(content);
    assert OccursAt(content + TorrcBlock, RequiredSettings[0], at[0]);
    assert OccursAt(content + TorrcBlock, RequiredSettings[1], at[1]);
    assert OccursAt(content + TorrcBlock, RequiredSettings[2], at[2]);
  }

  /** Where each required setting starts once the block is appended. */
  lemma BlockPositions(content: string) returns (at: seq<nat>)
    ensures |at| == |RequiredSettings|
    ensures forall k :: 0 <= k < |at| ==> OccursAt(content + TorrcBlock, RequiredSettings[k], at[k])
  {
    var p0 := |BlockComment|;
    var p1 := p0 + |ControlPortSetting| + 1;
    var p2 := p1 + |CookieAuthSetting| + 1;
    assert TorrcBlock[p0..p0 + |ControlPortSetting|] == ControlPortSetting;
    assert TorrcBlock[p1..p1 + |CookieAuthSetting|] == CookieAuthSetting;
    assert TorrcBlock[p2..p2 + |GroupReadableSetting|] == GroupReadableSetting;
    OccursAfter(content, TorrcBlock, ControlPortSetting, p0);
    OccursAfter(content, TorrcBlock, CookieAuthSetting, p1);
    OccursAfter(content, TorrcBlock, GroupReadableSetting, p2);
    at := [|content| + p0, |content| + p1, |content| + p2];
  }

  /** Running setup a second time changes nothing: the patch is idempotent. */
  lemma PatchIdempotent(content: string)
    ensures PatchTorrc(PatchTorrc(content)) == PatchTorrc(content)
  {
  }
}
