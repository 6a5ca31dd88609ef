/**
 * The command line: which mode the server starts in and, in normal mode,
 * the folder it serves and the port it listens on.
 */
module Arguments {
  import opened Wrappers
  import opened Numeric

  /** Folder of videos, posters and subtitles when none is given. */
  const DEFAULT_FOLDER: string := "."
  /** Port of the TCP server when none is given. */
  const DEFAULT_PORT: nat := 80

  const FOLDER: string := "--folder"
  const PORT: string := "--port"

  type U16 = n: nat | n <= U16_MAX

  /** `struct Config`. */
  datatype Config = Config(folder: string, port: U16)

  /** `enum Mode`: what the program does, decided from its arguments. */
  datatype Mode = Error(message: string) | Normal(config: Config) | Help | Version

  /** What the next argument is taken as: a flag, or the value of `--folder` or `--port`. */
  datatype State = Begin | AfterFolder | AfterPort

  predicate IsHelp(arg: string) {
    arg == "-h" || arg == "--help"
  }

  predicate IsVersion(arg: string) {
    arg == "-v" || arg == "--version"
  }

  function ExpectedPort(arg: string): string {
    "Expected a port number but got \"" + arg + "\"\n"
  }

  function ExpectedValidArgument(arg: string): string {
    "Expected a valid argument but got \"" + arg + "\"\n"
  }

  function ExpectedArgumentAfter(flag: string): string {
    "Expected an argument after \"" + flag + "\"\n"
  }

  /** The flag a state waits on a value for (`arg_copy`). */
  function PendingFlag(state: State): string
    requires state != Begin
  {
    if state == AfterFolder then FOLDER else PORT
  }

  /** What the end of the arguments yields in `state`, with the folder and port seen so far. */
  function Finish(state: State, folder: string, port: U16): (m: Mode)
    ensures m.Normal? <==> state == Begin
    ensures m.Normal? ==> m.config.folder != [] && m.config.port == port
  {
    if state != Begin then Error(ExpectedArgumentAfter(PendingFlag(state)))
    else Normal(Config(if folder == [] then DEFAULT_FOLDER else folder, port))
  }

  /**
   * The mode the remaining arguments `rest` lead to from `state`. Help and
   * version are answered at once in every state; an error ends the scan.
   */
  function Scan(rest: seq<string>, state: State, folder: string, port: U16): (m: Mode)
    ensures m.Normal? ==> m.config.folder != []
    ensures m.Error? ==> rest != [] || state != Begin
    ensures (forall i :: 0 <= i < |rest| ==> !IsHelp(rest[i])) ==> !m.Help?
    decreases |rest|
  {
    if rest == [] then Finish(state, folder, port)
    else
      var arg := rest[0];
      var m :=
        if IsHelp(arg) then Help
        else if IsVersion(arg) then Version
        else match state
        case Begin =>
            if arg == FOLDER then Scan(rest[1..], AfterFolder, folder, port)
            else if arg == PORT then Scan(rest[1..], AfterPort, folder, port)
            else Error(ExpectedValidArgument(arg))
          case AfterFolder => Scan(rest[1..], Begin, arg, port)
          case AfterPort =>
            match ParseUnsigned(arg, 10, U16_MAX)
            case None => Error(ExpectedPort(arg))
            case Some(p) => Scan(rest[1..], Begin, folder, p);
      assert forall i :: 0 <= i < |rest[1..]| ==> rest[1..][i] == rest[i + 1];
      m
  }

  /** `Mode::new`, over `std::env::args()`: the first argument (the program) is skipped. */
  function ModeOf(args: seq<string>): Mode {
    Scan(if args == [] then [] else args[1..], Begin, "", DEFAULT_PORT)
  }

  /** `Mode::new`: one pass over the arguments, returning early on help, version or an error. */
  method NewMode(args: seq<string>) returns (mode: Mode)
    ensures mode == ModeOf(args)
  {
    var state := Begin;
    var folder := "";
    var port: U16 := DEFAULT_PORT;
    var argCopy := "";
    var i := if args == [] then 0 else 1;
    while i < |args|
      invariant 0 <= i <= |args|
      invariant ModeOf(args) == Scan(args[i..], state, folder, port)
      invariant state != Begin ==> argCopy == PendingFlag(state)
      decreases |args| - i
    {
      var arg := args[i];
      assert args[i..][1..] == args[i + 1..];
      if IsHelp(arg) {
        return Help;
      } else if IsVersion(arg) {
        return Version;
      }
      match state {
        case Begin =>
          if arg == FOLDER {
            state := AfterFolder;
            argCopy := FOLDER;
          } else if arg == PORT {
            state := AfterPort;
            argCopy := PORT;
          } else {
            return Error(ExpectedValidArgument(arg));
          }
        case AfterFolder =>
          folder := arg;
          state := Begin;
        case AfterPort =>
          match ParseUnsigned(arg, 10, U16_MAX)
          case None =>
            return Error(ExpectedPort(arg));
          case Some(p) =>
            port := p;
            state := Begin;
      }
      i := i + 1;
    }
    if state != Begin {
      return Error(ExpectedArgumentAfter(argCopy));
    }
    if folder == [] {
      folder := DEFAULT_FOLDER;
    }
    return Normal(Config(folder, port));
  }

  /*
   * Well-formed command lines, as a sequence of settings, and what they
   * lead to.
   */

  /** One `--folder <value>` or `--port <number>` pair. */
  datatype Setting = SetFolder(folder: string) | SetPort(port: U16)

  /** The arguments that spell out `settings`, ports written in decimal. */
  function Render(settings: seq<Setting>): seq<string> {
    if settings == [] then []
    else
      match settings[0]
      case SetFolder(f) => [FOLDER, f] + Render(settings[1..])
      case SetPort(p) => [PORT, Decimal(p)] + Render(settings[1..])
  }

  /** A folder value that is not itself read as a request for help or the version. */
  predicate PlainFolders(settings: seq<Setting>) {
    forall i :: 0 <= i < |settings| && settings[i].SetFolder? ==>
      !IsHelp(settings[i].folder) && !IsVersion(settings[i].folder)
  }

  /** The folder the last `--folder` of `settings` sets, else `folder`. */
  function LastFolder(settings: seq<Setting>, folder: string): string {
    if settings == [] then folder
    else LastFolder(settings[1..], if settings[0].SetFolder? then settings[0].folder else folder)
  }

  /** The port the last `--port` of `settings` sets, else `port`. */
  function LastPort(settings: seq<Setting>, port: U16): U16 {
    if settings == [] then port
    else LastPort(settings[1..], if settings[0].SetPort? then settings[0].port else port)
  }

  /** A port written by `to_string` is not read as help or version, and parses back. */
  lemma PortArgument(p: U16)
    ensures !IsHelp(Decimal(p)) && !IsVersion(Decimal(p))
    ensures ParseUnsigned(Decimal(p), 10, U16_MAX) == Some(p)
  {
    DecimalRoundTrip(p, U16_MAX);
  }

  /** `--folder f` sets the folder and waits for a flag again. */
  lemma ScanFolderPair(f: string, rest: seq<string>, folder: string, port: U16)
    requires !IsHelp(f) && !IsVersion(f)
    ensures Scan([FOLDER, f] + rest, Begin, folder, port) == Scan(rest, Begin, f, port)
  {
    assert ([FOLDER, f] + rest)[1..] == [f] + rest;
    assert ([f] + rest)[1..] == rest;
  }

  /** `--port p`, with `p` written in decimal, sets the port and waits for a flag again. */
  lemma ScanPortPair(p: U16, rest: seq<string>, folder: string, port: U16)
    ensures Scan([PORT, Decimal(p)] + rest, Begin, folder, port) == Scan(rest, Begin, folder, p)
  {
    assert ([PORT, Decimal(p)] + rest)[1..] == [Decimal(p)] + rest;
    assert ([Decimal(p)] + rest)[1..] == rest;
    PortArgument(p);
  }

  lemma PlainFoldersTail(settings: seq<Setting>)
    requires settings != [] && PlainFolders(settings)
    ensures PlainFolders(settings[1..])
  {
    var more := settings[1..];
    forall i | 0 <= i < |more| && more[i].SetFolder?
      ensures !IsHelp(more[i].folder) && !IsVersion(more[i].folder)
    {
      assert more[i] == settings[i + 1];
    }
  }

  /** The arguments of the first setting come first, then those of the others. */
  lemma RenderFirst(settings: seq<Setting>, tail: seq<string>)
    requires settings != []
    ensures Render(settings) + tail ==
      (match settings[0]
       case SetFolder(f) => [FOLDER, f]
       case SetPort(p) => [PORT, Decimal(p)]) + (Render(settings[1..]) + tail)
  {
  }

  /** Scanning the spelled-out settings keeps the last folder and the last port, and ends ready for a flag. */
  lemma {:induction false} ScanSettings(settings: seq<Setting>, tail: seq<string>, folder: string, port: U16)
    requires PlainFolders(settings)
    ensures Scan(Render(settings) + tail, Begin, folder, port)
         == Scan(tail, Begin, LastFolder(settings, folder), LastPort(settings, port))
  {
    if settings != [] {
      var more := settings[1..];
      PlainFoldersTail(settings);
      RenderFirst(settings, tail);
      var rest := Render(more) + tail;
      match settings[0]
      case SetFolder(f) =>
        ScanFolderPair(f, rest, folder, port);
        ScanSettings(more, tail, f, port);
      case SetPort(p) =>
        ScanPortPair(p, rest, folder, port);
        ScanSettings(more, tail, folder, p);
    } else {
      assert Render(settings) + tail == tail;
    }
  }

  /**
   * A command line made of settings starts the server with the last folder
   * given (`.` when none is given or it is empty) and the last port given
   * (80 when none is).
   */
  lemma SettingsRoundTrip(program: string, settings: seq<Setting>)
    requires PlainFolders(settings)
    ensures var folder := LastFolder(settings, "");
      ModeOf([program] + Render(settings))
        == Normal(Config(if folder == [] then DEFAULT_FOLDER else folder, LastPort(settings, DEFAULT_PORT)))
  {
    assert ([program] + Render(settings))[1..] == Render(settings) + [];
    ScanSettings(settings, [], "", DEFAULT_PORT);
  }

  /** With no arguments besides the program the server serves `.` on port 80. */
  lemma NoArguments(program: string)
    ensures ModeOf([program]) == Normal(Config(DEFAULT_FOLDER, DEFAULT_PORT))
  {
    SettingsRoundTrip(program, []);
  }

  /**
   * `-h`/`--help` and `-v`/`--version` are answered as soon as they are
   * reached, in every state: also as the value right after `--folder` or
   * `--port`, and whatever follows.
   */
  lemma HelpOrVersionAnswered(program: string, settings: seq<Setting>, pending: seq<string>, arg: string, tail: seq<string>)
    requires PlainFolders(settings)
    requires pending == [] || pending == [FOLDER] || pending == [PORT]
    requires IsHelp(arg) || IsVersion(arg)
    ensures ModeOf([program] + Render(settings) + pending + [arg] + tail) == if IsHelp(arg) then Help else Version
  {
    var rest := pending + ([arg] + tail);
    assert ([program] + Render(settings) + pending + [arg] + tail)[1..] == Render(settings) + rest;
    ScanSettings(settings, rest, "", DEFAULT_PORT);
    if pending != [] {
      assert rest[1..] == [arg] + tail;
    }
  }

  /** A command line that ends right after `--folder` or `--port` is an error naming that flag. */
  lemma TrailingFlag(program: string, settings: seq<Setting>, flag: string)
    requires PlainFolders(settings)
    requires flag == FOLDER || flag == PORT
    ensures ModeOf([program] + Render(settings) + [flag]) == Error(ExpectedArgumentAfter(flag))
  {
    assert ([program] + Render(settings) + [flag])[1..] == Render(settings) + [flag];
    ScanSettings(settings, [flag], "", DEFAULT_PORT);
    assert [flag][1..] == [];
  }

  /** A value after `--port` that is not a u16 numeral is an error naming the value. */
  lemma BadPort(program: string, settings: seq<Setting>, value: string, tail: seq<string>)
    requires PlainFolders(settings)
    requires !IsHelp(value) && !IsVersion(value)
    requires ParseUnsigned(value, 10, U16_MAX).None?
    ensures ModeOf([program] + Render(settings) + [PORT, value] + tail) == Error(ExpectedPort(value))
  {
    var rest := [PORT, value] + tail;
    assert ([program] + Render(settings) + [PORT, value] + tail)[1..] == Render(settings) + rest;
    ScanSettings(settings, rest, "", DEFAULT_PORT);
    assert rest[1..] == [value] + tail;
  }

  /** Where a flag is expected, anything other than the four known words and the two flags is an error naming it. */
  lemma UnknownArgument(program: string, settings: seq<Setting>, arg: string, tail: seq<string>)
    requires PlainFolders(settings)
    requires !IsHelp(arg) && !IsVersion(arg) && arg != FOLDER && arg != PORT
    ensures ModeOf([program] + Render(settings) + [arg] + tail) == Error(ExpectedValidArgument(arg))
  {
    var rest := [arg] + tail;
    assert ([program] + Render(settings) + [arg] + tail)[1..] == Render(settings) + rest;
    ScanSettings(settings, rest, "", DEFAULT_PORT);
  }
}
