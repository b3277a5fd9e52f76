/**
  The `Server` object of libtmux: its connection attributes, the `cmd` wrapper that runs
  tmux, the listings of sessions, windows and panes, and the session commands.

  Running tmux is modelled by an oracle `respond`, which maps the commands run so far and
  the new argument vector to tmux's reply; the field `issued` records every command run,
  in order. The version probe `has_gte_version` and the name check `session_check_name`
  are supplied as functions.
*/
module TmuxServer {
  import opened Wrappers
  import opened Text
  import opened Formats
  import opened Records
  import opened Commands

  /** `FORMAT_SEPARATOR` and the field lists of the three tiers. */
  datatype FormatConfig = FormatConfig(
    separator: Separator,
    session: seq<string>,
    window: seq<string>,
    pane: seq<string>)

  /** A Python list of records owned by the server and mutated in place (`_windows`, `_panes`). */
  class RecordList {
    var items: seq<Record>

    constructor ()
      ensures items == []
    {
      items := [];
    }

    /** Empties the list in place: the same list object, now empty. */
    method Clear()
      modifies this
      ensures items == []
    {
      items := [];
    }

    /** Appends `xs` to the list in place. */
    method Extend(xs: seq<Record>)
      modifies this
      ensures items == old(items) + xs
    {
      items := items + xs;
    }

    /** Empties a non-empty list in place, then appends `xs`: the same list object now holds `xs`. */
    method Replace(xs: seq<Record>)
      modifies this
      ensures items == xs
    {
      if |items| > 0 {
        Clear();
      }
      Extend(xs);
    }
  }

  class Server {
    const conn: Connection
    const formats: FormatConfig
    const hasGteVersion: string -> bool
    const sessionCheckName: Option<string> -> bool
    const respond: (seq<seq<string>>, seq<string>) -> Response
    const windows: RecordList
    const panes: RecordList

    /** Every argument vector handed to tmux so far, oldest first. */
    var issued: seq<seq<string>>

    /** `_windows` and `_panes` are two distinct list objects. */
    ghost predicate Valid()
    {
      windows != panes
    }

    /**
      A server keeps only the truthy connection attributes it is given; the others stay
      at their class default `None`. Both record lists start empty.
    */
    constructor (socketName: Option<string>, socketPath: Option<string>,
                 configFile: Option<string>, colors: Option<int>, formats: FormatConfig,
                 hasGteVersion: string -> bool, sessionCheckName: Option<string> -> bool,
                 respond: (seq<seq<string>>, seq<string>) -> Response)
      ensures conn == Connection(IfTruthy(socketName), IfTruthy(socketPath), IfTruthy(configFile),
                                 if ColoursSet(colors) then colors else None)
      ensures this.formats == formats && this.hasGteVersion == hasGteVersion
      ensures this.sessionCheckName == sessionCheckName && this.respond == respond
      ensures Valid() && fresh(windows) && fresh(panes)
      ensures windows.items == [] && panes.items == [] && issued == []
    {
      var w := new RecordList();
      var p := new RecordList();
      var sn, sp, cf, co := None, None, None, None;
      if Truthy(socketName) { sn := socketName; }
      if Truthy(socketPath) { sp := socketPath; }
      if Truthy(configFile) { cf := configFile; }
      if ColoursSet(colors) { co := colors; }
      conn := Connection(sn, sp, cf, co);
      this.formats := formats;
      this.hasGteVersion := hasGteVersion;
      this.sessionCheckName := sessionCheckName;
      this.respond := respond;
      windows := w;
      panes := p;
      issued := [];
    }

    /** The reply `cmd(args)` gets in the current state, or the error it raises first. */
    function Invoke(args: seq<string>): Result<Response, Error>
      reads this
    {
      match CommandLine(conn, args)
      case Failure(e) => Failure(e)
      case Success(argv) => Success(respond(issued, argv))
    }

    /** The command log after `cmd(args)`: one more entry, unless the colour check raised. */
    function Logged(args: seq<string>): seq<seq<string>>
      reads this
    {
      match CommandLine(conn, args)
      case Failure(_) => issued
      case Success(argv) => issued + [argv]
    }

    /** The argument vector `cmd(args)` runs, on a connection whose colour depth is usable. */
    function Argv(args: seq<string>): seq<string>
      requires !ColoursInvalid(conn.colors)
    {
      CommandLine(conn, args).value
    }

    /**
      `cmd`: the caller's arguments behind the global flags, inserted at the front one by
      one; an unusable colour depth raises before tmux is run.
    */
    method Cmd(args: seq<string>) returns (r: Result<Response, Error>)
      modifies this`issued
      ensures r == old(Invoke(args))
      ensures issued == old(Logged(args))
    {
      var cmdArgs := args;
      if Truthy(conn.socketName) {
        cmdArgs := ["-L" + conn.socketName.value] + cmdArgs;
      }
      if Truthy(conn.socketPath) {
        cmdArgs := ["-S" + conn.socketPath.value] + cmdArgs;
      }
      if Truthy(conn.configFile) {
        cmdArgs := ["-f" + conn.configFile.value] + cmdArgs;
      }
      var colour: seq<string> := [];
      if ColoursSet(conn.colors) {
        if conn.colors.value == 256 {
          colour := ["-2"];
        } else if conn.colors.value == 88 {
          colour := ["-8"];
        } else {
          return Failure(ValueError(ColoursMessage));
        }
      }
      cmdArgs := colour + cmdArgs;
      var f, s, l := OptionFlag("-f", conn.configFile), OptionFlag("-S", conn.socketPath),
                     OptionFlag("-L", conn.socketName);
      assert cmdArgs == colour + (f + (s + (l + args)));
      Assoc(s, l, args);
      Assoc(f, s + l, args);
      Assoc(f, s, l);
      Assoc(colour, f + s + l, args);
      Assoc(colour, f, s + l);
      Assoc(colour + f, s, l);
      assert cmdArgs == GlobalFlags(conn).value + args;
      r := Success(respond(issued, cmdArgs));
      issued := issued + [cmdArgs];
    }

    function ListSessionsArgs(): seq<string>
    {
      ["list-sessions", "-F" + FormatString(formats.session, formats.separator)]
    }

    function ListWindowsArgs(): seq<string>
    {
      ["list-windows", "-a", "-F" + FormatString(WindowFields(formats.window), formats.separator)]
    }

    function ListPanesArgs(): seq<string>
    {
      ["list-panes", "-a", "-F" + PaneFormatString(PaneFields(formats.pane), formats.separator)]
    }

    /**
      `_list_sessions`: one record per line of `list-sessions` output, decoded against
      the session fields; anything on stderr raises.
    */
    method ListSessions() returns (r: Result<seq<Record>, Error>)
      modifies this`issued
      ensures issued == old(Logged(ListSessionsArgs()))
      ensures match old(Invoke(ListSessionsArgs()))
              case Failure(e) => r == Failure(e)
              case Success(resp) =>
                if |resp.stderr| > 0 then r == Failure(LibTmuxException(resp.stderr))
                else r == Success(DecodeLines(formats.session, resp.stdout, formats.separator))
    {
      var proc := Cmd(ListSessionsArgs());
      match proc
      case Failure(e) =>
        r := Failure(e);
      case Success(resp) =>
        if |resp.stderr| > 0 {
          r := Failure(LibTmuxException(resp.stderr));
        } else {
          r := Success(DecodeLines(formats.session, resp.stdout, formats.separator));
        }
    }

    /**
      `_list_windows`: the windows of all sessions, decoded and given a `window_id`, are
      put into the server's own `_windows` list, which is returned. On any error the list
      keeps its old contents. `_panes` is not touched.
    */
    method ListWindows() returns (r: Result<RecordList, Error>)
      requires Valid()
      modifies this`issued, windows
      ensures issued == old(Logged(ListWindowsArgs()))
      ensures panes.items == old(panes.items)
      ensures match old(Invoke(ListWindowsArgs()))
              case Failure(e) => r == Failure(e) && windows.items == old(windows.items)
              case Success(resp) =>
                if |resp.stderr| > 0 then
                  r == Failure(LibTmuxException(resp.stderr)) && windows.items == old(windows.items)
                else
                  var decoded := DecodeLines(WindowFields(formats.window), resp.stdout, formats.separator);
                  if forall i :: 0 <= i < |decoded| ==> HasIdOrName(decoded[i]) then
                    && r == Success(windows)
                    && |windows.items| == |decoded|
                    && forall i :: 0 <= i < |decoded| ==> Backfilled(decoded[i], windows.items[i])
                  else
                    r == Failure(KeyError("window_name")) && windows.items == old(windows.items)
    {
      var proc := Cmd(ListWindowsArgs());
      match proc
      case Failure(e) =>
        r := Failure(e);
      case Success(resp) =>
        if |resp.stderr| > 0 {
          r := Failure(LibTmuxException(resp.stderr));
        } else {
          var decoded := DecodeLines(WindowFields(formats.window), resp.stdout, formats.separator);
          var filled := BackfillWindowIds(decoded);
          match filled
          case Failure(e) =>
            r := Failure(e);
          case Success(ws) =>
            windows.Replace(ws);
            r := Success(windows);
        }
    }

    /**
      `_list_panes`: the panes of all sessions, decoded with `pane_current_path` kept even
      when empty, are put into the server's own `_panes` list, which is returned. On an
      error the list keeps its old contents. `_windows` is not touched.
    */
    method ListPanes() returns (r: Result<RecordList, Error>)
      requires Valid()
      modifies this`issued, panes
      ensures issued == old(Logged(ListPanesArgs()))
      ensures windows.items == old(windows.items)
      ensures match old(Invoke(ListPanesArgs()))
              case Failure(e) => r == Failure(e) && panes.items == old(panes.items)
              case Success(resp) =>
                if |resp.stderr| > 0 then
                  r == Failure(LibTmuxException(resp.stderr)) && panes.items == old(panes.items)
                else
                  r == Success(panes) &&
                  panes.items == DecodePaneLines(PaneFields(formats.pane), resp.stdout, formats.separator)
    {
      var proc := Cmd(ListPanesArgs());
      match proc
      case Failure(e) =>
        r := Failure(e);
      case Success(resp) =>
        if |resp.stderr| > 0 {
          r := Failure(LibTmuxException(resp.stderr));
        } else {
          panes.Replace(DecodePaneLines(PaneFields(formats.pane), resp.stdout, formats.separator));
          r := Success(panes);
        }
    }

    /**
      `attached_sessions`: the listed sessions whose `session_attached` is not "0", in
      listing order, or `None` when there is none.
    */
    method AttachedSessions() returns (r: Result<Option<seq<Record>>, Error>)
      modifies this`issued
      ensures issued == old(Logged(ListSessionsArgs()))
      ensures match old(Invoke(ListSessionsArgs()))
              case Failure(e) => r == Failure(e)
              case Success(resp) =>
                if |resp.stderr| > 0 then r == Failure(LibTmuxException(resp.stderr))
                else
                  var attached := Attached(DecodeLines(formats.session, resp.stdout, formats.separator));
                  r == Success(if attached == [] then None else Some(attached))
    {
      var sessions := ListSessions();
      match sessions
      case Failure(e) =>
        r := Failure(e);
      case Success(ss) =>
        var attached := FilterAttached(ss);
        AttachedEmpty(ss);
        r := Success(attached);
    }

    /**
      `has_session`: a rejected name raises before tmux is run; otherwise `has-session`
      is run on the name, prefixed with `=` for an exact match on tmux 2.1 and later, and
      the session exists exactly when tmux exits with status 0.
    */
    method HasSession(target: string, exact: bool) returns (r: Result<bool, Error>)
      modifies this`issued
      ensures !sessionCheckName(Some(target)) ==>
                r == Failure(BadSessionName(Some(target))) && issued == old(issued)
      ensures sessionCheckName(Some(target)) ==>
                var args := HasSessionArgs(target, exact, hasGteVersion("2.1"));
                && issued == old(Logged(args))
                && match old(Invoke(args))
                   case Failure(e) => r == Failure(e)
                   case Success(resp) => r == Success(resp.returncode == 0)
    {
      if !sessionCheckName(Some(target)) {
        return Failure(BadSessionName(Some(target)));
      }
      var t := target;
      if exact && hasGteVersion("2.1") {
        t := "=" + t;
      }
      var proc := Cmd(["has-session", "-t" + t]);
      match proc
      case Failure(e) =>
        r := Failure(e);
      case Success(resp) =>
        r := Success(resp.returncode == 0);
    }

    /** `kill_session`: `kill-session` on the target; anything on stderr raises. */
    method KillSession(target: string) returns (r: Outcome<Error>)
      modifies this`issued
      ensures issued == old(Logged(["kill-session", "-t" + target]))
      ensures match old(Invoke(["kill-session", "-t" + target]))
              case Failure(e) => r == Fail(e)
              case Success(resp) => r == CheckStderr(resp)
    {
      var proc := Cmd(["kill-session", "-t" + target]);
      match proc
      case Failure(e) =>
        r := Fail(e);
      case Success(resp) =>
        r := CheckStderr(resp);
    }

    /**
      `switch_client`: a rejected name raises before tmux is run; otherwise
      `switch-client` on the target, and anything on stderr raises.
    */
    method SwitchClient(target: string) returns (r: Outcome<Error>)
      modifies this`issued
      ensures !sessionCheckName(Some(target)) ==>
                r == Fail(BadSessionName(Some(target))) && issued == old(issued)
      ensures sessionCheckName(Some(target)) ==>
                && issued == old(Logged(["switch-client", "-t" + target]))
                && match old(Invoke(["switch-client", "-t" + target]))
                   case Failure(e) => r == Fail(e)
                   case Success(resp) => r == CheckStderr(resp)
    {
      if !sessionCheckName(Some(target)) {
        return Fail(BadSessionName(Some(target)));
      }
      var proc := Cmd(["switch-client", "-t" + target]);
      match proc
      case Failure(e) =>
        r := Fail(e);
      case Success(resp) =>
        r := CheckStderr(resp);
    }

    /** The arguments of `attach_session`: a `-t` target only when one is given and non-empty. */
    function AttachArgs(target: Option<string>): seq<string>
    {
      ["attach-session"] + (if Truthy(target) then ["-t" + target.value] else [])
    }

    /**
      `attach_session`: the (optional) name is checked first; then `attach-session`,
      with a target only when the name is truthy, and anything on stderr raises.
    */
    method AttachSession(target: Option<string>) returns (r: Outcome<Error>)
      modifies this`issued
      ensures !sessionCheckName(target) ==>
                r == Fail(BadSessionName(target)) && issued == old(issued)
      ensures sessionCheckName(target) ==>
                && issued == old(Logged(AttachArgs(target)))
                && match old(Invoke(AttachArgs(target)))
                   case Failure(e) => r == Fail(e)
                   case Success(resp) => r == CheckStderr(resp)
    {
      if !sessionCheckName(target) {
        return Fail(BadSessionName(target));
      }
      var tmuxArgs: seq<string> := [];
      if Truthy(target) {
        tmuxArgs := tmuxArgs + ["-t" + target.value];
      }
      assert ["attach-session"] + tmuxArgs == AttachArgs(target);
      var proc := Cmd(["attach-session"] + tmuxArgs);
      match proc
      case Failure(e) =>
        r := Fail(e);
      case Success(resp) =>
        r := CheckStderr(resp);
    }

    /** The exact `has-session` probe `new_session` runs on a name. */
    function ProbeArgs(name: string): seq<string>
    {
      HasSessionArgs(name, true, hasGteVersion("2.1"))
    }

    /** Whether tmux, after the commands `h`, reports a live session under exactly `name`. */
    predicate Live(name: string, h: seq<seq<string>>)
      requires !ColoursInvalid(conn.colors)
    {
      respond(h, Argv(ProbeArgs(name))).returncode == 0
    }

    /**
      The first stage of `new_session` for a given name: the name is checked, an exact
      `has-session` probe is run, and a live session under the name is killed (without
      looking at tmux's answer) when `killSession` is set, and refused otherwise.
    */
    method MakeRoom(name: string, killSession: bool) returns (r: Outcome<Error>)
      modifies this`issued
      ensures !sessionCheckName(Some(name)) ==>
                r == Fail(BadSessionName(Some(name))) && issued == old(issued)
      ensures sessionCheckName(Some(name)) && ColoursInvalid(conn.colors) ==>
                r == Fail(ValueError(ColoursMessage)) && issued == old(issued)
      ensures sessionCheckName(Some(name)) && !ColoursInvalid(conn.colors) ==>
                var probe := Argv(ProbeArgs(name));
                if Live(name, old(issued)) && !killSession then
                  && r == Fail(TmuxSessionExists("Session named " + name + " exists"))
                  && issued == old(issued) + [probe]
                else
                  && r == Pass
                  && issued == old(issued) + [probe] +
                               (if Live(name, old(issued)) then [Argv(["kill-session", "-t" + name])] else [])
    {
      if !sessionCheckName(Some(name)) {
        return Fail(BadSessionName(Some(name)));
      }
      var has := HasSession(name, true);
      match has
      case Failure(e) =>
        r := Fail(e);
      case Success(live) =>
        r := Pass;
        if live {
          if killSession {
            var _ := Cmd(["kill-session", "-t" + name]);
          } else {
            r := Fail(TmuxSessionExists("Session named " + name + " exists"));
          }
        }
    }

    /**
      The `new-session` command line for the given options, as the code is written: the
      default geometry follows `GeometryAsWritten`, so it is sent from inside a client too.
    */
    function CreateArgs(sessionName: Option<string>, attach: bool, startDirectory: Option<string>,
                        windowName: Option<string>, windowCommand: Option<string>,
                        tmuxEnv: Option<string>): seq<string>
    {
      ["new-session"] + NewSessionArgs(FormatString(formats.session, formats.separator), sessionName,
                                       attach, startDirectory, windowName,
                                       GeometryAsWritten(hasGteVersion("2.6"), tmuxEnv), windowCommand)
    }

    /**
      The `new-session` command line as the geometry comment intends: the default geometry
      follows `SendsGeometry`, so it is never sent from inside a client.
    */
    function CreateArgsCorrected(sessionName: Option<string>, attach: bool, startDirectory: Option<string>,
                                 windowName: Option<string>, windowCommand: Option<string>,
                                 tmuxEnv: Option<string>): seq<string>
    {
      ["new-session"] + NewSessionArgs(FormatString(formats.session, formats.separator), sessionName,
                                       attach, startDirectory, windowName,
                                       SendsGeometry(hasGteVersion("2.6"), tmuxEnv), windowCommand)
    }

    /**
      The command line as written and the corrected one differ only on tmux 2.6 or later
      with a non-empty TMUX: there the code as written carries the four geometry
      arguments, which tmux reads back as a request for the default geometry, and the
      corrected one does not. Everywhere else they are equal.
    */
    lemma CreateArgsCorrectedDiffers(sessionName: Option<string>, attach: bool,
                                     startDirectory: Option<string>, windowName: Option<string>,
                                     windowCommand: Option<string>, tmuxEnv: Option<string>)
      requires PlainCommand(windowCommand)
      ensures !(hasGteVersion("2.6") && Truthy(tmuxEnv)) ==>
                CreateArgs(sessionName, attach, startDirectory, windowName, windowCommand, tmuxEnv) ==
                CreateArgsCorrected(sessionName, attach, startDirectory, windowName, windowCommand, tmuxEnv)
      ensures hasGteVersion("2.6") && Truthy(tmuxEnv) ==>
                var written := CreateArgs(sessionName, attach, startDirectory, windowName, windowCommand, tmuxEnv);
                var corrected := CreateArgsCorrected(sessionName, attach, startDirectory, windowName,
                                                     windowCommand, tmuxEnv);
                && |written| == |corrected| + |Geometry|
                && ParseNewSessionArgs(written[1..]).Some? && ParseNewSessionArgs(written[1..]).value.geometry
                && ParseNewSessionArgs(corrected[1..]).Some? && !ParseNewSessionArgs(corrected[1..]).value.geometry
    {
      var format := FormatString(formats.session, formats.separator);
      var gate := hasGteVersion("2.6");
      NewSessionArgsParse(format, sessionName, attach, startDirectory, windowName,
                          GeometryAsWritten(gate, tmuxEnv), windowCommand);
      NewSessionArgsParse(format, sessionName, attach, startDirectory, windowName,
                          SendsGeometry(gate, tmuxEnv), windowCommand);
      var written := CreateArgs(sessionName, attach, startDirectory, windowName, windowCommand, tmuxEnv);
      var corrected := CreateArgsCorrected(sessionName, attach, startDirectory, windowName,
                                           windowCommand, tmuxEnv);
      assert written[1..] == NewSessionArgs(format, sessionName, attach, startDirectory, windowName,
                                            GeometryAsWritten(gate, tmuxEnv), windowCommand);
      assert corrected[1..] == NewSessionArgs(format, sessionName, attach, startDirectory, windowName,
                                              SendsGeometry(gate, tmuxEnv), windowCommand);
    }

    /**
      The argument tuple of `new_session`, grown option by option; the default geometry
      follows the rule as written, `GeometryAsWritten`.
    */
    method NewSessionTuple(sessionName: Option<string>, attach: bool, startDirectory: Option<string>,
                           windowName: Option<string>, windowCommand: Option<string>,
                           tmuxEnv: Option<string>) returns (tmuxArgs: seq<string>)
      ensures ["new-session"] + tmuxArgs ==
              CreateArgs(sessionName, attach, startDirectory, windowName, windowCommand, tmuxEnv)
    {
      tmuxArgs := ["-P", "-F" + FormatString(formats.session, formats.separator)];
      ghost var built := tmuxArgs;
      if sessionName.Some? {
        tmuxArgs := tmuxArgs + ["-s" + sessionName.value];
      }
      assert tmuxArgs == built + NameBlock(sessionName);
      built := tmuxArgs;
      if !attach {
        tmuxArgs := tmuxArgs + ["-d"];
      }
      assert tmuxArgs == built + DetachBlock(attach);
      built := tmuxArgs;
      if Truthy(startDirectory) {
        tmuxArgs := tmuxArgs + ["-c", startDirectory.value];
      }
      assert tmuxArgs == built + PairBlock("-c", startDirectory);
      built := tmuxArgs;
      if Truthy(windowName) {
        tmuxArgs := tmuxArgs + ["-n", windowName.value];
      }
      assert tmuxArgs == built + PairBlock("-n", windowName);
      built := tmuxArgs;
      if GeometryAsWritten(hasGteVersion("2.6"), tmuxEnv) {
        tmuxArgs := tmuxArgs + Geometry;
      }
      assert tmuxArgs == built + GeometryBlock(GeometryAsWritten(hasGteVersion("2.6"), tmuxEnv));
      built := tmuxArgs;
      if Truthy(windowCommand) {
        tmuxArgs := tmuxArgs + [windowCommand.value];
      }
      assert tmuxArgs == built + CommandBlock(windowCommand);
    }

    /** The record `new_session` builds from the reply to `new-session`. */
    function Created(resp: Response): (r: Result<Record, Error>)
      // stderr is looked at first, and any line on it raises
      ensures |resp.stderr| > 0 ==> r == Failure(LibTmuxException(resp.stderr))
      // a clean reply without output lines fails at `stdout[0]`
      ensures |resp.stderr| == 0 && |resp.stdout| == 0 ==> r == Failure(IndexError)
      // otherwise the record is the first output line, decoded against the session fields
      ensures |resp.stderr| == 0 && |resp.stdout| > 0 ==>
                r == Success(DecodeLine(formats.session, resp.stdout[0], formats.separator))
      ensures r.Success? ==> forall k :: k in r.value ==> k in formats.session && r.value[k] != ""
    {
      if |resp.stderr| > 0 then Failure(LibTmuxException(resp.stderr))
      else if |resp.stdout| == 0 then Failure(IndexError)
      else Success(DecodeLine(formats.session, resp.stdout[0], formats.separator))
    }

    /**
      `new_session`. A given name is checked and probed with an exact `has-session`; a
      live session under it is killed when `killSession` is set (whatever tmux answers)
      and otherwise raises `TmuxSessionExists` without creating anything. Then
      `new-session -P -F...` is run with the options, and the first output line is
      decoded into the new session's record. `tmuxEnv` is the caller's TMUX variable; the
      default geometry is sent by the rule as written (`GeometryAsWritten`): a non-empty
      TMUX is removed before it is looked for, so only an empty one suppresses it.
    */
    method NewSession(sessionName: Option<string>, killSession: bool, attach: bool,
                      startDirectory: Option<string>, windowName: Option<string>,
                      windowCommand: Option<string>, tmuxEnv: Option<string>)
      returns (r: Result<Record, Error>)
      modifies this`issued
      // the name is checked before tmux is run
      ensures sessionName.Some? && !sessionCheckName(sessionName) ==>
                r == Failure(BadSessionName(sessionName)) && issued == old(issued)
      // an unusable colour depth raises before tmux is run
      ensures (sessionName.None? || sessionCheckName(sessionName)) && ColoursInvalid(conn.colors) ==>
                r == Failure(ValueError(ColoursMessage)) && issued == old(issued)
      // a live session under the name is refused after the probe, and nothing is created
      ensures sessionName.Some? && sessionCheckName(sessionName) && !ColoursInvalid(conn.colors) &&
              Live(sessionName.value, old(issued)) && !killSession ==>
                && r == Failure(TmuxSessionExists("Session named " + sessionName.value + " exists"))
                && issued == old(issued) + [Argv(ProbeArgs(sessionName.value))]
      // otherwise the log gains the probe, the kill when the session was live, and the creation
      ensures sessionName.Some? && sessionCheckName(sessionName) && !ColoursInvalid(conn.colors) &&
              (!Live(sessionName.value, old(issued)) || killSession) ==>
                var name := sessionName.value;
                var probe := Argv(ProbeArgs(name));
                var before := old(issued) + [probe] +
                              (if Live(name, old(issued)) then [Argv(["kill-session", "-t" + name])] else []);
                var create := Argv(CreateArgs(sessionName, attach, startDirectory, windowName,
                                              windowCommand, tmuxEnv));
                issued == before + [create] && r == Created(respond(before, create))
      // without a name, only the creation is run
      ensures sessionName.None? && !ColoursInvalid(conn.colors) ==>
                var create := Argv(CreateArgs(sessionName, attach, startDirectory, windowName,
                                              windowCommand, tmuxEnv));
                issued == old(issued) + [create] && r == Created(respond(old(issued), create))
    {
      if sessionName.Some? {
        var room := MakeRoom(sessionName.value, killSession);
        if room.Fail? {
          return Failure(room.error);
        }
      }
      var tmuxArgs := NewSessionTuple(sessionName, attach, startDirectory, windowName,
                                      windowCommand, tmuxEnv);
      var proc := Cmd(["new-session"] + tmuxArgs);
      match proc
      case Failure(e) =>
        r := Failure(e);
      case Success(resp) =>
        if |resp.stderr| > 0 {
          r := Failure(LibTmuxException(resp.stderr));
        } else if |resp.stdout| == 0 {
          r := Failure(IndexError);
        } else {
          r := Success(DecodeLine(formats.session, resp.stdout[0], formats.separator));
        }
    }
  }
}
