/**
  The argument vectors the server adapter hands to tmux: the global connection flags
  of `Server.cmd`, the `has-session` target, and the argument tuple of `new_session`,
  with a parser that reads that tuple back.
*/
module Commands {
  import opened Wrappers

  /** What the tmux subprocess reports: its stdout and stderr lines and its exit code. */
  datatype Response = Response(stdout: seq<string>, stderr: seq<string>, returncode: int)

  /** The connection attributes of a `Server`. */
  datatype Connection = Connection(
    socketName: Option<string>,
    socketPath: Option<string>,
    configFile: Option<string>,
    colors: Option<int>)

  /** A colour depth is given and non-zero, so the server treats it as set. */
  predicate ColoursSet(colors: Option<int>)
  {
    colors.Some? && colors.value != 0
  }

  /** A colour depth that `cmd` refuses before running anything. */
  predicate ColoursInvalid(colors: Option<int>)
  {
    ColoursSet(colors) && colors.value != 256 && colors.value != 88
  }

  const ColoursMessage: string := "Server.colors must equal 88 or 256"

  /** `-2` for 256 colours, `-8` for 88, nothing when unset. */
  function ColourFlag(colors: Option<int>): Result<seq<string>, Error>
  {
    if !ColoursSet(colors) then Success([])
    else if colors.value == 256 then Success(["-2"])
    else if colors.value == 88 then Success(["-8"])
    else Failure(ValueError(ColoursMessage))
  }

  /** The flag with the value glued to it, when the attribute is truthy; nothing otherwise. */
  function OptionFlag(flag: string, o: Option<string>): seq<string>
  {
    if Truthy(o) then [flag + o.value] else []
  }

  /** The number of global flags a connection contributes. */
  function FlagCount(c: Connection): nat
  {
    (if ColoursSet(c.colors) then 1 else 0) + (if Truthy(c.configFile) then 1 else 0)
    + (if Truthy(c.socketPath) then 1 else 0) + (if Truthy(c.socketName) then 1 else 0)
  }

  /**
    The global flags `Server.cmd` puts in front of the caller's arguments. They are
    inserted at the front in the order socket name, socket path, config file, colour,
    so they end up in the reverse order.
  */
  function GlobalFlags(c: Connection): (r: Result<seq<string>, Error>)
    ensures r.Failure? <==> ColoursInvalid(c.colors)
    ensures r.Failure? ==> r.error == ValueError(ColoursMessage)
    ensures r.Success? ==> |r.value| == FlagCount(c)
  {
    match ColourFlag(c.colors)
    case Failure(e) => Failure(e)
    case Success(colour) =>
      Success(colour + OptionFlag("-f", c.configFile) + OptionFlag("-S", c.socketPath)
              + OptionFlag("-L", c.socketName))
  }

  /** The argument vector `Server.cmd` passes to tmux: the global flags, then `args` unchanged. */
  function CommandLine(c: Connection, args: seq<string>): (r: Result<seq<string>, Error>)
    ensures r.Failure? <==> ColoursInvalid(c.colors)
    ensures r.Failure? ==> r.error == ValueError(ColoursMessage)
    ensures r.Success? ==> |r.value| == FlagCount(c) + |args|
    ensures r.Success? ==> r.value[FlagCount(c)..] == args
  {
    match GlobalFlags(c)
    case Failure(e) => Failure(e)
    case Success(flags) =>
      assert (flags + args)[|flags|..] == args;
      Success(flags + args)
  }

  /** The position class of a global flag: colour, `-f`, `-S`, `-L`; 4 for anything else. */
  function FlagRank(f: string): nat
  {
    if f == "-2" || f == "-8" then 0
    else if |f| >= 2 && f[..2] == "-f" then 1
    else if |f| >= 2 && f[..2] == "-S" then 2
    else if |f| >= 2 && f[..2] == "-L" then 3
    else 4
  }

  lemma OptionFlagRank(flag: string, o: Option<string>, k: nat)
    requires (flag, k) == ("-f", 1) || (flag, k) == ("-S", 2) || (flag, k) == ("-L", 3)
    ensures forall x :: x in OptionFlag(flag, o) ==> FlagRank(x) == k
  {
    if Truthy(o) {
      var x := flag + o.value;
      assert x[..2] == flag;
      assert x != "-2" && x != "-8" by {
        assert |x| > 2;
      }
    }
  }

  lemma ColourFlagRank(colors: Option<int>)
    requires ColourFlag(colors).Success?
    ensures forall x :: x in ColourFlag(colors).value ==> FlagRank(x) == 0
  {
  }

  lemma RankedBlocks(b0: seq<string>, b1: seq<string>, b2: seq<string>, b3: seq<string>)
    requires |b0| <= 1 && |b1| <= 1 && |b2| <= 1 && |b3| <= 1
    requires forall x :: x in b0 ==> FlagRank(x) == 0
    requires forall x :: x in b1 ==> FlagRank(x) == 1
    requires forall x :: x in b2 ==> FlagRank(x) == 2
    requires forall x :: x in b3 ==> FlagRank(x) == 3
    ensures var all := b0 + b1 + b2 + b3;
            forall i, j :: 0 <= i < j < |all| ==> FlagRank(all[i]) < FlagRank(all[j]) < 4
  {
    var all := b0 + b1 + b2 + b3;
    forall i | 0 <= i < |all|
      ensures FlagRank(all[i]) == if i < |b0| then 0 else if i < |b0| + |b1| then 1
                                   else if i < |b0| + |b1| + |b2| then 2 else 3
    {
      assert all[i] in b0 || all[i] in b1 || all[i] in b2 || all[i] in b3;
      if i < |b0| {
        assert all[i] == b0[i];
      } else if i < |b0| + |b1| {
        assert all[i] == b1[i - |b0|];
      } else if i < |b0| + |b1| + |b2| {
        assert all[i] == b2[i - |b0| - |b1|];
      } else {
        assert all[i] == b3[i - |b0| - |b1| - |b2|];
      }
    }
  }

  /**
    The global flags stand strictly in the order colour, `-f`, `-S`, `-L`: at most one of
    each kind, and nothing else among them.
  */
  lemma GlobalFlagsOrder(c: Connection)
    requires !ColoursInvalid(c.colors)
    ensures var flags := GlobalFlags(c).value;
            forall i, j :: 0 <= i < j < |flags| ==> FlagRank(flags[i]) < FlagRank(flags[j]) < 4
    ensures var flags := GlobalFlags(c).value;
            forall i :: 0 <= i < |flags| ==> FlagRank(flags[i]) < 4
  {
    var colour := ColourFlag(c.colors).value;
    var f, s, l := OptionFlag("-f", c.configFile), OptionFlag("-S", c.socketPath),
                   OptionFlag("-L", c.socketName);
    ColourFlagRank(c.colors);
    OptionFlagRank("-f", c.configFile, 1);
    OptionFlagRank("-S", c.socketPath, 2);
    OptionFlagRank("-L", c.socketName, 3);
    RankedBlocks(colour, f, s, l);
    var flags := GlobalFlags(c).value;
    forall i | 0 <= i < |flags| ensures FlagRank(flags[i]) < 4 {
      assert flags[i] in colour || flags[i] in f || flags[i] in s || flags[i] in l;
    }
  }

  /** The value of an optional attribute, "" for `None`. */
  function ValueOr(o: Option<string>): string
  {
    if o.Some? then o.value else ""
  }

  /**
    Each global flag is present exactly when its attribute is truthy, and carries the
    attribute's value; the colour flag is `-2` for 256 colours and `-8` for 88.
  */
  lemma GlobalFlagsPresence(c: Connection)
    requires !ColoursInvalid(c.colors)
    ensures var flags := GlobalFlags(c).value;
            && (c.colors == Some(256) <==> "-2" in flags)
            && (c.colors == Some(88) <==> "-8" in flags)
            && (Truthy(c.configFile) <==> "-f" + ValueOr(c.configFile) in flags)
            && (Truthy(c.socketPath) <==> "-S" + ValueOr(c.socketPath) in flags)
            && (Truthy(c.socketName) <==> "-L" + ValueOr(c.socketName) in flags)
  {
    var colour := ColourFlag(c.colors).value;
    var f, s, l := OptionFlag("-f", c.configFile), OptionFlag("-S", c.socketPath),
                   OptionFlag("-L", c.socketName);
    ColourFlagRank(c.colors);
    OptionFlagRank("-f", c.configFile, 1);
    OptionFlagRank("-S", c.socketPath, 2);
    OptionFlagRank("-L", c.socketName, 3);
    var flags := GlobalFlags(c).value;
    assert flags == colour + f + s + l;
    RankOfPrefixed("-f", ValueOr(c.configFile), 1);
    RankOfPrefixed("-S", ValueOr(c.socketPath), 2);
    RankOfPrefixed("-L", ValueOr(c.socketName), 3);
    assert FlagRank("-2") == 0 && FlagRank("-8") == 0;
  }

  lemma RankOfPrefixed(flag: string, v: string, k: nat)
    requires (flag, k) == ("-f", 1) || (flag, k) == ("-S", 2) || (flag, k) == ("-L", 3)
    ensures FlagRank(flag + v) == k
  {
    var x := flag + v;
    assert x[..2] == flag;
    if |v| == 0 {
      assert x == flag;
    } else {
      assert |x| > 2;
    }
  }

  /** The `has-session` target: `=name` asks tmux for an exact match (tmux 2.1 and later). */
  function HasSessionTarget(target: string, exact: bool, gate21: bool): (r: string)
    ensures |r| == |target| + (if exact && gate21 then 1 else 0)
    ensures r[|r| - |target|..] == target
    ensures exact && gate21 ==> r[0] == '='
  {
    if exact && gate21 then "=" + target else target
  }

  /** The `has-session` command for a target. */
  function HasSessionArgs(target: string, exact: bool, gate21: bool): seq<string>
  {
    ["has-session", "-t" + HasSessionTarget(target, exact, gate21)]
  }

  /** The `-x 800 -y 600` default geometry of `new_session`. */
  const Geometry: seq<string> := ["-x", "800", "-y", "600"]

  /**
    Whether `new_session` sends the default geometry, AS WRITTEN: the environment
    variable TMUX (`tmuxEnv`) is deleted when truthy before the test "TMUX not in the
    environment" is made, so only an empty TMUX, which survives the deletion, suppresses
    the geometry.
  */
  function GeometryAsWritten(gate26: bool, tmuxEnv: Option<string>): bool
  {
    var survivesDeletion := tmuxEnv.Some? && !Truthy(tmuxEnv);
    gate26 && !survivesDeletion
  }

  /**
    From inside a tmux client (any non-empty TMUX), the code as written ignores TMUX and
    sends `-x 800 -y 600` exactly when tmux is 2.6 or later; for example with the TMUX of
    a client on the default socket.
  */
  lemma GeometryAsWrittenInsideClient(gate26: bool, tmuxEnv: Option<string>)
    ensures Truthy(tmuxEnv) ==> GeometryAsWritten(gate26, tmuxEnv) == gate26
    ensures GeometryAsWritten(true, Some("/tmp/tmux-1000/default,4242,0"))
  {
  }

  /**
    Whether `new_session` sends the default geometry, as its comment intends: on tmux 2.6
    or later, and only when the caller is not already inside a client (TMUX unset).
  */
  function SendsGeometry(gate26: bool, tmuxEnv: Option<string>): bool
  {
    gate26 && tmuxEnv.None?
  }

  /**
    The corrected rule differs from the code as written only inside a client: there it
    never sends the geometry, and outside a client the two agree.
  */
  lemma SendsGeometryCorrected(gate26: bool, tmuxEnv: Option<string>)
    ensures tmuxEnv.Some? ==> !SendsGeometry(gate26, tmuxEnv)
    ensures tmuxEnv.None? ==> SendsGeometry(gate26, tmuxEnv) == GeometryAsWritten(gate26, tmuxEnv)
    ensures SendsGeometry(gate26, tmuxEnv) ==> GeometryAsWritten(gate26, tmuxEnv)
  {
  }

  /** The options `new-session` is given, as tmux reads them from the argument tuple. */
  datatype NewSessionRequest = NewSessionRequest(
    format: string,
    sessionName: Option<string>,
    detached: bool,
    startDirectory: Option<string>,
    windowName: Option<string>,
    geometry: bool,
    windowCommand: Option<string>)

  function NameBlock(sessionName: Option<string>): seq<string>
  {
    if sessionName.Some? then ["-s" + sessionName.value] else []
  }

  function DetachBlock(attach: bool): seq<string>
  {
    if !attach then ["-d"] else []
  }

  function PairBlock(flag: string, o: Option<string>): seq<string>
  {
    if Truthy(o) then [flag, o.value] else []
  }

  function GeometryBlock(geometry: bool): seq<string>
  {
    if geometry then Geometry else []
  }

  function CommandBlock(windowCommand: Option<string>): seq<string>
  {
    if Truthy(windowCommand) then [windowCommand.value] else []
  }

  /**
    The argument tuple of `new_session` after `new-session`: `-P`, `-F<format>`, then
    `-s<name>` when a name is given (even an empty one), `-d` unless attaching, `-c dir`
    and `-n name` when truthy, the default geometry, and the window command last when
    truthy.
  */
  function NewSessionArgs(format: string, sessionName: Option<string>, attach: bool,
                          startDirectory: Option<string>, windowName: Option<string>,
                          geometry: bool, windowCommand: Option<string>): seq<string>
  {
    ["-P", "-F" + format] + NameBlock(sessionName) + DetachBlock(attach)
    + PairBlock("-c", startDirectory) + PairBlock("-n", windowName)
    + GeometryBlock(geometry) + CommandBlock(windowCommand)
  }

  predicate HasPrefix(s: string, p: string)
  {
    |p| <= |s| && s[..|p|] == p
  }

  /** Reads an optional `-s<name>` argument. */
  function TakeName(args: seq<string>): (Option<string>, seq<string>)
  {
    if |args| > 0 && HasPrefix(args[0], "-s") then (Some(args[0][2..]), args[1..]) else (None, args)
  }

  /** Reads an optional `-d`. */
  function TakeDetach(args: seq<string>): (bool, seq<string>)
  {
    if |args| > 0 && args[0] == "-d" then (true, args[1..]) else (false, args)
  }

  /** Reads an optional `flag value` pair. */
  function TakePair(flag: string, args: seq<string>): (Option<string>, seq<string>)
  {
    if |args| >= 2 && args[0] == flag then (Some(args[1]), args[2..]) else (None, args)
  }

  /** Reads an optional `-x 800 -y 600`. */
  function TakeGeometry(args: seq<string>): (bool, seq<string>)
  {
    if |args| >= 4 && args[..4] == Geometry then (true, args[4..]) else (false, args)
  }

  /** The inverse of `NewSessionArgs`: the options a `new-session` argument tuple carries. */
  function ParseNewSessionArgs(args: seq<string>): Option<NewSessionRequest>
  {
    if |args| < 2 || args[0] != "-P" || !HasPrefix(args[1], "-F") then None
    else ParseOptions(args[1][2..], args[2..])
  }

  /** The optional part of a `new-session` tuple, read stage by stage. */
  function ParseOptions(format: string, a1: seq<string>): Option<NewSessionRequest>
  {
    var (name, a2) := TakeName(a1);
    var (detached, a3) := TakeDetach(a2);
    var (dir, a4) := TakePair("-c", a3);
    var (wname, a5) := TakePair("-n", a4);
    var (geometry, a6) := TakeGeometry(a5);
    if |a6| > 1 then None
    else Some(NewSessionRequest(format, name, detached, dir, wname, geometry,
                                if |a6| == 1 then Some(a6[0]) else None))
  }

  /** `Some(v)` when `v` is truthy, `None` otherwise. */
  function IfTruthy(o: Option<string>): Option<string>
  {
    if Truthy(o) then o else None
  }

  /** A window command tmux cannot mistake for an option. */
  predicate PlainCommand(windowCommand: Option<string>)
  {
    !Truthy(windowCommand) || windowCommand.value[0] != '-'
  }

  /** The parsing stage an option belongs to: `-d` 1, `-c` 2, `-n` 3, `-x` 4; 0 for others. */
  function Stage(h: string): nat
  {
    if h == "-d" then 1 else if h == "-c" then 2 else if h == "-n" then 3 else if h == "-x" then 4
    else 0
  }

  /** The next argument, if any, belongs to stage `k` or later, or is not an option at all. */
  predicate Follows(xs: seq<string>, k: nat)
  {
    |xs| == 0 || Stage(xs[0]) >= k || (|xs[0]| > 0 && xs[0][0] != '-')
  }

  lemma FollowsCons(block: seq<string>, rest: seq<string>, h: string, k: nat)
    requires Stage(h) == k && (|block| == 0 || block[0] == h)
    requires Follows(rest, k + 1)
    ensures Follows(block + rest, k)
  {
    if |block| == 0 {
      assert block + rest == rest;
    } else {
      assert (block + rest)[0] == h;
    }
  }

  lemma TakeNameOf(sessionName: Option<string>, rest: seq<string>)
    requires Follows(rest, 1)
    ensures TakeName(NameBlock(sessionName) + rest) == (sessionName, rest)
  {
    if sessionName.Some? {
      var x := "-s" + sessionName.value;
      assert x[..2] == "-s" && x[2..] == sessionName.value;
      assert ([x] + rest)[1..] == rest;
    } else if |rest| > 0 {
      assert NameBlock(sessionName) + rest == rest;
      var h := rest[0];
      if Stage(h) >= 1 {
        assert h == "-d" || h == "-c" || h == "-n" || h == "-x";
        assert h[1] != 's';
        assert h[..2][1] == h[1];
      } else {
        assert h[0] != '-';
        assert |h| >= 2 ==> h[..2][0] == h[0];
      }
    }
  }

  lemma TakeDetachOf(attach: bool, rest: seq<string>)
    requires Follows(rest, 2)
    ensures TakeDetach(DetachBlock(attach) + rest) == (!attach, rest)
  {
    if !attach {
      assert (["-d"] + rest)[1..] == rest;
    } else {
      assert DetachBlock(attach) + rest == rest;
    }
  }

  lemma TakePairOf(flag: string, o: Option<string>, rest: seq<string>)
    requires Stage(flag) > 0 && Follows(rest, Stage(flag) + 1)
    ensures TakePair(flag, PairBlock(flag, o) + rest) == (IfTruthy(o), rest)
  {
    if Truthy(o) {
      assert ([flag, o.value] + rest)[2..] == rest;
    } else {
      assert PairBlock(flag, o) + rest == rest;
      assert flag[0] == '-';
    }
  }

  lemma TakeGeometryOf(geometry: bool, windowCommand: Option<string>)
    ensures TakeGeometry(GeometryBlock(geometry) + CommandBlock(windowCommand))
            == (geometry, CommandBlock(windowCommand))
  {
    var w := CommandBlock(windowCommand);
    if geometry {
      assert (Geometry + w)[..4] == Geometry;
      assert (Geometry + w)[4..] == w;
    } else {
      assert GeometryBlock(geometry) + w == w;
    }
  }

  /**
    The argument tuple determines the request: every option given is present in its
    slot, in order, and every option not given is absent.
  */
  lemma NewSessionArgsParse(format: string, sessionName: Option<string>, attach: bool,
                            startDirectory: Option<string>, windowName: Option<string>,
                            geometry: bool, windowCommand: Option<string>)
    requires PlainCommand(windowCommand)
    ensures ParseNewSessionArgs(NewSessionArgs(format, sessionName, attach, startDirectory,
                                               windowName, geometry, windowCommand))
            == Some(NewSessionRequest(format, sessionName, !attach, IfTruthy(startDirectory),
                                      IfTruthy(windowName), geometry, IfTruthy(windowCommand)))
  {
    var all := OptionalArgs(sessionName, attach, startDirectory, windowName, geometry, windowCommand);
    var args := NewSessionArgs(format, sessionName, attach, startDirectory, windowName,
                               geometry, windowCommand);
    NewSessionArgsShape(format, sessionName, attach, startDirectory, windowName, geometry, windowCommand);
    assert args[2..] == all;
    assert args[1][..2] == "-F" && args[1][2..] == format;
    ParseOptionsOf(format, sessionName, attach, startDirectory, windowName, geometry, windowCommand);
  }

  /** The optional blocks of the `new-session` tuple, grouped from the right. */
  function OptionalArgs(sessionName: Option<string>, attach: bool, startDirectory: Option<string>,
                        windowName: Option<string>, geometry: bool,
                        windowCommand: Option<string>): seq<string>
  {
    NameBlock(sessionName) + (DetachBlock(attach) + (PairBlock("-c", startDirectory)
      + (PairBlock("-n", windowName) + (GeometryBlock(geometry) + CommandBlock(windowCommand)))))
  }

  lemma NewSessionArgsShape(format: string, sessionName: Option<string>, attach: bool,
                            startDirectory: Option<string>, windowName: Option<string>,
                            geometry: bool, windowCommand: Option<string>)
    ensures NewSessionArgs(format, sessionName, attach, startDirectory, windowName, geometry,
                           windowCommand)
            == ["-P", "-F" + format]
               + OptionalArgs(sessionName, attach, startDirectory, windowName, geometry, windowCommand)
  {
    var p, n, d := ["-P", "-F" + format], NameBlock(sessionName), DetachBlock(attach);
    var c, m := PairBlock("-c", startDirectory), PairBlock("-n", windowName);
    var g, w := GeometryBlock(geometry), CommandBlock(windowCommand);
    Assoc(p + n + d + c + m, g, w);
    Assoc(p + n + d + c, m, g + w);
    Assoc(p + n + d, c, m + (g + w));
    Assoc(p + n, d, c + (m + (g + w)));
    Assoc(p, n, d + (c + (m + (g + w))));
  }

  lemma Assoc(a: seq<string>, b: seq<string>, c: seq<string>)
    ensures (a + b) + c == a + (b + c)
  {
  }

  lemma ParseOptionsOf(format: string, sessionName: Option<string>, attach: bool,
                       startDirectory: Option<string>, windowName: Option<string>,
                       geometry: bool, windowCommand: Option<string>)
    requires PlainCommand(windowCommand)
    ensures ParseOptions(format, OptionalArgs(sessionName, attach, startDirectory, windowName,
                                              geometry, windowCommand))
            == Some(NewSessionRequest(format, sessionName, !attach, IfTruthy(startDirectory),
                                      IfTruthy(windowName), geometry, IfTruthy(windowCommand)))
  {
    var w := CommandBlock(windowCommand);
    var gw := GeometryBlock(geometry) + w;
    var ngw := PairBlock("-n", windowName) + gw;
    var cngw := PairBlock("-c", startDirectory) + ngw;
    var dcngw := DetachBlock(attach) + cngw;
    NewSessionHeads(attach, startDirectory, windowName, geometry, windowCommand);
    TakeNameOf(sessionName, dcngw);
    TakeDetachOf(attach, cngw);
    TakePairOf("-c", startDirectory, ngw);
    TakePairOf("-n", windowName, gw);
    TakeGeometryOf(geometry, windowCommand);
  }

  /** What follows each optional block of the `new-session` tuple cannot be read as that block. */
  lemma NewSessionHeads(attach: bool, startDirectory: Option<string>, windowName: Option<string>,
                        geometry: bool, windowCommand: Option<string>)
    requires PlainCommand(windowCommand)
    ensures var w := CommandBlock(windowCommand);
            var gw := GeometryBlock(geometry) + w;
            var ngw := PairBlock("-n", windowName) + gw;
            var cngw := PairBlock("-c", startDirectory) + ngw;
            && Follows(gw, 4)
            && Follows(ngw, 3)
            && Follows(cngw, 2)
            && Follows(DetachBlock(attach) + cngw, 1)
  {
    var w := CommandBlock(windowCommand);
    var gw := GeometryBlock(geometry) + w;
    var ngw := PairBlock("-n", windowName) + gw;
    var cngw := PairBlock("-c", startDirectory) + ngw;
    assert Follows(w, 5) by {
      if |w| > 0 { assert w[0] == windowCommand.value; }
    }
    FollowsCons(GeometryBlock(geometry), w, "-x", 4);
    FollowsCons(PairBlock("-n", windowName), gw, "-n", 3);
    FollowsCons(PairBlock("-c", startDirectory), ngw, "-c", 2);
    FollowsCons(DetachBlock(attach), cngw, "-d", 1);
  }

  /** Any line on stderr turns a reply into a `LibTmuxException` carrying those lines. */
  function CheckStderr(resp: Response): (r: Outcome<Error>)
    ensures r.Fail? <==> |resp.stderr| > 0
    ensures r.Fail? ==> r.error == LibTmuxException(resp.stderr)
  {
    if |resp.stderr| > 0 then Fail(LibTmuxException(resp.stderr)) else Pass
  }
}
