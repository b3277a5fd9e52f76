# libtmux server adapter, modelled in Dafny

This project models the command/response adapter of libtmux's `Server` class
(`libtmux/server.py`). It covers:

- how `cmd` puts the global connection flags (`-2`/`-8`, `-f`, `-S`, `-L`) in front
  of a tmux command;
- how the session, window and pane listings are requested with a `-F` format string and
  decoded line by line into field/value records;
- how `_list_windows` and `_list_panes` refill the server's own `_windows` and `_panes`
  lists in place;
- the decision rules of `attached_sessions`, `has_session`, `kill_session`,
  `switch_client`, `attach_session` and `new_session`.

tmux itself is not run. An oracle `respond` stands in for it. It maps the list of
commands run so far and the new argument vector to a reply: stdout lines, stderr lines
and an exit code. The server records every argument vector it hands to tmux in the
field `issued`, so each method's contract states which commands it runs, in which
order, and what it makes of the replies.

Files:

- `wrappers.dfy`: `Option`, `Result`, `Outcome`, Python truthiness of an optional
  string, and the errors the adapter raises.
- `text.dfy`: Python's `split` and `join` on a non-empty separator, and when splitting
  undoes joining.
- `formats.dfy`: format strings, the per-line decoding, and its round trips.
- `records.dfy`: the `window_id` backfill and the attached-sessions filter.
- `commands.dfy`: the global flags, the `has-session` target, the `new_session`
  argument tuple with a parser that reads it back, the stderr rule, and the geometry
  rule (as written and corrected).
- `server.dfy`: the `Server` class with its methods, and `RecordList`, the list object
  behind `_windows` and `_panes`.

## Model

| member | source | states |
|---|---|---|
| Text.Join | libtmux/server.py:167 | Python's join of the values with the separator between consecutive ones. Text.JoinSplit and Text.SplitJoin state that it is undone by the split. |
| Text.Split | libtmux/server.py:180 | Splitting a line always yields at least one piece. |
| Text.JoinSplit | libtmux/server.py:180 | Joining the pieces of a split with the separator gives back the line, so splitting loses no character. |
| Text.SplitJoin | libtmux/server.py:179-182 | Splitting the join of one or more values gives back exactly those values, empty ones included, provided no separator occurrence starts inside a value. |
| Text.SplitTrailing | libtmux/server.py:300 | A line with the separator after every value splits into the values plus one trailing empty piece. |
| Text.NoSepBeforeOfBorderFree | libtmux/server.py:180 | For a separator that cannot overlap itself, a value that does not contain the separator meets the round-trip condition. |
| Text.SingleCharBorderFree | libtmux/server.py:180 | A one-character separator cannot overlap itself. |
| Text.OverlappingSeparatorBreaksRoundTrip | libtmux/server.py:180 | Values free of the separator are not enough in general: with separator "aba", the join of "ab" and "c" splits into "" and "bac". |
| Formats.FormatString | libtmux/server.py:165-167 | The session and window `-F` string: the `#{field}` tokens joined by the separator. Formats.PaneFormatTrailing relates it to the pane string. |
| Formats.PaneFormatString | libtmux/server.py:300-302 | The pane `-F` string: every `#{field}` token followed by the separator. This matches line 300 for a separator without `%` (see "Left out"); Formats.PaneFormatTrailing states its shape. |
| Formats.PaneFormatTrailing | libtmux/server.py:300-302 | The pane `-F` string equals the separator-joined tokens followed by one extra separator. |
| Formats.ZipDict | libtmux/server.py:180 | Python's dictionary of zipped fields and pieces: every key is a field, and there are at most as many keys as the shorter of the two sequences. Formats.ZipDictSpec gives the exact keys and values. |
| Formats.ZipDictSpec | libtmux/server.py:180 | The zipped record has exactly the first min(fields, pieces) fields as keys, and each key maps to the piece at its last occurrence. |
| Formats.DecodeLine | libtmux/server.py:179-187 | A decoded session or window line has only requested fields as keys and no empty value. |
| Formats.DecodePaneLine | libtmux/server.py:318-330 | A decoded pane line has only requested fields as keys, and its only possibly empty value is `pane_current_path`. |
| Formats.DecodeLineSpec | libtmux/server.py:179-187 | A decoded line maps field i to piece i when that piece is non-empty. The field is absent when the piece is empty. This holds for i below min(fields, pieces); no other key appears and no value is empty. |
| Formats.DecodePaneLineSpec | libtmux/server.py:318-330 | The same rule for panes, except that `pane_current_path` stays with its piece even when that piece is empty. |
| Formats.DecodeRoundTrip | libtmux/server.py:246-254 | For distinct fields and splittable values, decoding the joined line gives exactly the non-empty field/value pairs; empty values are absent. |
| Formats.DecodeRoundTripBorderFree | libtmux/server.py:179-187 | With a separator that cannot overlap itself (any one-character one, for instance), values that do not contain it decode back to exactly the non-empty field/value pairs. |
| Formats.PaneDecodeRoundTrip | libtmux/server.py:300-330 | For the pane line with its trailing separator, the extra piece vanishes. Non-empty values map to their fields, and `pane_current_path` is kept as "" when empty. |
| Records.BackfillWindowIds | libtmux/server.py:256-259 | Success exactly when every record has a `window_id` or a `window_name`, else KeyError("window_name"). On success each record gains a `window_id`: its own, or else its `window_name`. Nothing else changes and the order is kept. |
| Records.BackfilledIdNonEmpty | libtmux/server.py:252-259 | A backfilled record decoded with empty values dropped has a non-empty `window_id`. |
| Records.Attached | libtmux/server.py:363-368 | The attached sessions: no more than were listed, each of them attached. Records.AttachedMultiset and Records.AttachedInOrder state that exactly the attached ones are kept, in order. |
| Records.FilterAttached | libtmux/server.py:360-372 | The result is None exactly when no session is attached. Otherwise it is the attached sessions, never an empty list. |
| Records.AttachedEmpty | libtmux/server.py:372 | The attached list is empty exactly when every session has `session_attached` equal to "0". |
| Records.AttachedMultiset | libtmux/server.py:363-368 | The filter keeps every copy of each attached session (a missing key counts as attached) and nothing else. |
| Records.AttachedInOrder | libtmux/server.py:363-368 | The attached sessions keep their listing order. |
| Records.AttachedExample | libtmux/server.py:366 | Sessions with `session_attached` "0", "1", "0" leave only the second. |
| Commands.GlobalFlags | libtmux/server.py:133-146 | The flags fail exactly for a truthy colour depth other than 256 and 88, with the ValueError message. On success there is one flag per truthy attribute. |
| Commands.CommandLine | libtmux/server.py:133-148 | The argv fails exactly when the colour depth is unusable. Otherwise it is the global flags followed by the caller's arguments unchanged. |
| Commands.GlobalFlagsOrder | libtmux/server.py:134-146 | The global flags come in the order colour, `-f`, `-S`, `-L`: the reverse of the order in which they are inserted at the front. |
| Commands.GlobalFlagsPresence | libtmux/server.py:134-146 | `-2` is present exactly when colors is 256 and `-8` exactly when it is 88. Each of `-f`, `-S`, `-L` carrying its value is present exactly when that attribute is truthy. |
| Commands.HasSessionTarget | libtmux/server.py:397-398 | The target gets a leading `=` exactly when the match is exact and tmux is 2.1 or later; the name itself follows unchanged. |
| Commands.GeometryAsWritten | libtmux/server.py:572-597 | Whether `new_session` sends `-x 800 -y 600` as the code is written: on tmux 2.6 or later, unless TMUX is set but empty. A non-empty TMUX is deleted before the test, so it does not suppress the geometry. Stated by Commands.GeometryAsWrittenInsideClient and Commands.SendsGeometryCorrected. |
| Commands.SendsGeometry | libtmux/server.py:594-597 | Whether the geometry is sent by the rule the comment describes: on tmux 2.6 or later and only outside a client. Stated by Commands.SendsGeometryCorrected. |
| Commands.GeometryAsWrittenInsideClient | libtmux/server.py:572-597 | For every non-empty TMUX, the code as written sends `-x 800 -y 600` exactly when tmux is 2.6 or later, as if TMUX were unset; for example from a client on the default socket. |
| Commands.SendsGeometryCorrected | libtmux/server.py:594-597 | The corrected rule never sends the geometry inside a client, and agrees with the code as written outside one. |
| Commands.NewSessionArgsParse | libtmux/server.py:577-600 | Reading the `new_session` argument tuple back recovers every option: the format; the name, kept even when empty; detached exactly when not attaching; a start directory and window name when truthy; whether the geometry was sent; and a truthy window command. |
| Commands.NewSessionArgs | libtmux/server.py:577-600 | The ordered `new_session` argument tuple. Commands.NewSessionArgsParse states that it can be read back into every option. |
| Commands.CheckStderr | libtmux/server.py:431-432 | A reply fails exactly when it has stderr lines, with a LibTmuxException carrying them. |
| TmuxServer.RecordList.Clear | libtmux/server.py:261-262 | The list object is emptied in place. |
| TmuxServer.RecordList.Extend | libtmux/server.py:264 | The records are appended to the list in place. |
| TmuxServer.RecordList.Replace | libtmux/server.py:261-264 | After clearing and extending, the same list object holds exactly the new records. |
| TmuxServer.Server.constructor | libtmux/server.py:94-116 | Only truthy connection attributes are kept; both record lists are fresh, distinct and empty; no command has run. |
| TmuxServer.Server.Cmd | libtmux/server.py:118-148 | An unusable colour depth raises ValueError and runs nothing. Otherwise the argv is the global flags followed by the arguments; it is run and logged, and its reply is returned. |
| TmuxServer.Server.ListSessions | libtmux/server.py:150-189 | Runs `list-sessions -F<fmt>` and raises on stderr. Otherwise it returns one decoded record per output line, in order. |
| TmuxServer.Server.ListWindows | libtmux/server.py:215-266 | Runs `list-windows -a -F<fmt>` and raises on stderr or on a record without id and name. Otherwise `_windows` holds exactly the backfilled records in output order and is itself returned. On error the list is unchanged; `_panes` is never touched. |
| TmuxServer.Server.ListPanes | libtmux/server.py:279-337 | Runs `list-panes -a -F<fmt>` with a trailing separator and raises on stderr. Otherwise `_panes` holds exactly the decoded records in output order and is itself returned. On error the list is unchanged; `_windows` is never touched. |
| TmuxServer.Server.AttachedSessions | libtmux/server.py:351-372 | Runs the session listing and propagates its errors. Otherwise it returns the attached sessions in listing order, or None when there are none. |
| TmuxServer.Server.HasSession | libtmux/server.py:374-405 | A rejected name raises BadSessionName and runs nothing. Otherwise it runs `has-session` on the possibly `=`-prefixed target, and the session exists exactly when the exit code is 0. |
| TmuxServer.Server.KillSession | libtmux/server.py:411-434 | Runs `kill-session -t<target>` and raises exactly when tmux wrote to stderr. |
| TmuxServer.Server.SwitchClient | libtmux/server.py:436-454 | A rejected name raises and runs nothing. Otherwise it runs `switch-client -t<target>` and raises exactly on stderr. |
| TmuxServer.Server.AttachSession | libtmux/server.py:456-477 | A rejected name raises and runs nothing. Otherwise it runs `attach-session`, with `-t<target>` only for a truthy target, and raises exactly on stderr. |
| TmuxServer.Server.MakeRoom | libtmux/server.py:555-565 | A named session is probed with an exact `has-session`. A live session raises TmuxSessionExists after the probe alone, or is killed by `kill-session -t<name>` when asked; tmux's answer to the kill is not checked. |
| TmuxServer.Server.CreateArgs | libtmux/server.py:572-600 | The `new-session` command line as written: `-P`, `-F<fmt>`, `-s<name>`, `-d`, `-c dir`, `-n name`, the geometry, then the window command. The geometry is decided by `GeometryAsWritten`, so it is also sent from inside a client. Its content is stated by Commands.NewSessionArgsParse and TmuxServer.Server.CreateArgsCorrectedDiffers. |
| TmuxServer.Server.CreateArgsCorrected | libtmux/server.py:594-597 | The same command line with the geometry decided by the corrected rule `SendsGeometry`: never sent from inside a client. |
| TmuxServer.Server.CreateArgsCorrectedDiffers | libtmux/server.py:572-597 | The two command lines are equal unless tmux is 2.6 or later and TMUX is non-empty. In that case the command line as written is four arguments longer and reads back as a request for the geometry; the corrected one reads back without it. |
| TmuxServer.Server.NewSessionTuple | libtmux/server.py:577-600 | The argument tuple built option by option equals the ordered `new-session` command line as written (`CreateArgs`), the geometry included whenever `GeometryAsWritten` holds: on tmux 2.6 or later unless TMUX is set but empty. |
| TmuxServer.Server.Created | libtmux/server.py:604-618 | stderr is looked at first: any line on it raises LibTmuxException carrying it. A clean reply without output lines raises IndexError. Otherwise the record is the first output line decoded against the session fields, so its keys are session fields and no value is empty. |
| TmuxServer.Server.NewSession | libtmux/server.py:555-618 | It checks the name, then the colour depth, before running anything. It refuses a live name without creating anything. Otherwise the log gains the probe, the kill of a live session, and `new-session` last, its command line being `CreateArgs`, with the geometry rule as written. The result is that command's first stdout line decoded, or LibTmuxException on stderr, or IndexError on empty stdout. |

## Left out

- Spawning tmux (`tmux_cmd` in `libtmux/common.py`) is not part of this model. It is the oracle `respond`, so nothing is said about the subprocess itself or about keyword arguments that `cmd` forwards to it.
- `has_gte_version` and `session_check_name` (`libtmux/common.py`) are not part of this model. They are functions given to the server (`hasGteVersion`, `sessionCheckName`), and their rules are not modelled.
- `FORMAT_SEPARATOR` and the `SESSION_FORMATS`, `WINDOW_FORMATS` and `PANE_FORMATS` lists (`libtmux/formats.py`) are not part of this model. They are the constructor argument `formats`; the separator is any non-empty string (for a `%` in it, see the Formats.PaneFormatString line below).
- The TMUX environment variable handling of `new_session` is global process state: TMUX is deleted before the command when non-empty, and restored afterwards only on the success path. The model takes only the caller's TMUX value, `tmuxEnv`. Its one effect inside the method, deciding the geometry after the deletion, is modelled as written (`GeometryAsWritten`); the deletion and restoring themselves are not.
- Building `Session` objects from records (`list_sessions`, `sessions`, `attached_sessions`, `new_session`) is not modelled. Records stop at the decoded field/value map, and `libtmux/session.py` is not part of this model.
- `_sessions`, `list_sessions` and `sessions` are wrappers that add nothing to `ListSessions` besides Session objects. `_update_windows` and `_update_panes` only call the listings and return the server.
- `kill_server` passes `kill-server` straight through with no check. `EnvironmentMixin` and logging are left out.
- TmuxServer.Server.KillSession: the target is a string; the integer targets the source also accepts are formatted into the same `-t` argument and are not modelled separately.
- TmuxServer.Server.NewSessionTuple: the geometry values 800 and 600 are passed to tmux as integers and stringified by the subprocess layer; the model writes them as the strings "800" and "600".
- Formats.PaneFormatString: models line 300 only for a separator without `%`. The source builds each pane token by two rounds of Python `%`-formatting, and the second round reads the separator as a template. There a `%%` collapses to `%`, so tmux is asked for a different separator than the one the output is split on. Any other `%` raises TypeError or ValueError before tmux is run. The model always appends the separator unchanged.
- Formats.PaneFormatTrailing: states the pane `-F` string's shape for the model above, so for a separator containing `%` it does not describe what line 300 sends (see the previous line).
- Commands.NewSessionArgsParse: holds only for a window command that does not begin with `-`, because such a command is indistinguishable from an option when the tuple is read back.
- Dictionary insertion order of records is not modelled; records are maps.
- The name check that `has_session` repeats inside `new_session` is modelled (`MakeRoom` calls `HasSession`), and it always passes there because the same name has just passed it.

## Findings

| source | as written | input that shows it | evidently intended | confidence | as-written member | corrected member |
|---|---|---|---|---|---|---|
| libtmux/server.py:572-597 | TMUX is deleted from the environment when it is truthy (line 575) before line 596 tests whether TMUX is absent, so only an empty TMUX, which is not deleted, is still present when it is tested | `new_session()` on tmux 2.6 or later, called from inside a tmux client with TMUX="/tmp/tmux-1000/default,4242,0": `-x 800 -y 600` is still sent | as the comment at lines 594-595 says, no geometry when already inside a client, i.e. only when TMUX is unset | not executed | Commands.GeometryAsWritten | Commands.SendsGeometry |
