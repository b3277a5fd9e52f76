/**
  The format codec of the server adapter: the `-F` strings built from `#{field}` tokens,
  and the decoding of each output line into a record, i.e. `dict(zip(fields,
  line.split(FORMAT_SEPARATOR)))` followed by the filter that drops empty values.
*/
module Formats {
  import opened Text

  /** A decoded listing line: field name to value. */
  type Record = map<string, string>

  /** The one field the pane tier keeps even when tmux reports it empty. */
  const PaneCurrentPath: string := "pane_current_path"

  /** The fields requested by `list-windows`: the parent session's, then the window schema. */
  function WindowFields(windowFormats: seq<string>): seq<string>
  {
    ["session_name", "session_id"] + windowFormats
  }

  /** The fields requested by `list-panes`: the parent session's and window's, then the pane schema. */
  function PaneFields(paneFormats: seq<string>): seq<string>
  {
    ["session_name", "session_id", "window_index", "window_id", "window_name"] + paneFormats
  }

  /** The tmux format token that expands to a field. */
  function Token(field: string): string
  {
    "#{" + field + "}"
  }

  function Tokens(fields: seq<string>): seq<string>
  {
    seq(|fields|, i requires 0 <= i < |fields| => Token(fields[i]))
  }

  /** The `-F` string of the session and window tiers: tokens joined by the separator. */
  function FormatString(fields: seq<string>, sep: string): string
  {
    Join(sep, Tokens(fields))
  }

  /** The `-F` string of the pane tier: every token followed by the separator, then joined by "". */
  function PaneFormatString(fields: seq<string>, sep: string): string
  {
    if |fields| == 0 then "" else Token(fields[0]) + sep + PaneFormatString(fields[1..], sep)
  }

  /**
    The pane format is the plain format with one extra separator at the end, so tmux's
    output line for it carries one extra (empty) trailing piece.
  */
  lemma {:induction false} PaneFormatTrailing(fields: seq<string>, sep: string)
    requires |fields| >= 1
    ensures PaneFormatString(fields, sep) == FormatString(fields, sep) + sep
    decreases |fields|
  {
    if |fields| == 1 {
      assert Tokens(fields) == [Token(fields[0])];
      assert PaneFormatString(fields[1..], sep) == "";
    } else {
      PaneFormatTrailing(fields[1..], sep);
      assert Tokens(fields) == [Token(fields[0])] + Tokens(fields[1..]);
      assert Tokens(fields)[1..] == Tokens(fields[1..]);
    }
  }

  function Min(a: nat, b: nat): nat
  {
    if a <= b then a else b
  }

  /**
    Python's dictionary of zipped keys and values: pairing stops at the shorter
    sequence, and a key that occurs twice takes its later value.
  */
  function ZipDict(keys: seq<string>, vals: seq<string>): (r: Record)
    ensures forall k :: k in r ==> k in keys
    ensures |r| <= Min(|keys|, |vals|)
    decreases |keys|
  {
    var n := Min(|keys|, |vals|);
    if n == 0 then map[] else ZipDict(keys[..n - 1], vals[..n - 1])[keys[n - 1] := vals[n - 1]]
  }

  /** No later key among the first `n` repeats `keys[i]`. */
  predicate LastOccurrence(keys: seq<string>, i: nat, n: nat)
    requires i < n <= |keys|
  {
    forall j :: i < j < n ==> keys[j] != keys[i]
  }

  /** The record without its empty values. */
  function DropEmpty(d: Record): Record
  {
    map k | k in d && d[k] != "" :: d[k]
  }

  /** The record without its empty values, except that `pane_current_path` stays even when empty. */
  function DropEmptyKeepPath(d: Record): Record
  {
    map k | k in d && (d[k] != "" || k == PaneCurrentPath) :: d[k]
  }

  /** One line of `list-sessions`, `list-windows` or `new-session -P` output, decoded. */
  function DecodeLine(fields: seq<string>, line: string, sep: Separator): (r: Record)
    ensures forall k :: k in r ==> k in fields && r[k] != ""
  {
    DropEmpty(ZipDict(fields, Split(line, sep)))
  }

  /** One line of `list-panes` output, decoded. */
  function DecodePaneLine(fields: seq<string>, line: string, sep: Separator): (r: Record)
    ensures forall k :: k in r ==> k in fields && (r[k] != "" || k == PaneCurrentPath)
  {
    DropEmptyKeepPath(ZipDict(fields, Split(line, sep)))
  }

  function DecodeLines(fields: seq<string>, lines: seq<string>, sep: Separator): seq<Record>
  {
    seq(|lines|, i requires 0 <= i < |lines| => DecodeLine(fields, lines[i], sep))
  }

  function DecodePaneLines(fields: seq<string>, lines: seq<string>, sep: Separator): seq<Record>
  {
    seq(|lines|, i requires 0 <= i < |lines| => DecodePaneLine(fields, lines[i], sep))
  }

  /**
    The keys of `ZipDict(keys, vals)` are the first `min(|keys|, |vals|)` keys, and each
    maps to the value paired with its last occurrence.
  */
  lemma {:induction false} ZipDictSpec(keys: seq<string>, vals: seq<string>)
    ensures var n := Min(|keys|, |vals|);
            forall k :: k in ZipDict(keys, vals) <==> k in keys[..n]
    ensures var n := Min(|keys|, |vals|);
            forall i :: 0 <= i < n && LastOccurrence(keys, i, n) ==>
              ZipDict(keys, vals)[keys[i]] == vals[i]
    decreases |keys|
  {
    var n := Min(|keys|, |vals|);
    if n > 0 {
      var ks, vs := keys[..n - 1], vals[..n - 1];
      ZipDictSpec(ks, vs);
      assert Min(|ks|, |vs|) == n - 1;
      assert ks[..n - 1] == ks;
      assert keys[..n] == ks + [keys[n - 1]];
      var d := ZipDict(keys, vals);
      forall i | 0 <= i < n && LastOccurrence(keys, i, n)
        ensures d[keys[i]] == vals[i]
      {
        if i < n - 1 {
          assert keys[n - 1] != keys[i];
          assert LastOccurrence(ks, i, n - 1);
          assert ks[i] == keys[i] && vs[i] == vals[i];
        }
      }
    }
  }

  /**
    Decoding one line: for every requested field up to the shorter of the field list
    and the split line, the field maps to its piece when the piece is non-empty and is
    absent when it is empty; no other key appears and no value is empty.
  */
  lemma DecodeLineSpec(fields: seq<string>, line: string, sep: Separator)
    ensures var pieces, r := Split(line, sep), DecodeLine(fields, line, sep);
            var n := Min(|fields|, |pieces|);
            && (forall k :: k in r ==> k in fields[..n] && r[k] != "")
            && (forall i :: 0 <= i < n && LastOccurrence(fields, i, n) ==>
                  (pieces[i] != "" ==> fields[i] in r && r[fields[i]] == pieces[i]) &&
                  (pieces[i] == "" ==> fields[i] !in r))
  {
    ZipDictSpec(fields, Split(line, sep));
    var n := Min(|fields|, |Split(line, sep)|);
    forall i | 0 <= i < n ensures fields[i] in fields[..n] {
      assert fields[..n][i] == fields[i];
    }
  }

  /**
    The pane variant: identical, except that `pane_current_path` is kept with its value
    even when that value is empty.
  */
  lemma DecodePaneLineSpec(fields: seq<string>, line: string, sep: Separator)
    ensures var pieces, r := Split(line, sep), DecodePaneLine(fields, line, sep);
            var n := Min(|fields|, |pieces|);
            && (forall k :: k in r ==> k in fields[..n] && (r[k] != "" || k == PaneCurrentPath))
            && (forall i :: 0 <= i < n && LastOccurrence(fields, i, n) ==>
                  (pieces[i] != "" || fields[i] == PaneCurrentPath ==>
                     fields[i] in r && r[fields[i]] == pieces[i]) &&
                  (pieces[i] == "" && fields[i] != PaneCurrentPath ==> fields[i] !in r))
  {
    ZipDictSpec(fields, Split(line, sep));
    var n := Min(|fields|, |Split(line, sep)|);
    forall i | 0 <= i < n ensures fields[i] in fields[..n] {
      assert fields[..n][i] == fields[i];
    }
  }

  /** Field names requested once each. */
  predicate Distinct(fields: seq<string>)
  {
    forall i, j :: 0 <= i < j < |fields| ==> fields[i] != fields[j]
  }

  /** The values tmux can print without upsetting the split. */
  predicate Splittable(values: seq<string>, sep: Separator)
  {
    forall i :: 0 <= i < |values| ==> NoSepBefore(values[i], sep)
  }

  /**
    Round trip of the session and window tiers: decoding the line tmux prints for
    distinct fields and separator-free values gives exactly the non-empty field/value
    pairs.
  */
  lemma DecodeRoundTrip(fields: seq<string>, values: seq<string>, sep: Separator)
    requires |values| == |fields| && Distinct(fields) && Splittable(values, sep)
    ensures var r := DecodeLine(fields, Join(sep, values), sep);
            && (forall k :: k in r ==> k in fields)
            && (forall i :: 0 <= i < |fields| ==>
                  (values[i] != "" ==> fields[i] in r && r[fields[i]] == values[i]) &&
                  (values[i] == "" ==> fields[i] !in r))
  {
    var line := Join(sep, values);
    DecodeLineSpec(fields, line, sep);
    if |fields| > 0 {
      SplitJoin(values, sep);
      assert fields[..|fields|] == fields;
    }
  }

  /**
    The round trip in its plain form: with a separator that cannot overlap itself (any
    one-character separator, for instance), values that do not contain the separator
    decode back to exactly the non-empty field/value pairs.
  */
  lemma DecodeRoundTripBorderFree(fields: seq<string>, values: seq<string>, sep: Separator)
    requires |values| == |fields| && Distinct(fields) && BorderFree(sep)
    requires forall i :: 0 <= i < |values| ==> !Contains(values[i], sep)
    ensures var r := DecodeLine(fields, Join(sep, values), sep);
            && (forall k :: k in r ==> k in fields)
            && (forall i :: 0 <= i < |fields| ==>
                  (values[i] != "" ==> fields[i] in r && r[fields[i]] == values[i]) &&
                  (values[i] == "" ==> fields[i] !in r))
  {
    forall i | 0 <= i < |values| ensures NoSepBefore(values[i], sep) {
      NoSepBeforeOfBorderFree(values[i], sep);
    }
    DecodeRoundTrip(fields, values, sep);
  }

  /**
    Round trip of the pane tier, whose line ends in an extra separator: the extra empty
    piece has no field to pair with and disappears; every empty value is dropped except
    `pane_current_path`, which is kept as "".
  */
  lemma PaneDecodeRoundTrip(fields: seq<string>, values: seq<string>, sep: Separator)
    requires |values| == |fields| >= 1 && Distinct(fields) && Splittable(values, sep)
    ensures var r := DecodePaneLine(fields, Join(sep, values) + sep, sep);
            && (forall k :: k in r ==> k in fields)
            && (forall i :: 0 <= i < |fields| ==>
                  (values[i] != "" || fields[i] == PaneCurrentPath ==>
                     fields[i] in r && r[fields[i]] == values[i]) &&
                  (values[i] == "" && fields[i] != PaneCurrentPath ==> fields[i] !in r))
  {
    var line := Join(sep, values) + sep;
    SplitTrailing(values, sep);
    DecodePaneLineSpec(fields, line, sep);
    var pieces := Split(line, sep);
    assert Min(|fields|, |pieces|) == |fields|;
    assert fields[..|fields|] == fields;
    forall i | 0 <= i < |fields| ensures pieces[i] == values[i] {
      assert pieces == values + [""];
    }
  }
}
