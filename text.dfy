/**
  Python's `str.split(sep)` and `sep.join(xs)` on a non-empty separator, the two string
  operations the format codec is built from, and the conditions under which splitting
  undoes joining.
*/
module Text {

  /** `FORMAT_SEPARATOR`: Python refuses to split on an empty separator. */
  type Separator = s: string | |s| > 0 witness "|"

  /** An occurrence of `sep` in `s` starting at index `i`. */
  predicate SepAt(s: string, i: nat, sep: string)
  {
    i + |sep| <= |s| && s[i..i + |sep|] == sep
  }

  predicate Contains(s: string, sep: string)
  {
    exists i: nat | i <= |s| :: SepAt(s, i, sep)
  }

  /**
    No occurrence of `sep` begins inside `v` when `v` is followed by `sep`: the scan that
    splits `v + sep + ...` finds its first separator exactly at the junction.
  */
  predicate NoSepBefore(v: string, sep: string)
  {
    forall i: nat :: i < |v| ==> !SepAt(v + sep, i, sep)
  }

  /** `sep` has a border of length `k`: its first `k` characters equal its last `k`. */
  predicate Border(sep: string, k: nat)
  {
    k <= |sep| && sep[..k] == sep[|sep| - k..]
  }

  /** A separator that cannot overlap itself, such as any one-character separator. */
  predicate BorderFree(sep: string)
  {
    forall k: nat :: 0 < k < |sep| ==> !Border(sep, k)
  }

  /** Python's join of `xs` with `sep` between consecutive pieces. */
  function Join(sep: string, xs: seq<string>): string
  {
    if |xs| == 0 then ""
    else if |xs| == 1 then xs[0]
    else xs[0] + sep + Join(sep, xs[1..])
  }

  /**
    The left-to-right scan of `str.split`: `cur` is the piece collected so far; the first
    occurrence of `sep` closes it and the scan resumes after that occurrence, so
    occurrences never overlap.
  */
  function SplitFrom(s: string, sep: Separator, cur: string): (r: seq<string>)
    ensures |r| >= 1
    decreases |s|
  {
    if |s| < |sep| then [cur + s]
    else if s[..|sep|] == sep then [cur] + SplitFrom(s[|sep|..], sep, "")
    else SplitFrom(s[1..], sep, cur + [s[0]])
  }

  /** Python's split of `s` on `sep`: always at least one piece; the empty string gives one empty piece. */
  function Split(s: string, sep: Separator): (r: seq<string>)
    ensures |r| >= 1
  {
    SplitFrom(s, sep, "")
  }

  lemma {:induction false} JoinSplitFrom(s: string, sep: Separator, cur: string)
    ensures Join(sep, SplitFrom(s, sep, cur)) == cur + s
    decreases |s|
  {
    if |s| < |sep| {
    } else if s[..|sep|] == sep {
      var rest := SplitFrom(s[|sep|..], sep, "");
      JoinSplitFrom(s[|sep|..], sep, "");
      assert Join(sep, [cur] + rest) == cur + sep + Join(sep, rest) by {
        assert ([cur] + rest)[1..] == rest;
      }
      assert s == s[..|sep|] + s[|sep|..];
    } else {
      JoinSplitFrom(s[1..], sep, cur + [s[0]]);
      assert s == [s[0]] + s[1..];
    }
  }

  /** Joining the pieces of a split gives back the line: splitting loses nothing. */
  lemma JoinSplit(s: string, sep: Separator)
    ensures Join(sep, Split(s, sep)) == s
  {
    JoinSplitFrom(s, sep, "");
  }

  lemma {:induction false} NoSepBeforeTail(v: string, sep: string)
    requires |v| > 0 && NoSepBefore(v, sep)
    ensures NoSepBefore(v[1..], sep)
  {
    forall i: nat | i < |v[1..]|
      ensures !SepAt(v[1..] + sep, i, sep)
    {
      assert !SepAt(v + sep, i + 1, sep);
      assert (v[1..] + sep) == (v + sep)[1..];
    }
  }

  /** A chunk with no separator before the junction comes out as one piece. */
  lemma {:induction false} SplitFromChunk(v: string, sep: Separator, rest: string, cur: string)
    requires NoSepBefore(v, sep)
    ensures SplitFrom(v + sep + rest, sep, cur) == [cur + v] + SplitFrom(rest, sep, "")
    decreases |v|
  {
    var s := v + sep + rest;
    if |v| == 0 {
      assert s == sep + rest;
      assert s[..|sep|] == sep && s[|sep|..] == rest;
      assert SplitFrom(s, sep, cur) == [cur] + SplitFrom(rest, sep, "");
      assert cur + v == cur;
    } else {
      assert s[..|sep|] == (v + sep)[0..|sep|];
      assert !SepAt(v + sep, 0, sep);
      NoSepBeforeTail(v, sep);
      assert s[1..] == v[1..] + sep + rest;
      SplitFromChunk(v[1..], sep, rest, cur + [v[0]]);
      assert cur + [v[0]] + v[1..] == cur + v;
    }
  }

  /** The last chunk, with no separator in it, is one piece. */
  lemma {:induction false} SplitFromLast(v: string, sep: Separator, cur: string)
    requires NoSepBefore(v, sep)
    ensures SplitFrom(v, sep, cur) == [cur + v]
    decreases |v|
  {
    if |v| >= |sep| {
      assert v[..|sep|] == (v + sep)[0..|sep|];
      assert !SepAt(v + sep, 0, sep);
      NoSepBeforeTail(v, sep);
      SplitFromLast(v[1..], sep, cur + [v[0]]);
      assert cur + [v[0]] + v[1..] == cur + v;
    }
  }

  /**
    Round trip: splitting a join gives the joined values back, provided no separator
    occurrence starts inside a value. Values may be empty.
  */
  lemma {:induction false} SplitJoin(values: seq<string>, sep: Separator)
    requires |values| >= 1
    requires forall i :: 0 <= i < |values| ==> NoSepBefore(values[i], sep)
    ensures Split(Join(sep, values), sep) == values
    decreases |values|
  {
    if |values| == 1 {
      SplitFromLast(values[0], sep, "");
      assert "" + values[0] == values[0];
      assert [values[0]] == values;
    } else {
      var tail := values[1..];
      assert forall i :: 0 <= i < |tail| ==> NoSepBefore(tail[i], sep) by {
        forall i | 0 <= i < |tail| ensures NoSepBefore(tail[i], sep) {
          assert tail[i] == values[i + 1];
        }
      }
      assert Join(sep, values) == values[0] + sep + Join(sep, tail);
      SplitFromChunk(values[0], sep, Join(sep, tail), "");
      SplitJoin(tail, sep);
      assert "" + values[0] == values[0];
      assert [values[0]] + tail == values;
    }
  }

  lemma {:induction false} JoinSnoc(sep: string, xs: seq<string>, x: string)
    requires |xs| >= 1
    ensures Join(sep, xs + [x]) == Join(sep, xs) + sep + x
    decreases |xs|
  {
    if |xs| == 1 {
      assert (xs + [x])[1..] == [x];
    } else {
      assert (xs + [x])[1..] == xs[1..] + [x];
      JoinSnoc(sep, xs[1..], x);
    }
  }

  /**
    A line in which every value is followed by the separator (the pane listing's format)
    splits into the values plus one trailing empty piece.
  */
  lemma SplitTrailing(values: seq<string>, sep: Separator)
    requires |values| >= 1
    requires forall i :: 0 <= i < |values| ==> NoSepBefore(values[i], sep)
    ensures Split(Join(sep, values) + sep, sep) == values + [""]
  {
    JoinSnoc(sep, values, "");
    assert Join(sep, values) + sep + "" == Join(sep, values) + sep;
    var vs := values + [""];
    forall i | 0 <= i < |vs| ensures NoSepBefore(vs[i], sep) {
      if i < |values| { assert vs[i] == values[i]; }
    }
    SplitJoin(vs, sep);
  }

  /**
    With a separator that cannot overlap itself, "the value does not contain the
    separator" is enough for the round trip.
  */
  lemma NoSepBeforeOfBorderFree(v: string, sep: string)
    requires |sep| > 0 && BorderFree(sep) && !Contains(v, sep)
    ensures NoSepBefore(v, sep)
  {
    forall i: nat | i < |v|
      ensures !SepAt(v + sep, i, sep)
    {
      if i + |sep| <= |v| {
        assert (v + sep)[i..i + |sep|] == v[i..i + |sep|];
        assert !SepAt(v, i, sep);
      } else {
        // an occurrence straddling the junction would make sep overlap itself
        var k := |v| - i;
        var m := |sep| - k;
        var w := (v + sep)[i..i + |sep|];
        assert w[k..] == sep[..m];
        assert !Border(sep, m);
      }
    }
  }

  /** A one-character separator cannot overlap itself. */
  lemma SingleCharBorderFree(sep: string)
    requires |sep| == 1
    ensures BorderFree(sep)
  {
  }

  /**
    "No value contains the separator" is not enough on its own: with the self-overlapping
    separator "aba", neither "ab" nor "c" contains it, yet the split of their join differs.
  */
  lemma OverlappingSeparatorBreaksRoundTrip()
    ensures !Contains("ab", "aba") && !Contains("c", "aba")
    ensures Split(Join("aba", ["ab", "c"]), "aba") == ["", "bac"]
  {
    var s := Join("aba", ["ab", "c"]);
    assert s == "ababac";
    assert s[..3] == "aba" && s[3..] == "bac";
    assert SplitFrom(s, "aba", "") == [""] + SplitFrom("bac", "aba", "");
    assert "bac"[0] != "aba"[0];
    assert "bac"[1..] == "ac" && "" + ['b'] == "b";
    assert SplitFrom("bac", "aba", "") == SplitFrom("ac", "aba", "b");
    assert SplitFrom("ac", "aba", "b") == ["b" + "ac"];
    assert "b" + "ac" == "bac";
  }
}
