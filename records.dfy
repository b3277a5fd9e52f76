/**
  Post-processing of decoded records: the window-id backfill of the window listing and
  the attached-sessions filter.
*/
module Records {
  import opened Wrappers
  import opened Formats

  /** The backfill can run on `w` without a `KeyError`. */
  predicate HasIdOrName(w: Record)
  {
    "window_id" in w || "window_name" in w
  }

  /**
    `w2` is `w` after the backfill: it has a `window_id`, which is `w`'s own if `w` had
    one and `w`'s `window_name` otherwise, and every other key is as in `w`.
  */
  predicate Backfilled(w: Record, w2: Record)
  {
    && HasIdOrName(w)
    && w2.Keys == w.Keys + {"window_id"}
    && w2["window_id"] == (if "window_id" in w then w["window_id"] else w["window_name"])
    && forall k :: k in w && k != "window_id" ==> w2[k] == w[k]
  }

  /**
    The loop of `_list_windows` that gives every record a `window_id`, taking the
    `window_name` where tmux (older than 1.8) supplied no id. A record with neither key
    raises `KeyError('window_name')`.
  */
  method BackfillWindowIds(ws: seq<Record>) returns (r: Result<seq<Record>, Error>)
    ensures r.Success? <==> forall i :: 0 <= i < |ws| ==> HasIdOrName(ws[i])
    ensures r.Failure? ==> r.error == KeyError("window_name")
    ensures r.Success? ==> |r.value| == |ws| &&
                           forall i :: 0 <= i < |ws| ==> Backfilled(ws[i], r.value[i])
  {
    var out: seq<Record> := [];
    for i := 0 to |ws|
      invariant |out| == i
      invariant forall j :: 0 <= j < i ==> HasIdOrName(ws[j]) && Backfilled(ws[j], out[j])
    {
      var w := ws[i];
      if "window_id" !in w {
        if "window_name" !in w {
          return Failure(KeyError("window_name"));
        }
        w := w["window_id" := w["window_name"]];
      }
      out := out + [w];
    }
    return Success(out);
  }

  /** A backfilled record built from decoded values carries a non-empty `window_id`. */
  lemma BackfilledIdNonEmpty(w: Record, w2: Record)
    requires forall k :: k in w ==> w[k] != ""
    requires Backfilled(w, w2)
    ensures "window_id" in w2 && w2["window_id"] != ""
  {
  }

  /** A session counts as attached unless its `session_attached` is "0"; one without the key counts too. */
  predicate IsAttached(session: Record)
  {
    "session_attached" !in session || session["session_attached"] != "0"
  }

  /** The attached sessions, in listing order. */
  function Attached(sessions: seq<Record>): (r: seq<Record>)
    ensures |r| <= |sessions|
    ensures forall i :: 0 <= i < |r| ==> IsAttached(r[i])
  {
    if |sessions| == 0 then []
    else
      var last := sessions[|sessions| - 1];
      Attached(sessions[..|sessions| - 1]) + (if IsAttached(last) then [last] else [])
  }

  /**
    The loop of `attached_sessions` with its `... or None`: the attached sessions in
    order, or `None` when there are none.
  */
  method FilterAttached(sessions: seq<Record>) returns (r: Option<seq<Record>>)
    ensures r.None? <==> forall i :: 0 <= i < |sessions| ==> !IsAttached(sessions[i])
    ensures r.Some? ==> r.value == Attached(sessions) && |r.value| > 0
  {
    var acc: seq<Record> := [];
    for i := 0 to |sessions|
      invariant acc == Attached(sessions[..i])
    {
      assert sessions[..i + 1][..i] == sessions[..i];
      if IsAttached(sessions[i]) {
        acc := acc + [sessions[i]];
      }
    }
    assert sessions[..|sessions|] == sessions;
    AttachedEmpty(sessions);
    if acc == [] {
      r := None;
    } else {
      r := Some(acc);
    }
  }

  lemma {:induction false} AttachedEmpty(sessions: seq<Record>)
    ensures Attached(sessions) == [] <==> forall i :: 0 <= i < |sessions| ==> !IsAttached(sessions[i])
    decreases |sessions|
  {
    if |sessions| > 0 {
      var init := sessions[..|sessions| - 1];
      AttachedEmpty(init);
      assert forall i :: 0 <= i < |init| ==> init[i] == sessions[i];
    }
  }

  /**
    The filter keeps every copy of each attached session and nothing else: in multiset
    terms, the attached sessions of the listing.
  */
  lemma {:induction false} AttachedMultiset(sessions: seq<Record>)
    ensures forall s :: multiset(Attached(sessions))[s] ==
                          if IsAttached(s) then multiset(sessions)[s] else 0
    decreases |sessions|
  {
    if |sessions| > 0 {
      var init, last := sessions[..|sessions| - 1], sessions[|sessions| - 1];
      AttachedMultiset(init);
      assert sessions == init + [last];
    }
  }

  /** `sub` is `s` with some elements left out, the rest in their original order. */
  predicate SubsequenceOf(sub: seq<Record>, s: seq<Record>)
    decreases |s|
  {
    if |sub| == 0 then true
    else if |s| == 0 then false
    else
      || (sub[|sub| - 1] == s[|s| - 1] && SubsequenceOf(sub[..|sub| - 1], s[..|s| - 1]))
      || SubsequenceOf(sub, s[..|s| - 1])
  }

  /** The attached sessions keep the listing's order. */
  lemma {:induction false} AttachedInOrder(sessions: seq<Record>)
    ensures SubsequenceOf(Attached(sessions), sessions)
    decreases |sessions|
  {
    if |sessions| > 0 {
      var init, last := sessions[..|sessions| - 1], sessions[|sessions| - 1];
      AttachedInOrder(init);
      var a := Attached(init);
      if IsAttached(last) {
        assert Attached(sessions) == a + [last];
        assert (a + [last])[..|a|] == a;
      } else {
        assert Attached(sessions) == a;
      }
    }
  }

  /** Three listed sessions with `session_attached` "0", "1", "0": only the second is attached. */
  lemma AttachedExample(a: Record, b: Record, c: Record)
    requires "session_attached" in a && a["session_attached"] == "0"
    requires "session_attached" in b && b["session_attached"] == "1"
    requires "session_attached" in c && c["session_attached"] == "0"
    ensures Attached([a, b, c]) == [b]
  {
    assert [a, b, c][..2] == [a, b];
    assert [a, b][..1] == [a];
    assert [a][..0] == [];
    assert Attached([a]) == [];
    assert Attached([a, b]) == [b];
  }
}
