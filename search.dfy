/** The search box: an empty term shows the whole process list; any other term
    shows, in list order, the records whose lower-cased name contains the
    lower-cased term or whose pid, written in decimal, contains the term. */
module Search {
  import opened JavaLib
  import opened Tasklist

  /** The test applied to each record for a non-empty term; every record
      matches the empty term. */
  predicate Matches(p: ProcessModel, term: string): (b: bool)
    ensures term == [] ==> b
  {
    Contains(ToLower(p.name), ToLower(term)) || Contains(IntToString(p.pid), term)
  }

  /** The records of `list` that match `term`, in list order: listed
      records only, at most as many as the list holds. */
  function Selected(list: seq<ProcessModel>, term: string): (r: seq<ProcessModel>)
    ensures |r| <= |list|
    ensures forall x :: x in r ==> x in list
  {
    if list == [] then []
    else
      var last := list[|list| - 1];
      Selected(list[..|list| - 1], term) + (if Matches(last, term) then [last] else [])
  }

  /** What the table shows for `term`: listed records only, at most as many
      as the list holds. */
  function Filter(list: seq<ProcessModel>, term: string): (r: seq<ProcessModel>)
    ensures |r| <= |list|
    ensures forall x :: x in r ==> x in list
  {
    if term == [] then list else Selected(list, term)
  }

  /** The positions of the matching records, in increasing order. */
  function MatchingIndices(list: seq<ProcessModel>, term: string): seq<nat> {
    if list == [] then []
    else
      MatchingIndices(list[..|list| - 1], term) + (if Matches(list[|list| - 1], term) then [|list| - 1] else [])
  }

  /** `idx` picks `xs` out of `ys` at strictly increasing positions. */
  predicate Embeds(idx: seq<nat>, xs: seq<ProcessModel>, ys: seq<ProcessModel>) {
    && |idx| == |xs|
    && (forall k :: 0 <= k < |idx| ==> idx[k] < |ys| && xs[k] == ys[idx[k]])
    && (forall j, k :: 0 <= j < k < |idx| ==> idx[j] < idx[k])
  }

  /** `xs` is `ys` with some elements left out and the rest in order. */
  ghost predicate IsSubsequence(xs: seq<ProcessModel>, ys: seq<ProcessModel>) {
    exists idx :: Embeds(idx, xs, ys)
  }

  // ---------------------------------------------------------------------

  /** The matching positions are exactly the positions of matching records. */
  lemma {:induction false} MatchingIndicesExact(list: seq<ProcessModel>, term: string)
    ensures forall j :: j in MatchingIndices(list, term) ==> j < |list|
    ensures forall i :: 0 <= i < |list| ==> (i in MatchingIndices(list, term) <==> Matches(list[i], term))
    decreases |list|
  {
    if list != [] {
      var init := list[..|list| - 1];
      MatchingIndicesExact(init, term);
      var idx0 := MatchingIndices(init, term);
      var tail := if Matches(list[|list| - 1], term) then [|list| - 1] else [];
      assert MatchingIndices(list, term) == idx0 + tail;
      forall i | 0 <= i < |list|
        ensures i in idx0 + tail <==> Matches(list[i], term)
      {
        if i < |list| - 1 {
          assert list[i] == init[i];
        }
      }
    }
  }

  /** An embedding into a list still embeds after the list grows by one, and
      also when the new element is taken as well. */
  lemma EmbedsGrow(idx: seq<nat>, xs: seq<ProcessModel>, init: seq<ProcessModel>, last: ProcessModel)
    requires Embeds(idx, xs, init)
    ensures Embeds(idx, xs, init + [last])
    ensures Embeds(idx + [|init|], xs + [last], init + [last])
  {
    var list := init + [last];
    assert forall k :: 0 <= k < |idx| ==> list[idx[k]] == init[idx[k]];
    var idx1 := idx + [|init|];
    var xs1 := xs + [last];
    assert forall k :: 0 <= k < |idx| ==> idx1[k] == idx[k] && xs1[k] == xs[k];
  }

  /** The selection takes the records at the matching positions, in
      increasing order (which positions those are is `MatchingIndicesExact`). */
  lemma {:induction false} SelectedAtMatchingIndices(list: seq<ProcessModel>, term: string)
    ensures Embeds(MatchingIndices(list, term), Selected(list, term), list)
    decreases |list|
  {
    if list != [] {
      var init := list[..|list| - 1];
      var last := list[|list| - 1];
      SelectedAtMatchingIndices(init, term);
      EmbedsGrow(MatchingIndices(init, term), Selected(init, term), init, last);
      assert list == init + [last];
    }
  }

  /** The filter result is an order-preserving subsequence of the list. */
  lemma SelectedIsSubsequence(list: seq<ProcessModel>, term: string)
    ensures IsSubsequence(Selected(list, term), list)
  {
    SelectedAtMatchingIndices(list, term);
  }

  /** A record is shown exactly when it is in the list and matches. */
  lemma {:induction false} SelectedMembers(list: seq<ProcessModel>, term: string, p: ProcessModel)
    ensures p in Selected(list, term) <==> p in list && Matches(p, term)
    decreases |list|
  {
    if list != [] {
      var init := list[..|list| - 1];
      SelectedMembers(init, term, p);
      assert list == init + [list[|list| - 1]];
    }
  }

  /** Every record matches the empty term, so the shortcut taken for it
      shows the same list as the general rule would. */
  lemma {:induction false} EmptyTermSelectsAll(list: seq<ProcessModel>)
    ensures Selected(list, []) == list
    decreases |list|
  {
    if list != [] {
      EmptyTermSelectsAll(list[..|list| - 1]);
      assert StartsWith(ToLower(list[|list| - 1].name), ToLower([]));
    }
  }

  /** The filter is the general rule for every term, the empty one included. */
  lemma FilterSelects(list: seq<ProcessModel>, term: string)
    ensures Filter(list, term) == Selected(list, term)
  {
    if term == [] {
      EmptyTermSelectsAll(list);
    }
  }

  /** A record is shown exactly when it is in the list and matches; the
      shown records keep their list order. */
  lemma FilterMembers(list: seq<ProcessModel>, term: string, p: ProcessModel)
    ensures p in Filter(list, term) <==> p in list && Matches(p, term)
    ensures IsSubsequence(Filter(list, term), list)
  {
    FilterSelects(list, term);
    SelectedMembers(list, term, p);
    SelectedIsSubsequence(list, term);
  }

  /** Typing a record's name, in any letter case, finds that record. */
  lemma FoundByName(list: seq<ProcessModel>, p: ProcessModel, term: string)
    requires p in list
    requires EqualsIgnoreCase(term, p.name)
    ensures p in Filter(list, term)
  {
    EqualsIgnoreCaseIffSameLower(term, p.name);
    assert StartsWith(ToLower(p.name), ToLower(term));
    FilterMembers(list, term, p);
  }

  /** Typing a record's pid finds that record. */
  lemma FoundByPid(list: seq<ProcessModel>, p: ProcessModel)
    requires p in list
    ensures p in Filter(list, IntToString(p.pid))
  {
    assert StartsWith(IntToString(p.pid), IntToString(p.pid));
    FilterMembers(list, IntToString(p.pid), p);
  }

  /** Filtering the shown list again with the same term changes nothing. */
  lemma {:induction false} SelectedIdempotent(list: seq<ProcessModel>, term: string)
    ensures Selected(Selected(list, term), term) == Selected(list, term)
    decreases |list|
  {
    if list != [] {
      var init := list[..|list| - 1];
      var last := list[|list| - 1];
      SelectedIdempotent(init, term);
      if Matches(last, term) {
        var s := Selected(init, term) + [last];
        assert Selected(list, term) == s;
        assert s[..|s| - 1] == Selected(init, term);
        assert s[|s| - 1] == last;
        assert Selected(s, term) == Selected(Selected(init, term), term) + [last];
      } else {
        assert Selected(list, term) == Selected(init, term);
      }
    }
  }

  lemma FilterIdempotent(list: seq<ProcessModel>, term: string)
    ensures Filter(Filter(list, term), term) == Filter(list, term)
  {
    SelectedIdempotent(list, term);
  }

  /** The pid is searched as text: a term that is only part of the pid's
      digits finds the record, and a pid that merely shares a prefix does not. */
  lemma PidSearchIsTextual()
    ensures Matches(ProcessModel("cmd.exe", 4321), "32")
    ensures !Matches(ProcessModel("cmd.exe", 4321), "4322")
  {
    assert NatToString(4) == "4";
    assert NatToString(43) == "43";
    assert NatToString(432) == "432";
    assert NatToString(4321) == "4321";
    var digits := IntToString(4321);
    assert digits == "4321";
    assert OccursAt(digits, "32", 1);
    ContainsIffOccurs(digits, "32");
    var other := "4322";
    forall i | 0 <= i <= |digits|
      ensures !OccursAt(digits, other, i)
    {
      if i + |other| <= |digits| {
        assert digits[i..i + |other|][3] == digits[3] != other[3];
      }
    }
    ContainsIffOccurs(digits, other);
    var lowered := ToLower("cmd.exe");
    assert ToLower(other) == other;
    forall i | 0 <= i <= |lowered|
      ensures !OccursAt(lowered, other, i)
    {
      if i + |other| <= |lowered| {
        assert lowered[i..i + |other|][0] == lowered[i] != other[0];
      }
    }
    ContainsIffOccurs(lowered, other);
  }
}
