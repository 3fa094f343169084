/**
 * The tag selection shared by the article and video listings: a list of
 * selected tags in a React state cell, replaced by `toggleTag`.
 */
module TagFilter {
  import opened Seqs

  /** The selection with every occurrence of `tag` filtered out, the rest in order. */
  function RemoveAll(selection: seq<string>, tag: string): (r: seq<string>)
    ensures tag !in r
    ensures forall u :: u != tag ==> multiset(r)[u] == multiset(selection)[u]
    ensures IsSubsequence(r, selection)
  {
    if |selection| == 0 then []
    else
      var rest := RemoveAll(selection[1..], tag);
      assert selection == [selection[0]] + selection[1..];
      if selection[0] == tag then
        assert IsSubsequence(rest, selection) by {
          if |rest| > 0 {
            assert IsSubsequence(rest, selection[1..]);
          }
        }
        rest
      else
        assert ([selection[0]] + rest)[1..] == rest;
        [selection[0]] + rest
  }

  /** `toggleTag(tag)`: remove every occurrence if selected, otherwise append. */
  function Toggled(selection: seq<string>, tag: string): (r: seq<string>)
  {
    if tag in selection then RemoveAll(selection, tag) else selection + [tag]
  }

  /**
   * After a toggle the tag is selected exactly when it was not before, and
   * every other tag keeps its membership.
   */
  lemma ToggleFlipsOnlyThatTag(selection: seq<string>, tag: string)
    ensures tag in Toggled(selection, tag) <==> tag !in selection
    ensures forall u :: u != tag ==> (u in Toggled(selection, tag) <==> u in selection)
  {
    if tag in selection {
      var r := RemoveAll(selection, tag);
      forall u | u != tag
        ensures u in r <==> u in selection
      {
        assert multiset(r)[u] == multiset(selection)[u];
      }
    }
  }

  /**
   * Toggling a selected tag drops all of its occurrences and keeps the other
   * tags, with their multiplicities, in their order; toggling an unselected
   * tag appends it at the end.
   */
  lemma ToggleShape(selection: seq<string>, tag: string)
    ensures tag in selection ==>
      var r := Toggled(selection, tag);
      tag !in r && IsSubsequence(r, selection)
      && forall u :: u != tag ==> multiset(r)[u] == multiset(selection)[u]
    ensures tag !in selection ==> Toggled(selection, tag) == selection + [tag]
  {
  }

  lemma {:induction false} RemoveAllAbsent(selection: seq<string>, tag: string)
    requires tag !in selection
    ensures RemoveAll(selection, tag) == selection
    decreases |selection|
  {
    if |selection| > 0 {
      RemoveAllAbsent(selection[1..], tag);
      assert selection == [selection[0]] + selection[1..];
    }
  }

  lemma {:induction false} RemoveAllAppend(selection: seq<string>, extra: seq<string>, tag: string)
    ensures RemoveAll(selection + extra, tag) == RemoveAll(selection, tag) + RemoveAll(extra, tag)
    decreases |selection|
  {
    if |selection| > 0 {
      assert (selection + extra)[1..] == selection[1..] + extra;
      RemoveAllAppend(selection[1..], extra, tag);
    } else {
      assert selection + extra == extra;
    }
  }

  /** Toggling an unselected tag twice restores the exact original list. */
  lemma ToggleTwiceAbsent(selection: seq<string>, tag: string)
    requires tag !in selection
    ensures Toggled(Toggled(selection, tag), tag) == selection
  {
    RemoveAllAppend(selection, [tag], tag);
    RemoveAllAbsent(selection, tag);
    assert RemoveAll([tag], tag) == [];
  }

  /**
   * Toggling a selected tag twice selects the same tags again, with the
   * tag moved to the end.
   */
  lemma ToggleTwicePresent(selection: seq<string>, tag: string)
    requires tag in selection
    ensures Toggled(Toggled(selection, tag), tag) == RemoveAll(selection, tag) + [tag]
    ensures forall u :: u in Toggled(Toggled(selection, tag), tag) <==> u in selection
  {
    ToggleFlipsOnlyThatTag(selection, tag);
    ToggleFlipsOnlyThatTag(Toggled(selection, tag), tag);
  }

  /** A selection without duplicates stays without duplicates. */
  lemma ToggleKeepsNoDuplicates(selection: seq<string>, tag: string)
    requires NoDuplicates(selection)
    ensures NoDuplicates(Toggled(selection, tag))
  {
    if tag in selection {
      SubsequenceNoDuplicates(RemoveAll(selection, tag), selection);
    }
  }

  lemma {:induction false} SubsequenceNoDuplicates(a: seq<string>, b: seq<string>)
    requires IsSubsequence(a, b) && NoDuplicates(b)
    ensures NoDuplicates(a)
    decreases |b|
  {
    if |a| > 0 {
      assert NoDuplicates(b[1..]) by {
        assert forall i :: 0 <= i < |b[1..]| ==> b[1..][i] == b[i + 1];
      }
      if a[0] == b[0] && IsSubsequence(a[1..], b[1..]) {
        SubsequenceNoDuplicates(a[1..], b[1..]);
        SubsequenceMembers(a[1..], b[1..]);
        assert b[0] !in b[1..];
        forall i | 0 < i < |a|
          ensures a[i] != a[0]
        {
          assert a[i] == a[1..][i - 1];
        }
      } else {
        SubsequenceNoDuplicates(a, b[1..]);
      }
    }
  }

  /**
   * The `useState` cell holding the selection. Every change goes through
   * `toggleTag`, so the cell never holds a tag twice.
   */
  class TagSelection {
    var selected: seq<string>

    predicate Valid()
      reads this
    {
      NoDuplicates(selected)
    }

    /** `useState([])`: nothing selected. */
    constructor ()
      ensures Valid()
      ensures selected == []
    {
      selected := [];
    }

    /** Whether the tag is styled as selected. */
    function IsSelected(tag: string): bool
      reads this
    {
      tag in selected
    }

    /** `toggleTag(tag)`: the cell is replaced by the toggled selection. */
    method ToggleTag(tag: string)
      requires Valid()
      modifies this
      ensures Valid()
      ensures selected == Toggled(old(selected), tag)
      ensures IsSelected(tag) <==> !old(IsSelected(tag))
      ensures forall u :: u != tag ==> (IsSelected(u) <==> old(IsSelected(u)))
    {
      ToggleFlipsOnlyThatTag(selected, tag);
      ToggleKeepsNoDuplicates(selected, tag);
      if tag in selected {
        selected := RemoveAll(selected, tag);
      } else {
        selected := selected + [tag];
      }
    }
  }
}
