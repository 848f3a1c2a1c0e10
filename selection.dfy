/** The selection store's list operations (app.js lines 47-48 and 73): adding
    a name when it is absent, and filtering every occurrence of a name out. */
module Selection {
  import opened Sequences

  /** `if (!list.includes(name)) list.push(name)`. */
  function Selected(selection: seq<string>, name: string): (r: seq<string>)
    ensures |r| == if name in selection then |selection| else |selection| + 1
    ensures r[..|selection|] == selection
    ensures name in r
  {
    if name in selection then selection else selection + [name]
  }

  /** `list.filter(lang => lang !== name)`. */
  function Without(selection: seq<string>, name: string): (r: seq<string>)
    ensures name !in r
  {
    if selection == [] then []
    else
      var rest := Without(selection[1..], name);
      if selection[0] == name then rest else [selection[0]] + rest
  }

  /** Filtering a name out keeps every occurrence of every other name. */
  lemma {:induction false} WithoutKeepsOthers(selection: seq<string>, name: string, x: string)
    requires x != name
    ensures multiset(Without(selection, name))[x] == multiset(selection)[x]
  {
    if selection != [] {
      var rest := Without(selection[1..], name);
      WithoutKeepsOthers(selection[1..], name, x);
      assert selection == [selection[0]] + selection[1..];
      if selection[0] != name {
        assert multiset([selection[0]] + rest) == multiset([selection[0]]) + multiset(rest);
      }
    }
  }

  /** Adding a name that is already selected changes nothing, so a second add
      of the same name is a no-op. */
  lemma SelectedIdempotent(selection: seq<string>, name: string)
    ensures Selected(Selected(selection, name), name) == Selected(selection, name)
  {
  }

  /** Adding keeps the selection free of duplicates. */
  lemma SelectedNoDuplicates(selection: seq<string>, name: string)
    requires NoDuplicates(selection)
    ensures NoDuplicates(Selected(selection, name))
  {
  }

  /** Filtering a name out keeps the other elements in their relative order. */
  lemma {:induction false} WithoutSubsequence(selection: seq<string>, name: string)
    ensures IsSubsequence(Without(selection, name), selection)
  {
    if selection != [] {
      var rest := Without(selection[1..], name);
      WithoutSubsequence(selection[1..], name);
      if selection[0] == name {
        SubsequenceOfTail(rest, selection);
      } else {
        assert ([selection[0]] + rest)[1..] == rest;
      }
    }
  }

  /** Filtering out a name that is absent changes nothing. */
  lemma {:induction false} WithoutAbsent(selection: seq<string>, name: string)
    requires name !in selection
    ensures Without(selection, name) == selection
  {
    if selection != [] {
      WithoutAbsent(selection[1..], name);
    }
  }

  /** Filtering distributes over concatenation. */
  lemma {:induction false} WithoutAppend(a: seq<string>, b: seq<string>, name: string)
    ensures Without(a + b, name) == Without(a, name) + Without(b, name)
  {
    if a != [] {
      assert (a + b)[1..] == a[1..] + b;
      WithoutAppend(a[1..], b, name);
    } else {
      assert a + b == b;
    }
  }

  /** Filtering a sequence extended by one element. */
  lemma WithoutAppendOne(a: seq<string>, y: string, name: string)
    ensures Without(a + [y], name) == Without(a, name) + (if y == name then [] else [y])
  {
    WithoutAppend(a, [y], name);
    assert [y][1..] == [];
  }

  /** Filtering keeps the selection free of duplicates. */
  lemma WithoutNoDuplicates(selection: seq<string>, name: string)
    requires NoDuplicates(selection)
    ensures NoDuplicates(Without(selection, name))
  {
    WithoutSubsequence(selection, name);
    SubsequenceNoDuplicates(Without(selection, name), selection);
  }

  /** Removing a name just added restores the selection it was added to. */
  lemma RemoveUndoesSelect(selection: seq<string>, name: string)
    requires name !in selection
    ensures Without(Selected(selection, name), name) == selection
  {
    WithoutAppend(selection, [name], name);
    WithoutAbsent(selection, name);
  }
}
