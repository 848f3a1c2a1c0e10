/** The pure parts of `combineGitignore` (app.js lines 79-106): the fixed
    messages, the all-or-nothing gathering of the per-language fetch results,
    the joined text and the label. */
module Combiner {
  import opened JsStrings

  const NoSelectionMessage := "Please select at least one language."
  const FetchErrorMessage := "An error occurred while fetching the .gitignore files."
  const LabelPrefix := "Combined .gitignore files for: "
  /** Between two template bodies stands one blank line. */
  const BodySeparator := "\n\n"
  const NameSeparator := ", "

  /** `Promise.all` over the per-language fetches: the bodies in request order
      when every fetch delivered one, and nothing as soon as any one failed. */
  function Gather(results: seq<Option<string>>): (r: Option<seq<string>>)
    ensures r.Some? <==> forall i :: 0 <= i < |results| ==> results[i].Some?
    ensures r.Some? ==> |r.value| == |results|
    ensures r.Some? ==> forall i :: 0 <= i < |results| ==> r.value[i] == results[i].value
  {
    if results == [] then Some([])
    else if results[0].None? then None
    else match Gather(results[1..])
      case None => None
      case Some(rest) => Some([results[0].value] + rest)
  }

  /** The combined file: the bodies joined by a blank line, in selection order;
      empty without bodies, otherwise starting with the first body. */
  function CombinedText(bodies: seq<string>): (r: string)
    ensures bodies == [] ==> r == ""
    ensures bodies != [] ==> |bodies[0]| <= |r| && r[..|bodies[0]|] == bodies[0]
  {
    Join(bodies, BodySeparator)
  }

  /** The label naming the selected languages, comma-separated, in selection
      order, after the fixed prefix; the prefix alone without names. */
  function Label(names: seq<string>): (r: string)
    ensures |LabelPrefix| <= |r| && r[..|LabelPrefix|] == LabelPrefix
    ensures names == [] ==> r == LabelPrefix
  {
    LabelPrefix + Join(names, NameSeparator)
  }

  /** Body `k` of the combined file stands whole at its place in selection order,
      and a blank line separates it from the next body. */
  lemma CombinedTextOrder(bodies: seq<string>, k: nat)
    requires k < |bodies|
    ensures PartStart(bodies, BodySeparator, k) + |bodies[k]| <= |CombinedText(bodies)|
    ensures CombinedText(bodies)[PartStart(bodies, BodySeparator, k)..PartStart(bodies, BodySeparator, k) + |bodies[k]|] == bodies[k]
    ensures k + 1 < |bodies| ==>
      PartStart(bodies, BodySeparator, k + 1) <= |CombinedText(bodies)| &&
      CombinedText(bodies)[PartStart(bodies, BodySeparator, k) + |bodies[k]|..PartStart(bodies, BodySeparator, k + 1)] == BodySeparator
  {
    JoinPartAt(bodies, BodySeparator, k);
    if k + 1 < |bodies| {
      JoinSeparatorAt(bodies, BodySeparator, k);
    }
  }

  /** Name `k` of the label stands whole at its place in selection order,
      after the fixed prefix, and `", "` separates it from the next name. */
  lemma LabelOrder(names: seq<string>, k: nat)
    requires k < |names|
    ensures |LabelPrefix| + PartStart(names, NameSeparator, k) + |names[k]| <= |Label(names)|
    ensures Label(names)[|LabelPrefix| + PartStart(names, NameSeparator, k)..|LabelPrefix| + PartStart(names, NameSeparator, k) + |names[k]|] == names[k]
    ensures k + 1 < |names| ==>
      |LabelPrefix| + PartStart(names, NameSeparator, k + 1) <= |Label(names)| &&
      Label(names)[|LabelPrefix| + PartStart(names, NameSeparator, k) + |names[k]|..|LabelPrefix| + PartStart(names, NameSeparator, k + 1)] == NameSeparator
  {
    var at := PartStart(names, NameSeparator, k);
    JoinPartAt(names, NameSeparator, k);
    PrefixedSlice(LabelPrefix, Join(names, NameSeparator), at, at + |names[k]|);
    if k + 1 < |names| {
      JoinSeparatorAt(names, NameSeparator, k);
      PrefixedSlice(LabelPrefix, Join(names, NameSeparator), at + |names[k]|, PartStart(names, NameSeparator, k + 1));
    }
  }

  /** Selection ["Python", "Node"] with bodies "A" and "B" gives the text
      "A\n\nB" and the label "Combined .gitignore files for: Python, Node". */
  lemma CombineExample()
    ensures Gather([Some("A"), Some("B")]) == Some(["A", "B"])
    ensures CombinedText(["A", "B"]) == "A\n\nB"
    ensures Label(["Python", "Node"]) == "Combined .gitignore files for: Python, Node"
  {
    var results: seq<Option<string>> := [Some("A"), Some("B")];
    assert forall i :: 0 <= i < |results| ==> results[i].Some?;
    var bodies := Gather(results).value;
    assert bodies == ["A", "B"];
    assert ["A", "B"][1..] == ["B"];
    assert ["Python", "Node"][1..] == ["Node"];
  }

  /** A failed fetch anywhere fails the whole batch, whatever the others gave. */
  lemma GatherFailsOnAnyFailure(results: seq<Option<string>>, i: nat)
    requires i < |results| && results[i].None?
    ensures Gather(results).None?
  {
  }
}
