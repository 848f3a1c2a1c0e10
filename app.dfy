/** The page controller of app.js: its module-level variables and the DOM
    state the handlers read and write, as one object, and the handlers as
    methods that update it. */
module App {
  import opened JsStrings
  import opened Sequences
  import opened Catalog
  import opened Selection
  import opened Combiner

  const DownloadFileName := "combined.gitignore"
  const DownloadType := "text/plain"

  /** The file `downloadGitignore` offers for saving. */
  datatype Artifact = Artifact(fileName: string, mimeType: string, content: string)

  /** What reading a text area's `value` returns for the raw text `s`: every
      CR LF pair and every lone CR becomes one LF. No CR is left, nothing
      grows, and text without a CR comes back unchanged. */
  function NormalizeNewlines(s: string): (r: string)
    ensures '\r' !in r
    ensures |r| <= |s|
    ensures '\r' !in s ==> r == s
  {
    if s == [] then []
    else if s[0] == '\r' && |s| > 1 && s[1] == '\n' then ['\n'] + NormalizeNewlines(s[2..])
    else if s[0] == '\r' then ['\n'] + NormalizeNewlines(s[1..])
    else [s[0]] + NormalizeNewlines(s[1..])
  }

  /** Normalizing a concatenation normalizes its pieces, unless the first
      ends with a CR and the second starts with the LF of that pair. */
  lemma {:induction false} NormalizeAppend(a: string, rest: string)
    requires a == [] || a[|a| - 1] != '\r' || rest == [] || rest[0] != '\n'
    ensures NormalizeNewlines(a + rest) == NormalizeNewlines(a) + NormalizeNewlines(rest)
    decreases |a|
  {
    if a == [] {
      assert a + rest == rest;
    } else {
      var ar := a + rest;
      var n := if a[0] == '\r' && |a| > 1 && a[1] == '\n' then 2 else 1;
      assert ar[n..] == a[n..] + rest;
      NormalizeAppend(a[n..], rest);
      ChunkOfAppend(a, rest, n);
    }
  }

  /** The first chunk of `a + rest` (a CR LF pair, or one character) is the
      first chunk of `a` when the pair is not split between the two. */
  lemma ChunkOfAppend(a: string, rest: string, n: nat)
    requires a != []
    requires a[|a| - 1] != '\r' || rest == [] || rest[0] != '\n'
    requires n == if a[0] == '\r' && |a| > 1 && a[1] == '\n' then 2 else 1
    ensures NormalizeNewlines(a + rest) == [NormalizeNewlines(a)[0]] + NormalizeNewlines(a[n..] + rest)
    ensures NormalizeNewlines(a) == [NormalizeNewlines(a)[0]] + NormalizeNewlines(a[n..])
  {
    var ar := a + rest;
    assert ar[0] == a[0];
    assert ar[n..] == a[n..] + rest;
    if |a| > 1 {
      assert ar[1] == a[1];
    } else if rest != [] {
      assert ar[1] == rest[0];
    }
  }

  /** A CR that is not followed by an LF becomes one LF, wherever it stands. */
  lemma LoneCarriageReturn(a: string, b: string)
    requires b == [] || b[0] != '\n'
    ensures NormalizeNewlines(a + ['\r'] + b) == NormalizeNewlines(a) + ['\n'] + NormalizeNewlines(b)
  {
    assert a + ['\r'] + b == a + (['\r'] + b);
    NormalizeAppend(a, ['\r'] + b);
    assert (['\r'] + b)[1..] == b;
  }

  /** A CR LF pair becomes one LF, wherever it stands. */
  lemma CarriageReturnLineFeed(a: string, b: string)
    ensures NormalizeNewlines(a + ['\r', '\n'] + b) == NormalizeNewlines(a) + ['\n'] + NormalizeNewlines(b)
  {
    var c := ['\r', '\n'] + b;
    assert a + ['\r', '\n'] + b == a + c;
    NormalizeAppend(a, c);
    assert c[0] == '\r' && c[1] == '\n' && c[2..] == b;
    assert NormalizeNewlines(c) == ['\n'] + NormalizeNewlines(b);
  }

  predicate AllWhitespace(s: string)
  {
    forall i :: 0 <= i < |s| ==> IsJsWhitespace(s[i])
  }

  lemma AllWhitespaceAppend(a: string, b: string)
    ensures AllWhitespace(a + b) <==> AllWhitespace(a) && AllWhitespace(b)
  {
    if AllWhitespace(a + b) {
      assert forall i :: 0 <= i < |a| ==> a[i] == (a + b)[i];
      assert forall i :: 0 <= i < |b| ==> b[i] == (a + b)[|a| + i];
    }
  }

  /** CR and LF are both whitespace, so normalizing line breaks keeps a
      whitespace-only text whitespace-only, and any other text not. */
  lemma {:induction false} NormalizeKeepsBlank(s: string)
    ensures AllWhitespace(NormalizeNewlines(s)) <==> AllWhitespace(s)
  {
    if s != [] {
      var n := if s[0] == '\r' && |s| > 1 && s[1] == '\n' then 2 else 1;
      var head := if s[0] == '\r' then '\n' else s[0];
      NormalizeKeepsBlank(s[n..]);
      assert NormalizeNewlines(s) == [head] + NormalizeNewlines(s[n..]);
      AllWhitespaceAppend([head], NormalizeNewlines(s[n..]));
      assert s == s[..n] + s[n..];
      AllWhitespaceAppend(s[..n], s[n..]);
      if n == 2 {
        assert s[..n] == ['\r', '\n'];
      } else {
        assert s[..n] == [s[0]];
      }
      assert AllWhitespace([head]) <==> AllWhitespace(s[..n]);
    }
  }

  /** Enter trims the query, but the list it looks the trimmed text up in was
      filtered with the untrimmed query: an entry equal to the trimmed text is
      shorter than that query and so cannot contain it. */
  lemma PaddedQueryNotFiltered(catalog: seq<string>, query: string)
    requires Trim(query) != query
    ensures Trim(query) !in Filter(catalog, ToLower(query))
  {
    var t := Trim(query);
    assert |ToLower(t)| < |ToLower(query)|;
    assert !Matches(ToLower(query), t);
    FilterCounts(catalog, ToLower(query), t);
  }

  /** One step of the badge walk in `removeBadge`: with the badges before
      position `i` of the snapshot already filtered, the badge for
      `snapshot[i]` stands at position `live`; removing it (when it shows
      `name`) or keeping it extends the filtered part by one. */
  lemma BadgeWalkStep(snapshot: seq<string>, name: string, badges: seq<string>, i: nat, live: nat)
    requires i < |snapshot|
    requires live == |Without(snapshot[..i], name)|
    requires badges == Without(snapshot[..i], name) + snapshot[i..]
    ensures live < |badges|
    ensures snapshot[i] == name ==>
      live == |Without(snapshot[..i + 1], name)|
      && badges[..live] + badges[live + 1..] == Without(snapshot[..i + 1], name) + snapshot[i + 1..]
    ensures snapshot[i] != name ==>
      live + 1 == |Without(snapshot[..i + 1], name)|
      && badges == Without(snapshot[..i + 1], name) + snapshot[i + 1..]
    ensures snapshot[i] != name && Without(snapshot[..i], name) == snapshot[..i] ==>
      Without(snapshot[..i + 1], name) == snapshot[..i + 1]
  {
    var kept := Without(snapshot[..i], name);
    assert snapshot[i..] == [snapshot[i]] + snapshot[i + 1..];
    assert snapshot[..i + 1] == snapshot[..i] + [snapshot[i]];
    WithoutAppendOne(snapshot[..i], snapshot[i], name);
    assert badges == kept + [snapshot[i]] + snapshot[i + 1..];
    assert badges[..live] == kept;
    assert badges[live + 1..] == snapshot[i + 1..];
  }

  /** The suggestion elements `filterLanguages` appends, one per filtered
      entry and in the same order (lines 36-41), as their texts. */
  method RenderSuggestions(entries: seq<string>) returns (rendered: seq<string>)
    ensures rendered == entries
  {
    rendered := [];
    var i := 0;
    while i < |entries|
      invariant 0 <= i <= |entries|
      invariant rendered == entries[..i]
    {
      rendered := rendered + [entries[i]];
      i := i + 1;
    }
  }

  class Controller {
    /** `allLanguages` */
    var catalog: seq<string>
    /** `filteredLanguages` */
    var filtered: seq<string>
    /** `selectedLanguagesList` */
    var selection: seq<string>
    /** The texts of the badge elements under `selectedLanguages`, in order. */
    var badges: seq<string>
    /** `searchInput.value` */
    var query: string
    /** The texts of the suggestion elements under `languageSuggestions`, in order. */
    var suggestions: seq<string>
    /** The raw text of the `combinedGitignore` text area, as last assigned. */
    var buffer: string
    /** `combinedLanguages.textContent` */
    var labelText: string
    /** `!downloadBtn.disabled` */
    var downloadEnabled: bool

    /** The selection has no duplicates, and there is one badge per selected
        name, in selection order. */
    ghost predicate SelectionValid()
      reads this
    {
      NoDuplicates(selection) && badges == selection
    }

    /** The selection invariant holds; the filtered list is drawn from the catalog in catalog order and
        is current unless the query was cleared by a selection; suggestions are
        either absent or the filtered list. */
    ghost predicate Valid()
      reads this
    {
      SelectionValid()
      && IsSubsequence(filtered, catalog)
      && (query == "" || filtered == Filter(catalog, ToLower(query)))
      && (suggestions == [] || suggestions == filtered)
    }

    /** Every selected name is a catalog entry. */
    ghost predicate SelectionFromCatalog()
      reads this
    {
      forall x :: x in selection ==> x in catalog
    }

    /** The state when the script starts: the three module-level lists empty, an
        empty search box and no suggestions or badges; the text area, the label
        and the download button as the page markup sets them. */
    constructor (buffer0: string, labelText0: string, downloadEnabled0: bool)
      ensures Valid() && SelectionFromCatalog()
      ensures catalog == [] && filtered == [] && selection == [] && badges == []
      ensures query == "" && suggestions == []
      ensures buffer == buffer0 && labelText == labelText0 && downloadEnabled == downloadEnabled0
    {
      catalog, filtered, selection, badges := [], [], [], [];
      query, suggestions := "", [];
      buffer, labelText, downloadEnabled := buffer0, labelText0, downloadEnabled0;
    }

    /** `filterLanguages`: recompute the filtered list from the lower-cased
        query and render one suggestion per entry, none for an empty query. */
    method FilterLanguages()
      requires SelectionValid()
      modifies this`filtered, this`suggestions
      ensures Valid()
      ensures filtered == Filter(catalog, ToLower(query))
      ensures suggestions == if query == "" then [] else filtered
      ensures query == "" ==> filtered == catalog
    {
      var term := ToLower(query);
      var matching := Filter(catalog, term);
      FilterSubsequence(catalog, term);
      ToLowerEmpty(query);
      if term == "" {
        FilterEmptyTerm(catalog);
      }
      filtered := matching;
      var rendered: seq<string> := [];
      if term != "" {
        rendered := RenderSuggestions(matching);
      }
      suggestions := rendered;
    }

    /** The listing arrived (line 17-18): derive the catalog and re-filter with
        the current query. A failed listing fetch (lines 20-22) changes nothing. */
    method LoadCatalog(listing: Option<seq<string>>)
      requires Valid()
      modifies this`catalog, this`filtered, this`suggestions
      ensures Valid()
      ensures listing.Some? ==>
        (catalog == DeriveCatalog(listing.value)
         && filtered == Filter(catalog, ToLower(query))
         && suggestions == (if query == "" then [] else filtered))
      ensures listing.None? ==> catalog == old(catalog) && filtered == old(filtered) && suggestions == old(suggestions)
      ensures old(selection) == [] ==> SelectionFromCatalog()
    {
      if listing.Some? {
        catalog := DeriveCatalog(listing.value);
        FilterLanguages();
      }
    }

    /** Typing in the search box (line 124): the new query, then `filterLanguages`. */
    method Input(text: string)
      requires Valid()
      modifies this`query, this`filtered, this`suggestions
      ensures Valid()
      ensures query == text && filtered == Filter(catalog, ToLower(text))
      ensures suggestions == if text == "" then [] else filtered
      ensures text == "" ==> filtered == catalog
      ensures old(SelectionFromCatalog()) ==> SelectionFromCatalog()
    {
      query := text;
      FilterLanguages();
    }

    /** `selectLanguage`: append the name and its badge when it is not selected
        yet; in every case clear the search box and the suggestions. The
        filtered list is left as it was. */
    method SelectLanguage(language: string)
      requires Valid()
      modifies this`selection, this`badges, this`query, this`suggestions
      ensures Valid()
      ensures selection == Selected(old(selection), language)
      ensures query == "" && suggestions == []
      ensures old(SelectionFromCatalog()) && language in catalog ==> SelectionFromCatalog()
    {
      SelectedNoDuplicates(selection, language);
      if language !in selection {
        selection := selection + [language];
        badges := badges + [language];
      }
      query := "";
      suggestions := [];
    }

    /** A click on suggestion `k`: its own listener (line 39) and the list's
        delegated listener (lines 127-131) both select its text; the second
        call adds nothing. */
    method ClickSuggestion(k: nat)
      requires Valid() && k < |suggestions|
      modifies this`selection, this`badges, this`query, this`suggestions
      ensures Valid()
      ensures selection == Selected(old(selection), old(suggestions)[k])
      ensures query == "" && suggestions == []
      ensures old(SelectionFromCatalog()) ==> SelectionFromCatalog()
    {
      var language := suggestions[k];
      SubsequenceMembers(filtered, catalog, language);
      SelectLanguage(language);
      SelectLanguage(language);
      SelectedIdempotent(old(selection), language);
    }

    /** A key press in the search box (lines 135-142): on Enter, the trimmed
        query is selected when it is, exactly and case-sensitively, an entry of
        the filtered list; otherwise nothing changes. */
    method KeyDown(key: string)
      requires Valid()
      modifies this`selection, this`badges, this`query, this`suggestions
      ensures Valid()
      ensures key == "Enter" && Trim(old(query)) in filtered ==>
        selection == Selected(old(selection), Trim(old(query))) && query == "" && suggestions == []
      ensures !(key == "Enter" && Trim(old(query)) in filtered) ==>
        selection == old(selection) && badges == old(badges) && query == old(query) && suggestions == old(suggestions)
      ensures Trim(old(query)) != old(query) ==> selection == old(selection) && query == old(query)
      ensures old(SelectionFromCatalog()) ==> SelectionFromCatalog()
    {
      var term := Trim(query);
      if term != query {
        PaddedQueryNotFiltered(catalog, query);
      }
      if key == "Enter" && term in filtered {
        SubsequenceMembers(filtered, catalog, term);
        SelectLanguage(term);
      }
    }

    /** `removeBadge`: walk a snapshot of the badges; for each badge showing
        the name, remove it and filter every occurrence of the name out of the
        selection. Without such a badge nothing changes. */
    method RemoveBadge(language: string)
      requires Valid()
      modifies this`selection, this`badges
      ensures Valid()
      ensures selection == Without(old(selection), language)
      ensures language !in selection && IsSubsequence(selection, old(selection))
      ensures language !in old(badges) ==> selection == old(selection) && badges == old(badges)
      ensures old(SelectionFromCatalog()) ==> SelectionFromCatalog()
    {
      var snapshot := badges;
      ghost var target := Without(snapshot, language);
      ghost var found := false;
      // position of badge `snapshot[i]` among the badges still attached
      var live := 0;
      var i := 0;
      assert snapshot[..0] == [] && snapshot[0..] == snapshot;
      while i < |snapshot|
        invariant 0 <= i <= |snapshot|
        invariant live == |Without(snapshot[..i], language)|
        invariant badges == Without(snapshot[..i], language) + snapshot[i..]
        invariant found ==> selection == target
        invariant !found ==> selection == snapshot && Without(snapshot[..i], language) == snapshot[..i]
      {
        BadgeWalkStep(snapshot, language, badges, i, live);
        if snapshot[i] == language {
          badges := badges[..live] + badges[live + 1..];
          WithoutAbsent(target, language);
          selection := Without(selection, language);
          found := true;
        } else {
          live := live + 1;
        }
        i := i + 1;
      }
      assert snapshot[..i] == snapshot;
      WithoutNoDuplicates(snapshot, language);
      WithoutSubsequence(snapshot, language);
      forall x | x in selection ensures x in snapshot {
        SubsequenceMembers(selection, snapshot, x);
      }
      if language !in snapshot {
        WithoutAbsent(snapshot, language);
      }
    }

    /** `combineGitignore`, with the per-language fetch results, in selection
        order, given as `results` (None where a fetch or body read failed). */
    method Combine(results: seq<Option<string>>)
      requires Valid()
      requires |results| == |selection|
      modifies this`buffer, this`labelText, this`downloadEnabled
      ensures Valid()
      ensures selection == [] ==>
        buffer == NoSelectionMessage && !downloadEnabled && labelText == old(labelText)
      ensures selection != [] && Gather(results).Some? ==>
        buffer == CombinedText(Gather(results).value) && labelText == Label(selection) && downloadEnabled
      ensures selection != [] && Gather(results).None? ==>
        buffer == FetchErrorMessage && !downloadEnabled && labelText == old(labelText)
    {
      var names := selection;
      if |names| == 0 {
        buffer := NoSelectionMessage;
        downloadEnabled := false;
        return;
      }
      match Gather(results)
      case Some(bodies) =>
        buffer := CombinedText(bodies);
        labelText := Label(names);
        downloadEnabled := true;
      case None =>
        buffer := FetchErrorMessage;
        downloadEnabled := false;
    }

    /** `downloadGitignore`: the text area's value is its raw text with line
        breaks normalized; nothing when that is empty or whitespace only,
        otherwise that value as `combined.gitignore`. */
    method Download() returns (artifact: Option<Artifact>)
      ensures artifact.None? <==> AllWhitespace(buffer)
      ensures artifact.Some? ==> artifact.value == Artifact(DownloadFileName, DownloadType, NormalizeNewlines(buffer))
      ensures artifact.Some? && '\r' !in buffer ==> artifact.value.content == buffer
    {
      var content := NormalizeNewlines(buffer);
      NormalizeKeepsBlank(buffer);
      if Trim(content) == "" {
        return None;
      }
      artifact := Some(Artifact(DownloadFileName, DownloadType, content));
    }
  }
}
