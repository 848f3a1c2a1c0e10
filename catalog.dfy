/** The catalog of template names and the search filter over it
    (app.js lines 17 and 25-29). */
module Catalog {
  import opened JsStrings
  import opened Sequences

  /** The text line 17 removes from each listing entry's name. */
  const Suffix := ".gitignore"

  /** `name.replace('.gitignore', '')`: the first occurrence is removed, wherever
      it stands in the name, not only at its end. */
  function TemplateName(fileName: string): (r: string)
    ensures |r| == if Includes(fileName, Suffix) then |fileName| - |Suffix| else |fileName|
  {
    ReplaceFirst(fileName, Suffix, "")
  }

  /** `data.map(item => item.name.replace('.gitignore', ''))`. */
  function DeriveCatalog(listing: seq<string>): (r: seq<string>)
    ensures |r| == |listing|
    ensures forall i :: 0 <= i < |listing| ==> |r[i]| <= |listing[i]|
  {
    seq(|listing|, i requires 0 <= i < |listing| => TemplateName(listing[i]))
  }

  /** A name without the suffix (a folder, `LICENSE`, `README.md`) passes through
      unchanged. */
  lemma TemplateNamePassThrough(name: string)
    requires !Includes(name, Suffix)
    ensures TemplateName(name) == name
  {
    ReplaceFirstAbsent(name, Suffix, "");
  }

  /** The suffix has its only `.` at its start, so no occurrence of it can
      start inside `base` and end inside the appended suffix. */
  lemma SuffixDotOnlyFirst(d: nat)
    requires 0 < d < |Suffix|
    ensures Suffix[d] != '.'
  {
  }

  /** A template file `base.gitignore`, where `base` holds no `.gitignore` of its
      own, yields exactly `base`. */
  lemma {:induction false} TemplateNameOfFile(base: string)
    requires !Includes(base, Suffix)
    ensures TemplateName(base + Suffix) == base
  {
    var s := base + Suffix;
    var n := |base|;
    assert s[n..n + |Suffix|] == Suffix;
    forall j: nat | j < n ensures !OccursAt(s, Suffix, j) {
      if j + |Suffix| <= n {
        assert s[j..j + |Suffix|] == base[j..j + |Suffix|];
        assert !OccursAt(base, Suffix, j);
      } else {
        SuffixDotOnlyFirst(n - j);
        assert s[j..j + |Suffix|][n - j] == s[n] == '.';
      }
    }
    ReplaceFirstAt(s, Suffix, "", n);
    assert s[..n] == base;
  }

  /** The catalog keeps the listing's length and order: entry `i` is the name of
      listing entry `i`. A listing made of template files `b.gitignore` gives
      back exactly the bases `b`. */
  lemma {:induction false} DeriveCatalogOfFiles(bases: seq<string>, listing: seq<string>)
    requires |bases| == |listing|
    requires forall i :: 0 <= i < |listing| ==> listing[i] == bases[i] + Suffix && !Includes(bases[i], Suffix)
    ensures DeriveCatalog(listing) == bases
  {
    forall i | 0 <= i < |listing| ensures DeriveCatalog(listing)[i] == bases[i] {
      TemplateNameOfFile(bases[i]);
    }
  }

  /** Entry by entry, whatever else the listing holds: a folder or file
      without `.gitignore` in its name keeps its name, and a template file
      `base.gitignore` gives `base`. */
  lemma DeriveCatalogEntry(listing: seq<string>, i: nat, base: string)
    requires i < |listing|
    ensures !Includes(listing[i], Suffix) ==> DeriveCatalog(listing)[i] == listing[i]
    ensures listing[i] == base + Suffix && !Includes(base, Suffix) ==> DeriveCatalog(listing)[i] == base
  {
    if !Includes(listing[i], Suffix) {
      TemplateNamePassThrough(listing[i]);
    }
    if listing[i] == base + Suffix && !Includes(base, Suffix) {
      TemplateNameOfFile(base);
    }
  }

  /** The filter predicate of lines 27-29: the lower-cased entry contains the
      (already lower-cased) search term. The empty term matches every entry,
      and no entry shorter than the term matches. */
  function Matches(term: string, name: string): (b: bool)
    ensures term == "" ==> b
    ensures b ==> |term| <= |name|
  {
    IncludesEmpty(ToLower(name));
    Includes(ToLower(name), term)
  }

  /** `allLanguages.filter(language => language.toLowerCase().includes(term))`:
      no longer than the catalog, and every entry kept matches the term. */
  function Filter(catalog: seq<string>, term: string): (r: seq<string>)
    ensures |r| <= |catalog|
    ensures forall i :: 0 <= i < |r| ==> Matches(term, r[i])
  {
    if catalog == [] then []
    else (if Matches(term, catalog[0]) then [catalog[0]] else []) + Filter(catalog[1..], term)
  }

  /** The filter result is a subsequence of the catalog: it keeps catalog order. */
  lemma {:induction false} FilterSubsequence(catalog: seq<string>, term: string)
    ensures IsSubsequence(Filter(catalog, term), catalog)
  {
    if catalog != [] {
      var rest := Filter(catalog[1..], term);
      FilterSubsequence(catalog[1..], term);
      if Matches(term, catalog[0]) {
        assert Filter(catalog, term) == [catalog[0]] + rest;
        assert Filter(catalog, term)[1..] == rest;
      } else {
        assert Filter(catalog, term) == rest;
        SubsequenceOfTail(rest, catalog);
      }
    }
  }

  /** The filter keeps every occurrence of a matching entry and none of the
      others: an entry is in the result exactly when it is in the catalog and
      matches the term. */
  lemma {:induction false} FilterCounts(catalog: seq<string>, term: string, x: string)
    ensures multiset(Filter(catalog, term))[x] == if Matches(term, x) then multiset(catalog)[x] else 0
    ensures x in Filter(catalog, term) <==> x in catalog && Matches(term, x)
  {
    if catalog != [] {
      FilterCounts(catalog[1..], term, x);
      assert catalog == [catalog[0]] + catalog[1..];
      assert multiset(catalog) == multiset([catalog[0]]) + multiset(catalog[1..]);
    }
  }

  /** With an empty search term every entry matches: the filter is the whole
      catalog. */
  lemma {:induction false} FilterEmptyTerm(catalog: seq<string>)
    ensures Filter(catalog, "") == catalog
  {
    if catalog != [] {
      IncludesEmpty(ToLower(catalog[0]));
      FilterEmptyTerm(catalog[1..]);
    }
  }
}
