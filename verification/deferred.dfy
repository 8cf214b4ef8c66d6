/** Deferred links: `WorksheetImporter.defer`, which only appends to the shared
    `lsd.deferred` list, and the two importers that defer links in bulk: the
    dependency scan of `Calculations.Import` and the CC contacts of `Client_Contacts`. */
module Deferred {
  import opened Wrappers
  import Text
  import opened Catalog

  /** The catalogs a deferred link may name as `dest_catalog`. */
  datatype CatalogName = SetupCatalog | ContactCatalog

  /** The keyword arguments of one `defer` call: the entity to update, its field, and
      where and how to look up the target. */
  datatype DeferredLink = DeferredLink(source: Entity, field: string, catalog: CatalogName, query: map<string, string>)

  /** The part of the data-set loader (`lsd`) the importers share: the queue of links
      resolved after every sheet has been imported. */
  class LoadSetupData {
    var deferred: seq<DeferredLink>

    constructor ()
      ensures deferred == []
    {
      deferred := [];
    }

    /** `defer(**link)`: appends, and does nothing else. */
    method Defer(link: DeferredLink)
      modifies this
      ensures deferred == old(deferred) + [link]
    {
      deferred := deferred + [link];
    }
  }

  // ---------------------------------------------------------------- formula keywords

  /** A character the group `[^\.^\]]` accepts: anything but `.`, `^` and `]`. */
  predicate InKeyword(c: char)
  {
    c != '.' && c != '^' && c != ']'
  }

  predicate IsKeyword(k: string)
  {
    |k| > 0 && forall i :: 0 <= i < |k| ==> InKeyword(k[i])
  }

  /** The length of the leading run of keyword characters. */
  function RunLength(s: string): (n: nat)
    ensures n <= |s|
    ensures forall i :: 0 <= i < n ==> InKeyword(s[i])
    ensures n < |s| ==> !InKeyword(s[n])
    decreases |s|
  {
    if s != [] && InKeyword(s[0]) then
      var n := RunLength(s[1..]);
      assert forall i :: 1 <= i < n + 1 ==> s[i] == s[1..][i - 1];
      n + 1
    else 0
  }

  /** `re.findall(r"\[([^\.^\]]+)\]", formula)`: scans left to right; at a `[` followed
      by a non-empty run of keyword characters and a `]` it takes the run and resumes
      after the `]`, anywhere else it moves on by one character. */
  function Keywords(s: string): (ks: seq<string>)
    ensures forall i :: 0 <= i < |ks| ==> IsKeyword(ks[i])
    decreases |s|
  {
    if s == [] then []
    else if s[0] == '[' then
      var n := RunLength(s[1..]);
      if n > 0 && n + 1 < |s| && s[n + 1] == ']' then [s[1..n + 1]] + Keywords(s[n + 2..])
      else Keywords(s[1..])
    else Keywords(s[1..])
  }

  /** A formula built from text pieces without `[`, with bracketed keywords between them:
      `fillers[0] + "[" + ks[0] + "]" + fillers[1] + ...`. */
  function Formula(ks: seq<string>, fillers: seq<string>): string
    requires |fillers| == |ks| + 1
    decreases |ks|
  {
    if ks == [] then fillers[0]
    else fillers[0] + "[" + ks[0] + "]" + Formula(ks[1..], fillers[1..])
  }

  lemma {:induction false} KeywordsSkipText(a: string, b: string)
    requires '[' !in a
    ensures Keywords(a + b) == Keywords(b)
    decreases |a|
  {
    if a != [] {
      assert (a + b)[1..] == a[1..] + b;
      KeywordsSkipText(a[1..], b);
    } else {
      assert a + b == b;
    }
  }

  lemma {:induction false} RunLengthOfKeyword(k: string, b: string)
    requires forall i :: 0 <= i < |k| ==> InKeyword(k[i])
    ensures RunLength(k + "]" + b) == |k|
    decreases |k|
  {
    if k != [] {
      assert (k + "]" + b)[1..] == k[1..] + "]" + b;
      RunLengthOfKeyword(k[1..], b);
    }
  }

  lemma KeywordsBracketed(k: string, b: string)
    requires IsKeyword(k)
    ensures Keywords("[" + k + "]" + b) == [k] + Keywords(b)
  {
    var s := "[" + k + "]" + b;
    assert s[1..] == k + "]" + b;
    RunLengthOfKeyword(k, b);
    assert s[1..|k| + 1] == k;
    assert s[|k| + 2..] == b;
  }

  /** The scan finds exactly the bracketed keywords of a formula, in order. */
  lemma {:induction false} KeywordsOfFormula(ks: seq<string>, fillers: seq<string>)
    requires |fillers| == |ks| + 1
    requires forall i :: 0 <= i < |ks| ==> IsKeyword(ks[i])
    requires forall i :: 0 <= i < |fillers| ==> '[' !in fillers[i]
    ensures Keywords(Formula(ks, fillers)) == ks
    decreases |ks|
  {
    if ks == [] {
      KeywordsSkipText(fillers[0], []);
      assert fillers[0] + [] == fillers[0];
    } else {
      var rest := Formula(ks[1..], fillers[1..]);
      KeywordsOfFormula(ks[1..], fillers[1..]);
      assert Formula(ks, fillers) == fillers[0] + ("[" + ks[0] + "]" + rest);
      KeywordsSkipText(fillers[0], "[" + ks[0] + "]" + rest);
      KeywordsBracketed(ks[0], rest);
      assert [ks[0]] + ks[1..] == ks;
    }
  }

  /** `[k for k in keywords if k not in interim_keys]`. */
  function DependencyKeywords(keywords: seq<string>, interimKeys: seq<string>): seq<string>
    decreases |keywords|
  {
    if keywords == [] then []
    else
      var rest := DependencyKeywords(keywords[1..], interimKeys);
      if keywords[0] in interimKeys then rest else [keywords[0]] + rest
  }

  /** No interim key survives the filter, and every other keyword is kept as often as
      the formula names it. */
  lemma {:induction false} DependencyKeywordsSpec(keywords: seq<string>, interimKeys: seq<string>)
    ensures forall i :: 0 <= i < |DependencyKeywords(keywords, interimKeys)| ==>
              DependencyKeywords(keywords, interimKeys)[i] !in interimKeys
    ensures forall k :: multiset(DependencyKeywords(keywords, interimKeys))[k]
                     == if k in interimKeys then 0 else multiset(keywords)[k]
    decreases |keywords|
  {
    if keywords != [] {
      DependencyKeywordsSpec(keywords[1..], interimKeys);
      assert keywords == [keywords[0]] + keywords[1..];
    }
  }

  lemma StringsAssoc(a: seq<string>, b: seq<string>, c: seq<string>)
    ensures a + (b + c) == (a + b) + c
  {
  }

  /** The filter keeps formula order: filtering two stretches of keywords one after the
      other gives the filtered stretches one after the other. */
  lemma {:induction false} DependencyKeywordsConcat(a: seq<string>, b: seq<string>, interimKeys: seq<string>)
    ensures DependencyKeywords(a + b, interimKeys) == DependencyKeywords(a, interimKeys) + DependencyKeywords(b, interimKeys)
    decreases |a|
  {
    if a == [] {
      assert a + b == b;
      assert DependencyKeywords(a, interimKeys) == [];
    } else {
      var ab := a + b;
      var head := if a[0] in interimKeys then [] else [a[0]];
      var x, y := DependencyKeywords(a[1..], interimKeys), DependencyKeywords(b, interimKeys);
      assert DependencyKeywords(ab, interimKeys) == head + (x + y) by {
        assert ab[0] == a[0] && ab[1..] == a[1..] + b;
        DependencyKeywordsConcat(a[1..], b, interimKeys);
      }
      assert DependencyKeywords(a, interimKeys) == head + x;
      StringsAssoc(head, x, y);
    }
  }

  /** A single keyword is kept exactly when it is no interim key. */
  lemma DependencyKeywordsOne(k: string, interimKeys: seq<string>)
    ensures DependencyKeywords([k], interimKeys) == if k in interimKeys then [] else [k]
  {
    assert [k][1..] == [];
  }

  /** The link `Calculations.Import` defers for one dependency keyword. */
  function DependencyLink(calculation: Entity, keyword: string): DeferredLink
  {
    DeferredLink(calculation, "DependentServices", SetupCatalog,
                 map["portal_type" := "AnalysisService", "getKeyword" := keyword])
  }

  function DependencyLinks(calculation: Entity, deps: seq<string>): seq<DeferredLink>
  {
    seq(|deps|, i requires 0 <= i < |deps| => DependencyLink(calculation, deps[i]))
  }

  /** The dependency part of `Calculations.Import`: one deferred link per occurrence of a
      non-interim keyword in the formula, in formula order. */
  method DeferCalculationDependencies(lsd: LoadSetupData, calculation: Entity, formula: string, interimKeys: seq<string>)
    modifies lsd
    ensures lsd.deferred
         == old(lsd.deferred) + DependencyLinks(calculation, DependencyKeywords(Keywords(formula), interimKeys))
  {
    var keywords := Keywords(formula);
    var deps := DependencyKeywords(keywords, interimKeys);
    for i := 0 to |deps|
      invariant lsd.deferred == old(lsd.deferred) + DependencyLinks(calculation, deps[..i])
    {
      assert DependencyLinks(calculation, deps[..i + 1])
          == DependencyLinks(calculation, deps[..i]) + [DependencyLink(calculation, deps[i])];
      lsd.Defer(DependencyLink(calculation, deps[i]));
    }
    assert deps[..|deps|] == deps;
  }

  // ---------------------------------------------------------------- CC contacts

  /** `name` is the `i`-th comma-separated part of `text` without its surrounding
      whitespace: it holds no comma, and it is that part with only whitespace cut off at
      either end, where it neither starts nor ends with whitespace. */
  ghost predicate StrippedPart(text: string, i: nat, name: string)
  {
    var parts := Text.Split(text, ',');
    && i < |parts|
    && ',' !in name
    && Text.StripsTo(parts[i], Text.Whitespace, name)
    && Text.CleanEnds(name, Text.Whitespace)
  }

  /** `[x.strip() for x in text.split(",")]`. */
  function CCNames(text: string): (names: seq<string>)
    ensures |names| == multiset(text)[','] + 1
    ensures forall i :: 0 <= i < |names| ==> StrippedPart(text, i, names[i])
  {
    var parts := Text.Split(text, ',');
    Text.SplitCount(text, ',');
    var names := seq(|parts|, i requires 0 <= i < |parts| => Text.Strip(parts[i], Text.Whitespace));
    forall i | 0 <= i < |names| ensures StrippedPart(text, i, names[i]) {
      Text.StripSpec(parts[i], Text.Whitespace);
    }
    names
  }

  function CCLink(contact: Entity, fullname: string): DeferredLink
  {
    DeferredLink(contact, "CCContact", ContactCatalog, map["portal_type" := "Contact", "getFullname" := fullname])
  }

  function CCLinks(contact: Entity, names: seq<string>): seq<DeferredLink>
  {
    seq(|names|, i requires 0 <= i < |names| => CCLink(contact, names[i]))
  }

  /** The CC part of `Client_Contacts.Import`: nothing for an empty `CCContacts` cell,
      otherwise one deferred link per comma-separated name, in order. */
  method DeferCCContacts(lsd: LoadSetupData, contact: Entity, ccContacts: string)
    modifies lsd
    ensures lsd.deferred == old(lsd.deferred) + (if ccContacts == "" then [] else CCLinks(contact, CCNames(ccContacts)))
  {
    if ccContacts == "" {
      return;
    }
    var names := CCNames(ccContacts);
    for i := 0 to |names|
      invariant lsd.deferred == old(lsd.deferred) + CCLinks(contact, names[..i])
    {
      assert CCLinks(contact, names[..i + 1]) == CCLinks(contact, names[..i]) + [CCLink(contact, names[i])];
      lsd.Defer(CCLink(contact, names[i]));
    }
    assert names[..|names|] == names;
  }

  /** A list of clean names written comma-separated gives back exactly those names. */
  lemma CCNamesOfList(names: seq<string>)
    requires |names| >= 1
    requires forall i :: 0 <= i < |names| ==> ',' !in names[i]
    requires forall i :: 0 <= i < |names| ==> names[i] == Text.Strip(names[i], Text.Whitespace)
    ensures CCNames(Text.Join(names, ',')) == names
  {
    Text.SplitJoin(names, ',');
  }
}
