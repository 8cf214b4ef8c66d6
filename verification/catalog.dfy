/** The entity resolver: `WorksheetImporter.get_object` over an abstract catalog, the
    title-then-keyword lookup of `Analysis_Specifications.resolve_service`, and the
    relation list of `Analysis_Services.get_relations`. */
module Catalog {
  import opened Wrappers
  import opened Worksheet

  type Uid = string

  /** A created entity, known to the importer only as a handle with a UID. */
  datatype Entity = Entity(uid: Uid)

  /** A catalog query: index name to the value asked for (`None` is Python's `None`). */
  type Filter = map<string, Option<string>>

  /** A catalog: the entries matching a query, in the catalog's own order. */
  type Catalog = Filter -> seq<Entity>

  const AnalysisService: string := "AnalysisService"

  /** The `contentFilter` of `get_object`: the portal type, the title when it is truthy,
      then the extra criteria, which override both. */
  function ContentFilter(portalType: string, title: Option<string>, extra: Filter): Filter
  {
    var f := map["portal_type" := Some(portalType)];
    var f := if Truthy(title) then f["title" := title] else f;
    f + extra
  }

  /** The retry query of `get_object` for analysis services: the title as a keyword. */
  function KeywordFilter(portalType: string, title: Option<string>): Filter
  {
    map["portal_type" := Some(portalType), "getKeyword" := title]
  }

  /** `get_object(catalog, portal_type, title, **extra)`: at most one entity, and only one
      the catalog returned for the query (or, for analysis services, for the keyword retry). */
  function GetObject(catalog: Catalog, portalType: string, title: Option<string>, extra: Filter): (r: Option<Entity>)
    ensures !Truthy(title) && extra == map[] ==> r == None
    ensures r.Some? ==>
      || catalog(ContentFilter(portalType, title, extra)) == [r.value]
      || (portalType == AnalysisService && r.value in catalog(KeywordFilter(portalType, title)))
  {
    if !Truthy(title) && extra == map[] then None
    else
      var brains := catalog(ContentFilter(portalType, title, extra));
      if |brains| > 1 then None
      else if |brains| == 0 then
        if portalType == AnalysisService then
          var byKeyword := catalog(KeywordFilter(portalType, title));
          if |byKeyword| > 0 then Some(byKeyword[0]) else None
        else None
      else Some(brains[0])
  }

  /** The resolver's outcome, both directions: an entity is returned exactly when it is
      the only match, or, for an analysis service with no match, the first keyword hit. */
  lemma GetObjectIff(catalog: Catalog, portalType: string, title: Option<string>, extra: Filter, e: Entity)
    ensures GetObject(catalog, portalType, title, extra) == Some(e) <==>
      && (Truthy(title) || extra != map[])
      && var found := catalog(ContentFilter(portalType, title, extra));
         || found == [e]
         || (&& found == []
             && portalType == AnalysisService
             && |catalog(KeywordFilter(portalType, title))| > 0
             && catalog(KeywordFilter(portalType, title))[0] == e)
  {
  }

  /** An ambiguous query never resolves, whatever the kind: the resolver does not guess. */
  lemma AmbiguousIsNone(catalog: Catalog, portalType: string, title: Option<string>, extra: Filter)
    requires |catalog(ContentFilter(portalType, title, extra))| > 1
    ensures GetObject(catalog, portalType, title, extra) == None
  {
  }

  /** Only analysis services have a fallback: for any other kind, no match means `None`. */
  lemma NoFallbackForOtherKinds(catalog: Catalog, portalType: string, title: Option<string>, extra: Filter)
    requires portalType != AnalysisService
    requires catalog(ContentFilter(portalType, title, extra)) == []
    ensures GetObject(catalog, portalType, title, extra) == None
  {
  }

  /** `Analysis_Specifications.resolve_service`: the first service by title, else the first
      by keyword; `None` stands for the `IndexError` the source raises when neither matches. */
  function ResolveService(catalog: Catalog, service: string): (r: Option<Entity>)
    ensures r.None? <==>
      catalog(map["portal_type" := Some(AnalysisService), "title" := Some(service)]) == []
      && catalog(map["portal_type" := Some(AnalysisService), "getKeyword" := Some(service)]) == []
    ensures r.Some? ==>
      r.value in catalog(map["portal_type" := Some(AnalysisService), "title" := Some(service)])
      || r.value in catalog(map["portal_type" := Some(AnalysisService), "getKeyword" := Some(service)])
  {
    var byTitle := catalog(map["portal_type" := Some(AnalysisService), "title" := Some(service)]);
    if |byTitle| > 0 then Some(byTitle[0])
    else
      var byKeyword := catalog(map["portal_type" := Some(AnalysisService), "getKeyword" := Some(service)]);
      if |byKeyword| > 0 then Some(byKeyword[0]) else None
  }

  // ---------------------------------------------------------------- get_relations

  /** How an importer finds the entity a row names, e.g. `get_object` on one of its columns. */
  type Resolver = Record -> Option<Entity>

  /** `get_object(cat, obj_type, row.get(column))`. */
  function ByColumn(catalog: Catalog, objType: string, column: string): Resolver
  {
    row => GetObject(catalog, objType, Lookup(row, column), map[])
  }

  /** What one row of a relation sheet adds for the service: the entity the row names,
      when the row is this service's and the entity is not the default one. */
  function RowRelation(row: Record, resolve: Resolver, serviceTitle: string, defaultObj: Option<Entity>)
    : (out: seq<Entity>)
    ensures |out| <= 1
    ensures forall e :: e in out <==>
      && Lookup(row, "Service_title") == Some(serviceTitle)
      && resolve(row) == Some(e)
      && !(defaultObj.Some? && defaultObj.value.uid == e.uid)
  {
    if Lookup(row, "Service_title") != Some(serviceTitle) then []
    else
      match resolve(row)
      case None => []
      case Some(o) => if defaultObj.Some? && defaultObj.value.uid == o.uid then [] else [o]
  }

  /** The reference definition of what the rows of a relation sheet add for one service:
      rows are read until the first one with an empty `Service_title`, each adding its
      `RowRelation`. */
  function RelationsFrom(rows: seq<Record>, resolve: Resolver, serviceTitle: string, defaultObj: Option<Entity>)
    : seq<Entity>
    decreases |rows|
  {
    if rows == [] then []
    else if !Truthy(Lookup(rows[0], "Service_title")) then []
    else RowRelation(rows[0], resolve, serviceTitle, defaultObj) + RelationsFrom(rows[1..], resolve, serviceTitle, defaultObj)
  }

  function DefaultFirst(defaultObj: Option<Entity>): seq<Entity>
  {
    if defaultObj.Some? then [defaultObj.value] else []
  }

  lemma EntityAssoc(a: seq<Entity>, b: seq<Entity>, c: seq<Entity>)
    ensures a + (b + c) == (a + b) + c
  {
  }

  /** `get_relations`: the default entity first, then the sheet's contributions; the
      lookup of a sheet the workbook lacks raises. */
  method GetRelations(catalog: Catalog, sheet: Option<Sheet>, serviceTitle: string,
                      defaultObj: Option<Entity>, objType: string, column: string)
    returns (out: Result<seq<Entity>, WorkbookError>)
    ensures sheet.None? ==> out == Err(NoSuchSheet)
    ensures sheet.Some? ==> out == Ok(DefaultFirst(defaultObj)
      + RelationsFrom(Yielded(sheet.value, DefaultStartRow), ByColumn(catalog, objType, column), serviceTitle, defaultObj))
  {
    var found := DefaultFirst(defaultObj);
    if sheet.None? {
      return Err(NoSuchSheet);
    }
    var rows;
    ghost var savepoints;
    rows, savepoints := GetRows(sheet.value, DefaultStartRow);
    found := RelationsLoop(found, rows, ByColumn(catalog, objType, column), serviceTitle, defaultObj);
    return Ok(found);
  }

  /** The row loop of `get_relations`: it returns at the first row without a
      `Service_title`, and otherwise adds each row's contribution. */
  method RelationsLoop(out0: seq<Entity>, rows: seq<Record>, resolve: Resolver, serviceTitle: string,
                       defaultObj: Option<Entity>)
    returns (out: seq<Entity>)
    ensures out == out0 + RelationsFrom(rows, resolve, serviceTitle, defaultObj)
  {
    out := out0;
    var i := 0;
    while i < |rows|
      invariant 0 <= i <= |rows|
      invariant out + RelationsFrom(rows[i..], resolve, serviceTitle, defaultObj)
             == out0 + RelationsFrom(rows, resolve, serviceTitle, defaultObj)
    {
      assert rows[i..][0] == rows[i] && rows[i..][1..] == rows[i + 1..];
      if !Truthy(Lookup(rows[i], "Service_title")) {
        assert out + [] == out;
        return;
      }
      EntityAssoc(out, RowRelation(rows[i], resolve, serviceTitle, defaultObj),
                  RelationsFrom(rows[i + 1..], resolve, serviceTitle, defaultObj));
      out := AddRowRelation(out, rows[i], resolve, serviceTitle, defaultObj);
      i := i + 1;
    }
    assert rows[i..] == [];
    assert out + [] == out;
  }

  /** The body of the row loop of `get_relations`, for a row with a `Service_title`. */
  method AddRowRelation(out: seq<Entity>, row: Record, resolve: Resolver, serviceTitle: string, defaultObj: Option<Entity>)
    returns (out': seq<Entity>)
    ensures out' == out + RowRelation(row, resolve, serviceTitle, defaultObj)
  {
    out' := out;
    if Lookup(row, "Service_title") != Some(serviceTitle) {
      return;
    }
    var obj := resolve(row);
    if obj.Some? && !(defaultObj.Some? && defaultObj.value.uid == obj.value.uid) {
      out' := out' + [obj.value];
    }
  }

  /** No entry the sheet adds has the default entity's UID. */
  lemma {:induction false} RelationsSkipDefault(rows: seq<Record>, resolve: Resolver, serviceTitle: string, d: Entity)
    ensures forall e :: e in RelationsFrom(rows, resolve, serviceTitle, Some(d)) ==> e.uid != d.uid
    decreases |rows|
  {
    if rows != [] {
      RelationsSkipDefault(rows[1..], resolve, serviceTitle, d);
    }
  }

  /** Rows after the first one with an empty `Service_title` contribute nothing. */
  lemma {:induction false} RelationsStopAtBlank(rows: seq<Record>, resolve: Resolver, serviceTitle: string,
                                                defaultObj: Option<Entity>, i: nat)
    requires i < |rows| && !Truthy(Lookup(rows[i], "Service_title"))
    ensures RelationsFrom(rows, resolve, serviceTitle, defaultObj)
         == RelationsFrom(rows[..i], resolve, serviceTitle, defaultObj)
    decreases i
  {
    if i > 0 {
      RelationsStopAtBlank(rows[1..], resolve, serviceTitle, defaultObj, i - 1);
      assert rows[..i][1..] == rows[1..][..i - 1];
      assert rows[..i][0] == rows[0];
    }
  }

  /** The first `n` rows all have a `Service_title`. */
  predicate AllTitled(rows: seq<Record>, n: nat)
    requires n <= |rows|
  {
    forall j :: 0 <= j < n ==> Truthy(Lookup(rows[j], "Service_title"))
  }

  lemma AllTitledCons(rows: seq<Record>, n: nat)
    requires 0 < n <= |rows|
    ensures AllTitled(rows, n) <==> Truthy(Lookup(rows[0], "Service_title")) && AllTitled(rows[1..], n - 1)
  {
    if Truthy(Lookup(rows[0], "Service_title")) && AllTitled(rows[1..], n - 1) {
      forall j | 0 < j < n ensures Truthy(Lookup(rows[j], "Service_title")) {
        assert rows[j] == rows[1..][j - 1];
      }
    }
  }

  /** Every entry the sheet adds comes from a row of this service, read before any blank
      `Service_title`, that names it. */
  lemma {:induction false} RelationsFromRows(rows: seq<Record>, resolve: Resolver, serviceTitle: string,
                                             defaultObj: Option<Entity>, e: Entity)
    requires e in RelationsFrom(rows, resolve, serviceTitle, defaultObj)
    ensures exists i :: 0 <= i < |rows| && AllTitled(rows, i + 1)
                        && e in RowRelation(rows[i], resolve, serviceTitle, defaultObj)
    decreases |rows|
  {
    var rest := RelationsFrom(rows[1..], resolve, serviceTitle, defaultObj);
    if e in rest {
      RelationsFromRows(rows[1..], resolve, serviceTitle, defaultObj, e);
      var i :| 0 <= i < |rows[1..]| && AllTitled(rows[1..], i + 1)
               && e in RowRelation(rows[1..][i], resolve, serviceTitle, defaultObj);
      AllTitledCons(rows, i + 2);
      assert rows[i + 1] == rows[1..][i];
    } else {
      AllTitledCons(rows, 1);
      assert e in RowRelation(rows[0], resolve, serviceTitle, defaultObj);
    }
  }
}
