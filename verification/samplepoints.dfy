/** `Sample_Point_Sample_Types.Import`: each row links a sample type to a sample point,
    unless the point already lists it. */
module SamplePoints {
  import opened Wrappers
  import opened Worksheet
  import opened Catalog

  /** The sample types each sample point lists, by the point's UID. An entry is `None`
      when the row's sample type did not resolve: the source appends whatever
      `get_object` returned. */
  type Links = map<Uid, seq<Option<Entity>>>

  function TypesOf(links: Links, point: Uid): seq<Option<Entity>>
  {
    if point in links then links[point] else []
  }

  /** `get_object(bsc, 'SampleType', row.get('SampleType_title'))`. */
  function SampleTypeOf(catalog: Catalog, row: Record): Option<Entity>
  {
    GetObject(catalog, "SampleType", Lookup(row, "SampleType_title"), map[])
  }

  /** `get_object(bsc, 'SamplePoint', row['SamplePoint_title'])`; the row must have the column. */
  function SamplePointOf(catalog: Catalog, row: Record): Option<Entity>
    requires Lookup(row, "SamplePoint_title").Some?
  {
    GetObject(catalog, "SamplePoint", Lookup(row, "SamplePoint_title"), map[])
  }

  /** The point's list with the sample type appended when it is not already in it. */
  function AddLink(links: Links, point: Uid, sampleType: Option<Entity>): (r: Links)
    ensures sampleType in TypesOf(r, point)
    ensures sampleType in TypesOf(links, point) ==> r == links
    ensures sampleType !in TypesOf(links, point) ==> TypesOf(r, point) == TypesOf(links, point) + [sampleType]
    ensures forall p :: p != point ==> TypesOf(r, p) == TypesOf(links, p)
  {
    var current := TypesOf(links, point);
    if sampleType in current then links
    else links[point := current + [sampleType]]
  }

  /** What one row does: a missing `SamplePoint_title` column is the `KeyError` of
      `row['SamplePoint_title']`; a point that does not resolve is left alone. */
  function LinkRow(links: Links, catalog: Catalog, row: Record): Result<Links, string>
  {
    if Lookup(row, "SamplePoint_title").None? then Err("SamplePoint_title")
    else
      match SamplePointOf(catalog, row)
      case None => Ok(links)
      case Some(point) => Ok(AddLink(links, point.uid, SampleTypeOf(catalog, row)))
  }

  /** The links after the rows, and the error that stopped the import, if any; the rows
      before the failing one keep their effect. */
  datatype Outcome = Outcome(links: Links, error: Option<string>)

  function LinkRows(links: Links, catalog: Catalog, rows: seq<Record>): Outcome
    decreases |rows|
  {
    if rows == [] then Outcome(links, None)
    else
      match LinkRow(links, catalog, rows[0])
      case Err(msg) => Outcome(links, Some(msg))
      case Ok(next) => LinkRows(next, catalog, rows[1..])
  }

  /** The sample points of the setup, as far as this importer sees them. */
  class SamplePointStore {
    var sampleTypes: Links

    constructor (initial: Links)
      ensures sampleTypes == initial
    {
      sampleTypes := initial;
    }

    /** `samplepoint.setSampleTypes(sampletypes)`. */
    method SetSampleTypes(point: Uid, types: seq<Option<Entity>>)
      modifies this
      ensures sampleTypes == old(sampleTypes)[point := types]
    {
      sampleTypes := sampleTypes[point := types];
    }

    /** The loop of `Sample_Point_Sample_Types.Import` over the rows `get_rows(3)` yields. */
    method Import(catalog: Catalog, rows: seq<Record>) returns (error: Option<string>)
      modifies this
      ensures LinkRows(old(sampleTypes), catalog, rows) == Outcome(sampleTypes, error)
    {
      for i := 0 to |rows|
        invariant LinkRows(old(sampleTypes), catalog, rows) == LinkRows(sampleTypes, catalog, rows[i..])
      {
        assert rows[i..][1..] == rows[i + 1..];
        var row := rows[i];
        var sampleType := SampleTypeOf(catalog, row);
        if Lookup(row, "SamplePoint_title").None? {
          return Some("SamplePoint_title");
        }
        var point := SamplePointOf(catalog, row);
        if point.Some? {
          var types := TypesOf(sampleTypes, point.value.uid);
          if sampleType !in types {
            types := types + [sampleType];
            SetSampleTypes(point.value.uid, types);
          }
        }
      }
      return None;
    }
  }

  // ---------------------------------------------------------------- properties

  /** No point lists a sample type twice. */
  predicate NoDuplicates(links: Links)
  {
    forall p, i, j :: p in links && 0 <= i < j < |links[p]| ==> links[p][i] != links[p][j]
  }

  lemma AddLinkNoDuplicates(links: Links, point: Uid, sampleType: Option<Entity>)
    requires NoDuplicates(links)
    ensures NoDuplicates(AddLink(links, point, sampleType))
  {
    var r := AddLink(links, point, sampleType);
    forall p, i, j | p in r && 0 <= i < j < |r[p]| ensures r[p][i] != r[p][j] {
      if p == point && sampleType !in TypesOf(links, point) {
        assert TypesOf(r, p) == TypesOf(links, p) + [sampleType];
        if j == |r[p]| - 1 {
          assert r[p][i] in TypesOf(links, p);
        }
      } else {
        assert TypesOf(r, p) == TypesOf(links, p);
      }
    }
  }

  /** Importing never gives a point the same sample type twice. */
  lemma {:induction false} LinkRowsNoDuplicates(links: Links, catalog: Catalog, rows: seq<Record>)
    requires NoDuplicates(links)
    ensures NoDuplicates(LinkRows(links, catalog, rows).links)
    decreases |rows|
  {
    if rows != [] {
      var step := LinkRow(links, catalog, rows[0]);
      if step.Ok? {
        if Lookup(rows[0], "SamplePoint_title").Some? && SamplePointOf(catalog, rows[0]).Some? {
          AddLinkNoDuplicates(links, SamplePointOf(catalog, rows[0]).value.uid, SampleTypeOf(catalog, rows[0]));
        }
        LinkRowsNoDuplicates(step.value, catalog, rows[1..]);
      }
    }
  }

  /** Importing only appends: every point's old list is a prefix of its new one. */
  lemma {:induction false} LinkRowsExtends(links: Links, catalog: Catalog, rows: seq<Record>, p: Uid)
    ensures TypesOf(links, p) <= TypesOf(LinkRows(links, catalog, rows).links, p)
    decreases |rows|
  {
    if rows != [] {
      var step := LinkRow(links, catalog, rows[0]);
      if step.Ok? {
        LinkRowsExtends(step.value, catalog, rows[1..], p);
      }
    }
  }

  /** The link a row asks for: its point's UID and its sample type, when the point resolves. */
  predicate Linked(links: Links, catalog: Catalog, row: Record)
  {
    Lookup(row, "SamplePoint_title").Some? ==>
      SamplePointOf(catalog, row).Some? ==>
        SampleTypeOf(catalog, row) in TypesOf(links, SamplePointOf(catalog, row).value.uid)
  }

  lemma LinkedStays(a: Links, b: Links, catalog: Catalog, row: Record)
    requires forall p :: TypesOf(a, p) <= TypesOf(b, p)
    requires Linked(a, catalog, row)
    ensures Linked(b, catalog, row)
  {
  }

  /** After an import that ran to the end, every row's link is in place. */
  lemma {:induction false} LinkRowsCovers(links: Links, catalog: Catalog, rows: seq<Record>)
    ensures LinkRows(links, catalog, rows).error.None? ==>
      forall k :: 0 <= k < |rows| ==> Linked(LinkRows(links, catalog, rows).links, catalog, rows[k])
    decreases |rows|
  {
    if rows != [] {
      var step := LinkRow(links, catalog, rows[0]);
      if step.Ok? {
        var out := LinkRows(links, catalog, rows).links;
        LinkRowsCovers(step.value, catalog, rows[1..]);
        forall p ensures TypesOf(step.value, p) <= TypesOf(out, p) {
          LinkRowsExtends(step.value, catalog, rows[1..], p);
        }
        LinkedStays(step.value, out, catalog, rows[0]);
        forall k | 1 <= k < |rows| ensures rows[k] == rows[1..][k - 1] {}
      }
    }
  }

  /** Rows whose links are all in place change nothing. */
  lemma {:induction false} LinkRowsOfLinked(links: Links, catalog: Catalog, rows: seq<Record>)
    requires forall k :: 0 <= k < |rows| ==> Lookup(rows[k], "SamplePoint_title").Some?
    requires forall k :: 0 <= k < |rows| ==> Linked(links, catalog, rows[k])
    ensures LinkRows(links, catalog, rows) == Outcome(links, None)
    decreases |rows|
  {
    if rows != [] {
      assert LinkRow(links, catalog, rows[0]) == Ok(links);
      forall k | 0 <= k < |rows[1..]| ensures rows[1..][k] == rows[k + 1] {}
      LinkRowsOfLinked(links, catalog, rows[1..]);
    }
  }

  /** Importing the same sheet a second time changes nothing. */
  lemma LinkRowsIdempotent(links: Links, catalog: Catalog, rows: seq<Record>)
    requires LinkRows(links, catalog, rows).error.None?
    ensures LinkRows(LinkRows(links, catalog, rows).links, catalog, rows)
         == Outcome(LinkRows(links, catalog, rows).links, None)
  {
    LinkRowsCovers(links, catalog, rows);
    LinkRowsHaveColumn(links, catalog, rows);
    LinkRowsOfLinked(LinkRows(links, catalog, rows).links, catalog, rows);
  }

  /** An import that ran to the end met no row without a `SamplePoint_title` column. */
  lemma {:induction false} LinkRowsHaveColumn(links: Links, catalog: Catalog, rows: seq<Record>)
    ensures LinkRows(links, catalog, rows).error.None? ==>
      forall k :: 0 <= k < |rows| ==> Lookup(rows[k], "SamplePoint_title").Some?
    decreases |rows|
  {
    if rows != [] {
      var step := LinkRow(links, catalog, rows[0]);
      if step.Ok? {
        LinkRowsHaveColumn(step.value, catalog, rows[1..]);
        forall k | 1 <= k < |rows| ensures rows[k] == rows[1..][k - 1] {}
      }
    }
  }
}
