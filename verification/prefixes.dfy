/** `ID_Prefixes.Import`: each row of the sheet replaces the ID-formatting entry of its
    portal type, or adds one. */
module IdPrefixes {
  import opened Wrappers
  import opened Worksheet

  /** One entry of the setup's ID formatting list: the portal type it is for and its
      other settings (`padding`, `prefix`, `separator`, and whatever older entries hold). */
  datatype IdFormat = IdFormat(portalType: string, settings: map<string, string>)

  /** `[p for p in prefixes if p['portal_type'] != portal_type]`. */
  function Without(ps: seq<IdFormat>, pt: string): (r: seq<IdFormat>)
    ensures |r| <= |ps|
    ensures forall i :: 0 <= i < |r| ==> r[i].portalType != pt
    ensures forall p :: p in r <==> p in ps && p.portalType != pt
    decreases |ps|
  {
    if ps == [] then []
    else if ps[0].portalType == pt then Without(ps[1..], pt)
    else [ps[0]] + Without(ps[1..], pt)
  }

  /** The separator of a row: `'-'` when the sheet has no such column, and `''` for the
      word `'none'`, which the sheet uses to mean "no separator". */
  function SeparatorOf(row: Record): (sep: string)
    ensures Lookup(row, "separator").None? ==> sep == "-"
    ensures Lookup(row, "separator") == Some("none") ==> sep == ""
    ensures Lookup(row, "separator").Some? && Lookup(row, "separator").value != "none" ==>
      sep == Lookup(row, "separator").value
  {
    var sep := match Lookup(row, "separator") case Some(s) => s case None => "-";
    if sep == "none" then "" else sep
  }

  /** The entry a row asks for; a missing `portal_type`, `padding` or `prefix` column is
      the `KeyError` of `row[...]`, reported by the column's name. */
  function NewEntry(row: Record): (r: Result<IdFormat, string>)
    ensures r.Ok? <==>
      Lookup(row, "portal_type").Some? && Lookup(row, "padding").Some? && Lookup(row, "prefix").Some?
    ensures r.Ok? ==> r.value.portalType == Lookup(row, "portal_type").value
    ensures r.Ok? ==> r.value.settings == map["padding" := Lookup(row, "padding").value,
                                              "prefix" := Lookup(row, "prefix").value,
                                              "separator" := SeparatorOf(row)]
    ensures r.Err? ==> r.error in {"portal_type", "padding", "prefix"} && Lookup(row, r.error).None?
  {
    if Lookup(row, "portal_type").None? then Err("portal_type")
    else if Lookup(row, "padding").None? then Err("padding")
    else if Lookup(row, "prefix").None? then Err("prefix")
    else
      Ok(IdFormat(Lookup(row, "portal_type").value,
                  map["padding" := Lookup(row, "padding").value,
                      "prefix" := Lookup(row, "prefix").value,
                      "separator" := SeparatorOf(row)]))
  }

  /** One row's update: the old entry of the portal type goes, the new one goes last. */
  function WithEntry(ps: seq<IdFormat>, e: IdFormat): seq<IdFormat>
  {
    Without(ps, e.portalType) + [e]
  }

  /** The list after the rows, taken in order from `ps`; the first bad row stops the
      import. */
  function ApplyRows(ps: seq<IdFormat>, rows: seq<Record>): Result<seq<IdFormat>, string>
    decreases |rows|
  {
    if rows == [] then Ok(ps)
    else
      match NewEntry(rows[0])
      case Err(msg) => Err(msg)
      case Ok(e) => ApplyRows(WithEntry(ps, e), rows[1..])
  }

  /** The loop of `ID_Prefixes.Import`. The source never stores the list it builds (the
      call that would save it is commented out), so the method only returns it. */
  method ImportIdPrefixes(initial: seq<IdFormat>, rows: seq<Record>) returns (r: Result<seq<IdFormat>, string>)
    ensures r == ApplyRows(initial, rows)
  {
    var prefixes := initial;
    for i := 0 to |rows|
      invariant ApplyRows(initial, rows) == ApplyRows(prefixes, rows[i..])
    {
      assert rows[i..][1..] == rows[i + 1..];
      var entry := NewEntry(rows[i]);
      if entry.Err? {
        return Err(entry.error);
      }
      prefixes := Without(prefixes, entry.value.portalType);
      prefixes := prefixes + [entry.value];
    }
    return Ok(prefixes);
  }

  // ---------------------------------------------------------------- properties

  lemma {:induction false} WithoutAppend(a: seq<IdFormat>, b: seq<IdFormat>, pt: string)
    ensures Without(a + b, pt) == Without(a, pt) + Without(b, pt)
    decreases |a|
  {
    if a == [] {
      assert a + b == b;
    } else {
      var ab := a + b;
      assert ab[0] == a[0] && ab[1..] == a[1..] + b;
      WithoutAppend(a[1..], b, pt);
      if a[0].portalType != pt {
        Assoc([a[0]], Without(a[1..], pt), Without(b, pt));
      }
    }
  }

  lemma Assoc(a: seq<IdFormat>, b: seq<IdFormat>, c: seq<IdFormat>)
    ensures a + (b + c) == (a + b) + c
  {
  }

  lemma {:induction false} WithoutTwice(ps: seq<IdFormat>, pt: string)
    ensures Without(Without(ps, pt), pt) == Without(ps, pt)
    decreases |ps|
  {
    if ps != [] {
      WithoutTwice(ps[1..], pt);
    }
  }

  /** After a row, its portal type has exactly one entry, the new one, and it is last;
      the entries of every other portal type are the old ones, in their old order. */
  lemma WithEntrySpec(ps: seq<IdFormat>, e: IdFormat)
    ensures var r := WithEntry(ps, e);
      && r[|r| - 1] == e
      && (forall i :: 0 <= i < |r| - 1 ==> r[i].portalType != e.portalType)
      && Without(r, e.portalType) == Without(ps, e.portalType)
  {
    WithoutAppend(Without(ps, e.portalType), [e], e.portalType);
    WithoutTwice(ps, e.portalType);
  }

  /** Importing the same row twice is the same as importing it once. */
  lemma WithEntryIdempotent(ps: seq<IdFormat>, e: IdFormat)
    ensures WithEntry(WithEntry(ps, e), e) == WithEntry(ps, e)
  {
    WithEntrySpec(ps, e);
  }

  /** No portal type has two entries. */
  predicate DistinctTypes(ps: seq<IdFormat>)
  {
    forall i, j :: 0 <= i < j < |ps| ==> ps[i].portalType != ps[j].portalType
  }

  lemma {:induction false} WithoutDistinct(ps: seq<IdFormat>, pt: string)
    requires DistinctTypes(ps)
    ensures DistinctTypes(Without(ps, pt))
    decreases |ps|
  {
    if ps != [] {
      WithoutDistinct(ps[1..], pt);
      var rest := Without(ps[1..], pt);
      forall i | 0 <= i < |rest| ensures rest[i].portalType != ps[0].portalType {
        assert rest[i] in ps[1..];
        var j :| 0 <= j < |ps[1..]| && ps[1..][j] == rest[i];
        assert ps[j + 1] == rest[i];
      }
    }
  }

  /** A list with one entry per portal type keeps that shape through every import. */
  lemma {:induction false} ApplyRowsDistinct(ps: seq<IdFormat>, rows: seq<Record>)
    requires DistinctTypes(ps)
    ensures ApplyRows(ps, rows).Ok? ==> DistinctTypes(ApplyRows(ps, rows).value)
    decreases |rows|
  {
    if rows != [] && NewEntry(rows[0]).Ok? {
      var e := NewEntry(rows[0]).value;
      WithoutDistinct(ps, e.portalType);
      ApplyRowsDistinct(WithEntry(ps, e), rows[1..]);
    }
  }

  /** The list has an entry of portal type `pt`. */
  predicate HasType(ps: seq<IdFormat>, pt: string)
  {
    exists p :: p in ps && p.portalType == pt
  }

  lemma WithEntryHasType(ps: seq<IdFormat>, e: IdFormat, pt: string)
    requires HasType(ps, pt) || pt == e.portalType
    ensures HasType(WithEntry(ps, e), pt)
  {
    var r := WithEntry(ps, e);
    if pt == e.portalType {
      assert r[|r| - 1] == e;
    } else {
      var p :| p in ps && p.portalType == pt;
      assert p in Without(ps, e.portalType);
    }
  }

  /** Once a portal type has an entry, later rows never leave it without one. */
  lemma {:induction false} ApplyRowsKeepsTypes(ps: seq<IdFormat>, rows: seq<Record>, pt: string)
    requires HasType(ps, pt)
    ensures ApplyRows(ps, rows).Ok? ==> HasType(ApplyRows(ps, rows).value, pt)
    decreases |rows|
  {
    if rows != [] && NewEntry(rows[0]).Ok? {
      var e := NewEntry(rows[0]).value;
      WithEntryHasType(ps, e, pt);
      ApplyRowsKeepsTypes(WithEntry(ps, e), rows[1..], pt);
    }
  }

  /** After a successful import every row's portal type has an entry. */
  lemma {:induction false} ApplyRowsCovers(ps: seq<IdFormat>, rows: seq<Record>)
    ensures ApplyRows(ps, rows).Ok? ==>
      forall k :: 0 <= k < |rows| ==>
        Lookup(rows[k], "portal_type").Some? && HasType(ApplyRows(ps, rows).value, Lookup(rows[k], "portal_type").value)
    decreases |rows|
  {
    if rows != [] && NewEntry(rows[0]).Ok? {
      var e := NewEntry(rows[0]).value;
      var ps' := WithEntry(ps, e);
      ApplyRowsCovers(ps', rows[1..]);
      WithEntryHasType(ps, e, e.portalType);
      ApplyRowsKeepsTypes(ps', rows[1..], e.portalType);
      forall k | 1 <= k < |rows| ensures rows[k] == rows[1..][k - 1] {}
    }
  }

  /** An entry whose portal type no row names comes through the import unchanged. */
  lemma {:induction false} ApplyRowsKeepsOthers(ps: seq<IdFormat>, rows: seq<Record>, p: IdFormat)
    requires p in ps
    requires forall k :: 0 <= k < |rows| ==> Lookup(rows[k], "portal_type") != Some(p.portalType)
    ensures ApplyRows(ps, rows).Ok? ==> p in ApplyRows(ps, rows).value
    decreases |rows|
  {
    if rows != [] && NewEntry(rows[0]).Ok? {
      var e := NewEntry(rows[0]).value;
      assert p in Without(ps, e.portalType);
      forall k | 0 <= k < |rows[1..]| ensures Lookup(rows[1..][k], "portal_type") != Some(p.portalType) {
        assert rows[1..][k] == rows[k + 1];
      }
      ApplyRowsKeepsOthers(WithEntry(ps, e), rows[1..], p);
    }
  }

  /** The last row's entry ends the list. */
  lemma {:induction false} ApplyRowsLastRow(ps: seq<IdFormat>, rows: seq<Record>)
    requires rows != []
    ensures ApplyRows(ps, rows).Ok? ==>
      |ApplyRows(ps, rows).value| > 0
      && NewEntry(rows[|rows| - 1]) == Ok(Last(ApplyRows(ps, rows).value))
    decreases |rows|
  {
    var n := NewEntry(rows[0]);
    if n.Ok? {
      var ps' := WithEntry(ps, n.value);
      assert ApplyRows(ps, rows) == ApplyRows(ps', rows[1..]);
      if |rows| == 1 {
        assert ApplyRows(ps', rows[1..]) == Ok(ps');
        WithEntrySpec(ps, n.value);
      } else {
        ApplyRowsLastRow(ps', rows[1..]);
        assert rows[1..][|rows[1..]| - 1] == rows[|rows| - 1];
      }
    }
  }

  function Last(ps: seq<IdFormat>): IdFormat
    requires ps != []
  {
    ps[|ps| - 1]
  }
}
