/** `Analysis_Services.load_service_uncertainties` and `write_bucket`: rows of the
    "Analysis Service Uncertainties" sheet are grouped by service UID in a bucket that is
    written to the services from time to time, each write extending the service's
    existing uncertainty list. */
module Uncertainties {
  import opened Wrappers
  import opened Worksheet
  import opened Catalog

  /** One entry of a service's uncertainty list. */
  datatype Uncertainty = Uncertainty(interceptMin: string, interceptMax: string, errorValue: string)

  /** Uncertainty lists by service UID; a service that is absent has the empty list. */
  type Lists = map<Uid, seq<Uncertainty>>

  function ListOf(m: Lists, uid: Uid): seq<Uncertainty>
  {
    if uid in m then m[uid] else []
  }

  /** The lists after a bucket is written: each service's list extended by its bucket entries. */
  function Merge(s: Lists, bucket: Lists): (r: Lists)
    ensures r.Keys == s.Keys + bucket.Keys
  {
    map uid | uid in s.Keys + bucket.Keys :: ListOf(s, uid) + ListOf(bucket, uid)
  }

  /** Writing a bucket extends each service's list by exactly its bucket entries. */
  lemma MergeAt(s: Lists, bucket: Lists, uid: Uid)
    ensures ListOf(Merge(s, bucket), uid) == ListOf(s, uid) + ListOf(bucket, uid)
  {
  }

  /** Two list maps with the same services and the same lists are equal. */
  lemma ListsEqual(a: Lists, b: Lists)
    requires a.Keys == b.Keys
    requires forall uid :: ListOf(a, uid) == ListOf(b, uid)
    ensures a == b
  {
    forall uid | uid in a.Keys
      ensures a[uid] == b[uid]
    {
      assert ListOf(a, uid) == ListOf(b, uid);
    }
  }

  lemma MergeEmpty(s: Lists)
    ensures Merge(s, map[]) == s
  {
    forall uid ensures ListOf(Merge(s, map[]), uid) == ListOf(s, uid) {
      MergeAt(s, map[], uid);
    }
    ListsEqual(Merge(s, map[]), s);
  }

  lemma MergeExtendAt(s: Lists, bucket: Lists, uid: Uid, xs: seq<Uncertainty>, u: Uid)
    ensures ListOf(Merge(s, bucket[uid := ListOf(bucket, uid) + xs]), u)
         == ListOf(Merge(s, bucket)[uid := ListOf(Merge(s, bucket), uid) + xs], u)
  {
    MergeAt(s, bucket[uid := ListOf(bucket, uid) + xs], u);
    MergeAt(s, bucket, u);
    if u == uid {
      AppendAssoc(ListOf(s, u), ListOf(bucket, u), xs);
    }
  }

  lemma AppendAssoc(a: seq<Uncertainty>, b: seq<Uncertainty>, c: seq<Uncertainty>)
    ensures a + (b + c) == (a + b) + c
  {
  }

  /** Extending a bucket entry extends the merged list the same way. */
  lemma MergeExtend(s: Lists, bucket: Lists, uid: Uid, xs: seq<Uncertainty>)
    ensures Merge(s, bucket[uid := ListOf(bucket, uid) + xs])
         == Merge(s, bucket)[uid := ListOf(Merge(s, bucket), uid) + xs]
  {
    var lhs := Merge(s, bucket[uid := ListOf(bucket, uid) + xs]);
    var rhs := Merge(s, bucket)[uid := ListOf(Merge(s, bucket), uid) + xs];
    forall u ensures ListOf(lhs, u) == ListOf(rhs, u) {
      MergeExtendAt(s, bucket, uid, xs, u);
    }
    ListsEqual(lhs, rhs);
  }

  /** The entries of the bucket for the services in `keys`. */
  function Part(bucket: Lists, keys: set<Uid>): Lists
  {
    map u | u in keys && u in bucket :: bucket[u]
  }

  lemma PartAdd(bucket: Lists, done: set<Uid>, uid: Uid)
    requires uid in bucket && uid !in done
    ensures Part(bucket, done + {uid}) == Part(bucket, done)[uid := ListOf(Part(bucket, done), uid) + bucket[uid]]
  {
    assert ListOf(Part(bucket, done), uid) == [];
    assert [] + bucket[uid] == bucket[uid];
  }

  lemma PartNone(bucket: Lists)
    ensures Part(bucket, {}) == map[]
  {
  }

  lemma PartAll(bucket: Lists)
    ensures Part(bucket, bucket.Keys) == bucket
  {
  }

  /** The services and their stored uncertainty lists. */
  class ServiceStore {
    var uncertainties: Lists

    constructor (initial: Lists)
      ensures uncertainties == initial
    {
      uncertainties := initial;
    }

    /** `write_bucket(bucket)`: every service of the bucket gets its list extended by the
        bucket's entries for it; the order in which services are visited does not matter. */
    method WriteBucket(bucket: Lists)
      modifies this
      ensures uncertainties == Merge(old(uncertainties), bucket)
    {
      var todo := bucket.Keys;
      ghost var done: set<Uid> := {};
      ghost var s0 := uncertainties;
      PartNone(bucket);
      MergeEmpty(s0);
      while todo != {}
        invariant todo + done == bucket.Keys && todo !! done
        invariant uncertainties == Merge(s0, Part(bucket, done))
        decreases |todo|
      {
        var uid :| uid in todo;
        PartAdd(bucket, done, uid);
        MergeExtend(s0, Part(bucket, done), uid, bucket[uid]);
        uncertainties := uncertainties[uid := ListOf(uncertainties, uid) + bucket[uid]];
        todo := todo - {uid};
        done := done + {uid};
      }
      PartAll(bucket);
    }
  }

  // ---------------------------------------------------------------- the reference definition

  /** The loader's resolver: `get_object` on the row's `Service_title`, with the keyword
      retry analysis services get. */
  function RowService(catalog: Catalog): Resolver
  {
    row => GetObject(catalog, AnalysisService, Lookup(row, "Service_title"), map[])
  }

  /** A row has the three columns the loader reads with `row[...]`. */
  predicate HasColumns(row: Record)
  {
    Lookup(row, "Range Min").Some? && Lookup(row, "Range Max").Some? && Lookup(row, "Uncertainty Value").Some?
  }

  /** A row the loader gets past: it names no service, or it has the three columns. */
  predicate RowOk(resolve: Resolver, row: Record)
  {
    resolve(row).None? || HasColumns(row)
  }

  function EntryOf(row: Record): Uncertainty
  {
    Uncertainty(GetField(row, "Range Min"), GetField(row, "Range Max"), GetField(row, "Uncertainty Value"))
  }

  /** The lists after the first `n` rows have each been added, in order, to the service
      they name; rows naming no service are skipped. */
  function Loaded(s: Lists, resolve: Resolver, rows: seq<Record>, n: nat): Lists
    requires n <= |rows|
    decreases n
  {
    if n == 0 then s
    else
      var prev := Loaded(s, resolve, rows, n - 1);
      match resolve(rows[n - 1])
      case None => prev
      case Some(e) => prev[e.uid := ListOf(prev, e.uid) + [EntryOf(rows[n - 1])]]
  }

  /** The entries the first `n` rows contribute to one service, in row order. */
  function EntriesFor(resolve: Resolver, rows: seq<Record>, n: nat, uid: Uid): seq<Uncertainty>
    requires n <= |rows|
    decreases n
  {
    if n == 0 then []
    else
      var prev := EntriesFor(resolve, rows, n - 1, uid);
      match resolve(rows[n - 1])
      case Some(e) => if e.uid == uid then prev + [EntryOf(rows[n - 1])] else prev
      case None => prev
  }

  /** The number of rows among `rows[a..b]` that name a service. */
  function ResolvedIn(resolve: Resolver, rows: seq<Record>, a: nat, b: nat): (n: nat)
    requires a <= b <= |rows|
    ensures n <= b - a
    decreases b - a
  {
    if a == b then 0
    else ResolvedIn(resolve, rows, a, b - 1) + (if resolve(rows[b - 1]).Some? then 1 else 0)
  }

  /** The index of the first row the loader cannot get past (the `KeyError` of the source),
      or the number of rows when there is none. */
  function FirstBad(resolve: Resolver, rows: seq<Record>): (k: nat)
    ensures k <= |rows|
    ensures forall i :: 0 <= i < k ==> RowOk(resolve, rows[i])
    ensures k < |rows| ==> !RowOk(resolve, rows[k])
    decreases |rows|
  {
    if rows == [] then 0
    else if !RowOk(resolve, rows[0]) then 0
    else
      var k := FirstBad(resolve, rows[1..]);
      assert forall i :: 1 <= i < k + 1 ==> rows[i] == rows[1..][i - 1];
      k + 1
  }

  /** The first `n` rows are all ones the loader gets past. */
  predicate RowsOk(resolve: Resolver, rows: seq<Record>, n: nat)
    requires n <= |rows|
    decreases n
  {
    n == 0 || (RowsOk(resolve, rows, n - 1) && RowOk(resolve, rows[n - 1]))
  }

  lemma {:induction false} RowsOkAll(resolve: Resolver, rows: seq<Record>, n: nat)
    requires n <= |rows| && RowsOk(resolve, rows, n)
    ensures forall i :: 0 <= i < n ==> RowOk(resolve, rows[i])
    decreases n
  {
    if n > 0 {
      RowsOkAll(resolve, rows, n - 1);
    }
  }

  /** The loader stops at row `k` exactly when `k` is the first row it cannot get past. */
  lemma FirstBadIs(resolve: Resolver, rows: seq<Record>, k: nat)
    requires k <= |rows| && RowsOk(resolve, rows, k)
    requires k < |rows| ==> !RowOk(resolve, rows[k])
    ensures FirstBad(resolve, rows) == k
  {
    RowsOkAll(resolve, rows, k);
  }

  /** Each service's list ends up as its old list followed by the entries of its rows, in
      row order; a service no row names keeps its list. */
  lemma {:induction false} LoadedLists(s: Lists, resolve: Resolver, rows: seq<Record>, n: nat, uid: Uid)
    requires n <= |rows|
    ensures ListOf(Loaded(s, resolve, rows, n), uid) == ListOf(s, uid) + EntriesFor(resolve, rows, n, uid)
    decreases n
  {
    if n > 0 {
      LoadedLists(s, resolve, rows, n - 1, uid);
      AppendAssoc(ListOf(s, uid), EntriesFor(resolve, rows, n - 1, uid), [EntryOf(rows[n - 1])]);
    }
  }

  /** The writes the loader makes as written: one per row after the 500th that names a
      service, plus the final one when those rows are none but some row names a service. */
  function AsWrittenWrites(resolve: Resolver, rows: seq<Record>): nat
  {
    var late := ResolvedIn(resolve, rows, Min(500, |rows|), |rows|);
    late + (if late == 0 && ResolvedIn(resolve, rows, 0, |rows|) > 0 then 1 else 0)
  }

  // ---------------------------------------------------------------- the loaders

  /** What both loaders keep between rows, `i` rows read and `written` of them stored:
      the store holds the reference lists of the stored rows, and the bucket merged into
      it those of the rows read. */
  predicate Pending(s0: Lists, resolve: Resolver, rows: seq<Record>, i: nat, written: nat, store: Lists, bucket: Lists)
  {
    && written <= i <= |rows|
    && store == Loaded(s0, resolve, rows, written)
    && Merge(store, bucket) == Loaded(s0, resolve, rows, i)
  }

  /** The body of the row loop up to the write test: a row naming no service is skipped,
      one naming a service is added to the bucket, and a `KeyError` stops the loop at a
      row naming a service without the three columns. */
  method ReadRow(resolve: Resolver, rows: seq<Record>, i: nat, bucket: Lists,
                 ghost s0: Lists, ghost written: nat, ghost stored: Lists)
    returns (ok: bool, resolved: bool, next: Lists)
    requires Pending(s0, resolve, rows, i, written, stored, bucket) && i < |rows|
    ensures resolved <==> resolve(rows[i]).Some?
    ensures ok <==> RowOk(resolve, rows[i])
    ensures ok ==> Pending(s0, resolve, rows, i + 1, written, stored, next)
    ensures ok && !resolved ==> next == bucket
    ensures ok && resolved ==> next != map[]
  {
    var service := resolve(rows[i]);
    resolved := service.Some?;
    if service.None? {
      return true, resolved, bucket;
    }
    var uid := service.value.uid;
    if !HasColumns(rows[i]) {
      return false, resolved, bucket;
    }
    var entry := Uncertainty(Lookup(rows[i], "Range Min").value, Lookup(rows[i], "Range Max").value,
                             Lookup(rows[i], "Uncertainty Value").value);
    assert entry == EntryOf(rows[i]);
    MergeExtend(stored, bucket, uid, [entry]);
    ok, next := true, bucket[uid := ListOf(bucket, uid) + [entry]];
    assert uid in next;
  }

  /** A write in the middle of the loop: afterwards every row read is stored. */
  method Flush(store: ServiceStore, bucket: Lists, ghost s0: Lists, ghost resolve: Resolver,
               ghost rows: seq<Record>, ghost i: nat, ghost written: nat)
    requires Pending(s0, resolve, rows, i, written, store.uncertainties, bucket)
    modifies store
    ensures store.uncertainties == Merge(old(store.uncertainties), bucket)
    ensures Pending(s0, resolve, rows, i, i, store.uncertainties, map[])
  {
    store.WriteBucket(bucket);
    MergeEmpty(store.uncertainties);
  }

  /** The write after the loop, made when the bucket is not empty: afterwards every row
      is stored. */
  method Finish(store: ServiceStore, bucket: Lists, ghost s0: Lists, ghost resolve: Resolver,
                ghost rows: seq<Record>, ghost written: nat)
    returns (wrote: bool)
    requires Pending(s0, resolve, rows, |rows|, written, store.uncertainties, bucket)
    modifies store
    ensures wrote <==> bucket != map[]
    ensures store.uncertainties == Loaded(s0, resolve, rows, |rows|)
  {
    wrote := bucket != map[];
    if wrote {
      store.WriteBucket(bucket);
    } else {
      MergeEmpty(store.uncertainties);
    }
  }

  /** The write count of the as-written loader after one more row. */
  lemma AsWrittenStep(resolve: Resolver, rows: seq<Record>, i: nat)
    requires i < |rows|
    ensures ResolvedIn(resolve, rows, Min(500, i + 1), i + 1)
         == ResolvedIn(resolve, rows, Min(500, i), i) + (if i >= 500 && resolve(rows[i]).Some? then 1 else 0)
  {
  }

  /** What the as-written loop keeps: `count` is the number of rows read, the writes
      so far are one per resolved row past the 500th, and before the first of them the
      bucket is empty exactly when no row has named a service. */
  predicate AsWrittenInv(s0: Lists, resolve: Resolver, rows: seq<Record>, i: nat, written: nat,
                         store: Lists, bucket: Lists, count: int, writes: nat)
  {
    && Pending(s0, resolve, rows, i, written, store, bucket)
    && RowsOk(resolve, rows, i)
    && count == i
    && writes == ResolvedIn(resolve, rows, Min(500, i), i)
    && (writes == 0 ==> written == 0)
    && (writes > 0 ==> bucket == map[])
    && (writes == 0 ==> (bucket == map[] <==> ResolvedIn(resolve, rows, 0, i) == 0))
  }

  /** One pass of the as-written row loop: `count` goes up, the row is read, and the
      bucket is written when the row named a service and `count` is past 500. (The
      invariant is compared with `true` so that the verifier proves it as one fact from
      the helpers' postconditions instead of conjunct by conjunct.) */
  method StepAsWritten(store: ServiceStore, resolve: Resolver, rows: seq<Record>, i: nat,
                       bucket: Lists, count: int, ghost s0: Lists, ghost writes: nat, ghost written: nat)
    returns (ok: bool, bucket': Lists, count': int, ghost writes': nat, ghost written': nat)
    requires i < |rows|
    requires AsWrittenInv(s0, resolve, rows, i, written, store.uncertainties, bucket, count, writes)
    modifies store
    ensures ok <==> RowOk(resolve, rows[i])
    ensures ok ==> (AsWrittenInv(s0, resolve, rows, i + 1, written', store.uncertainties, bucket', count', writes') == true)
    ensures !ok ==> store.uncertainties == old(store.uncertainties) && written' == written
  {
    count' := count + 1;
    AsWrittenStep(resolve, rows, i);
    var resolved;
    ok, resolved, bucket' := ReadRow(resolve, rows, i, bucket, s0, written, store.uncertainties);
    writes', written' := writes, written;
    if !ok {
      return;
    }
    if resolved && count' > 500 {
      ghost var stored := store.uncertainties;
      Flush(store, bucket', s0, resolve, rows, i + 1, written);
      AsWrittenFlushed(s0, resolve, rows, i, written, stored, bucket, count, writes, store.uncertainties);
      writes', written', bucket' := writes + 1, i + 1, map[];
      return;
    }
    AsWrittenKept(s0, resolve, rows, i, written, store.uncertainties, bucket, bucket', count, writes);
  }

  /** The as-written invariant after a row that causes no write. */
  lemma AsWrittenKept(s0: Lists, resolve: Resolver, rows: seq<Record>, i: nat, written: nat,
                      stored: Lists, bucket: Lists, next: Lists, count: int, writes: nat)
    requires AsWrittenInv(s0, resolve, rows, i, written, stored, bucket, count, writes)
    requires i < |rows| && RowOk(resolve, rows[i])
    requires Pending(s0, resolve, rows, i + 1, written, stored, next)
    requires resolve(rows[i]).None? ==> next == bucket
    requires resolve(rows[i]).Some? ==> next != map[] && count + 1 <= 500
    ensures AsWrittenInv(s0, resolve, rows, i + 1, written, stored, next, count + 1, writes)
  {
    AsWrittenStep(resolve, rows, i);
  }

  /** The as-written invariant after a row that causes a write. */
  lemma AsWrittenFlushed(s0: Lists, resolve: Resolver, rows: seq<Record>, i: nat, written: nat,
                         stored: Lists, bucket: Lists, count: int, writes: nat, flushed: Lists)
    requires AsWrittenInv(s0, resolve, rows, i, written, stored, bucket, count, writes)
    requires i < |rows| && RowOk(resolve, rows[i])
    requires resolve(rows[i]).Some? && count + 1 > 500
    requires Pending(s0, resolve, rows, i + 1, i + 1, flushed, map[])
    ensures AsWrittenInv(s0, resolve, rows, i + 1, i + 1, flushed, map[], count + 1, writes + 1)
  {
    AsWrittenStep(resolve, rows, i);
  }

  /** The row loop of `load_service_uncertainties` as written: `count` counts every row and
      is never reset, so once it passes 500 every row that names a service is written on
      its own. `ok` is false when a row that names a service lacks one of the three
      columns: the first `written` rows have then reached the store and the pending
      bucket is lost with the exception. */
  method LoadRows(store: ServiceStore, resolve: Resolver, rows: seq<Record>)
    returns (ok: bool, ghost writes: nat, ghost written: nat)
    modifies store
    ensures ok <==> FirstBad(resolve, rows) == |rows|
    ensures ok ==> store.uncertainties == Loaded(old(store.uncertainties), resolve, rows, |rows|)
    ensures ok ==> writes == AsWrittenWrites(resolve, rows)
    ensures !ok ==> written <= FirstBad(resolve, rows)
                    && store.uncertainties == Loaded(old(store.uncertainties), resolve, rows, written)
  {
    ghost var s0 := store.uncertainties;
    ok, writes, written := true, 0, 0;
    var bucket: Lists := map[];
    var count := 0;
    var i := 0;
    MergeEmpty(s0);
    while i < |rows|
      invariant AsWrittenInv(s0, resolve, rows, i, written, store.uncertainties, bucket, count, writes)
    {
      ok, bucket, count, writes, written := StepAsWritten(store, resolve, rows, i, bucket, count, s0, writes, written);
      if !ok {
        FirstBadIs(resolve, rows, i);
        return;
      }
      i := i + 1;
    }
    FirstBadIs(resolve, rows, |rows|);
    var wrote := Finish(store, bucket, s0, resolve, rows, written);
    if wrote {
      writes := writes + 1;
    }
  }

  /** `load_service_uncertainties`: the row loop over the sheet's data rows. `ok` is false
      when an exception escapes: the `KeyError` of `workbook[sheetname]` for a missing
      sheet, which comes before anything is written, or that of a bad row. */
  method LoadServiceUncertainties(store: ServiceStore, catalog: Catalog, sheet: Option<Sheet>)
    returns (ok: bool, ghost writes: nat, ghost written: nat)
    modifies store
    ensures sheet.None? ==> !ok && writes == 0 && written == 0 && store.uncertainties == old(store.uncertainties)
    ensures sheet.Some? ==>
      var rows := Yielded(sheet.value, DefaultStartRow);
      && (ok <==> FirstBad(RowService(catalog), rows) == |rows|)
      && (ok ==> store.uncertainties == Loaded(old(store.uncertainties), RowService(catalog), rows, |rows|))
      && (ok ==> writes == AsWrittenWrites(RowService(catalog), rows))
      && (!ok ==> written <= FirstBad(RowService(catalog), rows)
                  && store.uncertainties == Loaded(old(store.uncertainties), RowService(catalog), rows, written))
  {
    if sheet.None? {
      return false, 0, 0;
    }
    var rows;
    ghost var savepoints;
    rows, savepoints := GetRows(sheet.value, DefaultStartRow);
    ok, writes, written := LoadRows(store, RowService(catalog), rows);
  }

  lemma WritesBound(w: nat, n: nat)
    requires w * 501 <= n
    ensures w <= n / 501
  {
  }

  /** What the repaired loop keeps: each write is paid for by the 501 rows read since
      the one before it. */
  predicate BatchedInv(s0: Lists, resolve: Resolver, rows: seq<Record>, i: nat, written: nat,
                       store: Lists, bucket: Lists, count: int, writes: nat)
  {
    && Pending(s0, resolve, rows, i, written, store, bucket)
    && RowsOk(resolve, rows, i)
    && 0 <= count && writes * 501 + count <= i
  }

  /** One pass of the repaired row loop: as written, but `count` restarts at each write. */
  method StepBatched(store: ServiceStore, resolve: Resolver, rows: seq<Record>, i: nat,
                     bucket: Lists, count: int, ghost s0: Lists, ghost writes: nat, ghost written: nat)
    returns (ok: bool, bucket': Lists, count': int, ghost writes': nat, ghost written': nat)
    requires i < |rows|
    requires BatchedInv(s0, resolve, rows, i, written, store.uncertainties, bucket, count, writes)
    modifies store
    ensures ok <==> RowOk(resolve, rows[i])
    ensures ok ==> (BatchedInv(s0, resolve, rows, i + 1, written', store.uncertainties, bucket', count', writes') == true)
    ensures !ok ==> store.uncertainties == old(store.uncertainties) && written' == written
  {
    count' := count + 1;
    var resolved;
    ok, resolved, bucket' := ReadRow(resolve, rows, i, bucket, s0, written, store.uncertainties);
    writes', written' := writes, written;
    if !ok {
      return;
    }
    assert RowsOk(resolve, rows, i + 1);
    if resolved && count' > 500 {
      Flush(store, bucket', s0, resolve, rows, i + 1, written);
      writes', written', bucket', count' := writes + 1, i + 1, map[], 0;
      return;
    }
  }

  /** The row loop with `count` reset at every write: the bucket is written at most once
      per 501 rows read, plus the final write, and the store ends up the same. */
  method LoadRowsBatched(store: ServiceStore, resolve: Resolver, rows: seq<Record>)
    returns (ok: bool, ghost writes: nat, ghost written: nat)
    modifies store
    ensures ok <==> FirstBad(resolve, rows) == |rows|
    ensures ok ==> store.uncertainties == Loaded(old(store.uncertainties), resolve, rows, |rows|)
    ensures ok ==> writes <= |rows| / 501 + 1
    ensures !ok ==> written <= FirstBad(resolve, rows)
                    && store.uncertainties == Loaded(old(store.uncertainties), resolve, rows, written)
  {
    ghost var s0 := store.uncertainties;
    ok, writes, written := true, 0, 0;
    var bucket: Lists := map[];
    var count := 0;
    var i := 0;
    MergeEmpty(s0);
    while i < |rows|
      invariant BatchedInv(s0, resolve, rows, i, written, store.uncertainties, bucket, count, writes)
    {
      ok, bucket, count, writes, written := StepBatched(store, resolve, rows, i, bucket, count, s0, writes, written);
      if !ok {
        FirstBadIs(resolve, rows, i);
        return;
      }
      i := i + 1;
    }
    FirstBadIs(resolve, rows, |rows|);
    WritesBound(writes, |rows|);
    var wrote := Finish(store, bucket, s0, resolve, rows, written);
    if wrote {
      writes := writes + 1;
    }
  }

  /** The loader with the batching repaired; a missing sheet raises as before. */
  method LoadServiceUncertaintiesBatched(store: ServiceStore, catalog: Catalog, sheet: Option<Sheet>)
    returns (ok: bool, ghost writes: nat, ghost written: nat)
    modifies store
    ensures sheet.None? ==> !ok && writes == 0 && written == 0 && store.uncertainties == old(store.uncertainties)
    ensures sheet.Some? ==>
      var rows := Yielded(sheet.value, DefaultStartRow);
      && (ok <==> FirstBad(RowService(catalog), rows) == |rows|)
      && (ok ==> store.uncertainties == Loaded(old(store.uncertainties), RowService(catalog), rows, |rows|))
      && (ok ==> writes <= |rows| / 501 + 1)
      && (!ok ==> written <= FirstBad(RowService(catalog), rows)
                  && store.uncertainties == Loaded(old(store.uncertainties), RowService(catalog), rows, written))
  {
    if sheet.None? {
      return false, 0, 0;
    }
    var rows;
    ghost var savepoints;
    rows, savepoints := GetRows(sheet.value, DefaultStartRow);
    ok, writes, written := LoadRowsBatched(store, RowService(catalog), rows);
  }

  // ---------------------------------------------------------------- the write count

  lemma {:induction false} AllResolved(resolve: Resolver, rows: seq<Record>, a: nat, b: nat)
    requires a <= b <= |rows|
    requires forall i :: 0 <= i < |rows| ==> resolve(rows[i]).Some?
    ensures ResolvedIn(resolve, rows, a, b) == b - a
    decreases b - a
  {
    if a < b {
      AllResolved(resolve, rows, a, b - 1);
    }
  }

  /** As written, a sheet whose rows all name a service, with more than 500 of them, is
      written once for every row past the 500th. */
  lemma AsWrittenWritesPerRow(resolve: Resolver, rows: seq<Record>)
    requires |rows| > 500
    requires forall i :: 0 <= i < |rows| ==> resolve(rows[i]).Some?
    ensures AsWrittenWrites(resolve, rows) == |rows| - 500
  {
    AllResolved(resolve, rows, 500, |rows|);
  }

  /** 1200 rows that all name a service: 700 writes as written (against at most
      1200 / 501 + 1, that is 3, for `LoadRowsBatched`). */
  lemma ThousandTwoHundredRows(resolve: Resolver, rows: seq<Record>)
    requires |rows| == 1200
    requires forall i :: 0 <= i < |rows| ==> resolve(rows[i]).Some?
    ensures AsWrittenWrites(resolve, rows) == 700
  {
    AsWrittenWritesPerRow(resolve, rows);
  }
}
