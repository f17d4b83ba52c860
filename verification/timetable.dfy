/** The build timetable: `tt_t` of src/util/cbtimetable.h, whose rows are
    `tt_entry_t`, with the append and the linear search of
    src/util/cbtimetable.c (`time_table_push`, `time_table_search`; the
    orchestrator calls them `tt_push` and `tt_search`). */
module TimeTable {
  import opened Wrappers
  import opened CbStr

  const Two64: int := 0x1_0000_0000_0000_0000
  const Two63: int := 0x8000_0000_0000_0000

  /** The 64-bit pattern of a `time_t`, read as an unsigned number (as `%lu`
      prints it and as the binary layout stores it). */
  function U64(x: int): (r: nat)
    ensures r < Two64
  {
    x % Two64
  }

  /** A 64-bit pattern read back into the signed `time_t`. */
  function Signed(v: nat): (r: int)
    requires v < Two64
    ensures -Two63 <= r < Two63 && U64(r) == v
  {
    if v >= Two63 then v - Two64 else v
  }

  /** Storing a `time_t` as its pattern and reading the pattern back loses
      nothing. */
  lemma SignedU64(t: int)
    requires -Two63 <= t < Two63
    ensures Signed(U64(t)) == t
  {
  }

  /** One row: a source file, the directory it was found in, the object it
      was compiled to, and the file's write time at that compile. */
  datatype Entry = Entry(file: Str, parent: Str, obj: Str, writeTime: int) {
    predicate Valid() {
      file.Valid() && parent.Valid() && obj.Valid()
    }
  }

  /** The rows in insertion order, and whether the last link succeeded. */
  datatype Table = Table(entries: seq<Entry>, buildSuccess: bool) {
    predicate Valid() {
      forall k :: 0 <= k < |entries| ==> entries[k].Valid()
    }
  }

  /** A table with no rows; the last link counts as not having succeeded. */
  function Empty(): (t: Table)
    ensures t.Valid() && t.entries == [] && !t.buildSuccess
  {
    Table([], false)
  }

  /** `time_table_push`: the row goes to index `len`. */
  function Push(t: Table, e: Entry): (r: Table)
    ensures |r.entries| == |t.entries| + 1 && r.entries[|t.entries|] == e
    ensures r.entries[..|t.entries|] == t.entries && r.buildSuccess == t.buildSuccess
    ensures t.Valid() && e.Valid() ==> r.Valid()
  {
    Table(t.entries + [e], t.buildSuccess)
  }

  /** Both keys compare equal under `cbstr_cmp`. */
  predicate Matches(e: Entry, file: Str, parent: Str)
    requires e.Valid() && file.Valid() && parent.Valid()
  {
    Same(e.file, file) && Same(e.parent, parent)
  }

  /** `time_table_search` from row `i` on: the index of the first row whose
      keys both match, or `None` (the C `NULL`) when no row does. */
  function SearchFrom(t: Table, file: Str, parent: Str, i: nat): (r: Option<nat>)
    requires t.Valid() && file.Valid() && parent.Valid() && i <= |t.entries|
    ensures r.Some? ==> i <= r.value < |t.entries| && Matches(t.entries[r.value], file, parent)
    ensures r.Some? ==> forall k :: i <= k < r.value ==> !Matches(t.entries[k], file, parent)
    ensures r.None? <==> forall k :: i <= k < |t.entries| ==> !Matches(t.entries[k], file, parent)
    decreases |t.entries| - i
  {
    if i == |t.entries| then None
    else if Matches(t.entries[i], file, parent) then Some(i)
    else SearchFrom(t, file, parent, i + 1)
  }

  function Search(t: Table, file: Str, parent: Str): (r: Option<nat>)
    requires t.Valid() && file.Valid() && parent.Valid()
    ensures r.Some? ==> r.value < |t.entries| && Matches(t.entries[r.value], file, parent)
    ensures r.Some? ==> forall k :: 0 <= k < r.value ==> !Matches(t.entries[k], file, parent)
    ensures r.None? <==> forall k :: 0 <= k < |t.entries| ==> !Matches(t.entries[k], file, parent)
  {
    SearchFrom(t, file, parent, 0)
  }

  /** No two rows share both keys. */
  predicate UniqueKeys(t: Table)
    requires t.Valid()
  {
    forall i, j :: 0 <= i < j < |t.entries| ==>
      !Matches(t.entries[j], t.entries[i].file, t.entries[i].parent)
  }

  /** `cbstr_cmp` is symmetric, so which row is the probe does not matter. */
  lemma MatchesSymmetric(a: Entry, b: Entry)
    requires a.Valid() && b.Valid()
    ensures Matches(a, b.file, b.parent) <==> Matches(b, a.file, a.parent)
  {
  }

  /** The record a successful compile leaves behind (src/core/cbcore.c):
      a new row holding copies of the keys and the object path when the
      search found none, else only that row's object path and write time
      change. */
  function Upsert(t: Table, found: Option<nat>, file: Str, parent: Str, obj: Str, time: int): (r: Table)
    requires t.Valid() && file.Valid() && parent.Valid() && obj.Valid()
    requires found == Search(t, file, parent)
    ensures r.Valid() && r.buildSuccess == t.buildSuccess
    ensures found.None? ==> r == Push(t, Entry(Copy(file), Copy(parent), Copy(obj), time))
    ensures found.Some? ==> |r.entries| == |t.entries|
    ensures found.Some? ==>
              r.entries[found.value] == t.entries[found.value].(obj := Copy(obj), writeTime := time)
    ensures found.Some? ==>
              forall k :: 0 <= k < |t.entries| && k != found.value ==> r.entries[k] == t.entries[k]
  {
    match found
    case None => Push(t, Entry(Copy(file), Copy(parent), Copy(obj), time))
    case Some(k) => Table(t.entries[k := t.entries[k].(obj := Copy(obj), writeTime := time)], t.buildSuccess)
  }

  /** After the upsert exactly one row carries the keys, with the new object
      path and write time. */
  lemma UpsertFinds(t: Table, file: Str, parent: Str, obj: Str, time: int)
    requires t.Valid() && file.Valid() && parent.Valid() && obj.Valid()
    ensures var r := Upsert(t, Search(t, file, parent), file, parent, obj, time);
            var k := Search(r, file, parent);
            k.Some? && Same(r.entries[k.value].obj, obj) && r.entries[k.value].writeTime == time
  {
    var found := Search(t, file, parent);
    var r := Upsert(t, found, file, parent, obj, time);
    match found
    case None =>
      var n := |t.entries|;
      assert Matches(r.entries[n], file, parent);
      assert forall k :: 0 <= k < n ==> r.entries[k] == t.entries[k];
    case Some(j) =>
      assert Matches(r.entries[j], file, parent);
      assert forall k :: 0 <= k < j ==> r.entries[k] == t.entries[k];
  }

  /** The upsert keeps the keys of the table unique. */
  lemma UpsertKeepsKeysUnique(t: Table, file: Str, parent: Str, obj: Str, time: int)
    requires t.Valid() && file.Valid() && parent.Valid() && obj.Valid() && UniqueKeys(t)
    ensures var r := Upsert(t, Search(t, file, parent), file, parent, obj, time);
            UniqueKeys(r)
  {
    var found := Search(t, file, parent);
    var r := Upsert(t, found, file, parent, obj, time);
    match found
    case None =>
      var n := |t.entries|;
      forall i, j | 0 <= i < j < |r.entries|
        ensures !Matches(r.entries[j], r.entries[i].file, r.entries[i].parent)
      {
        if j == n {
          assert !Matches(t.entries[i], file, parent);
          MatchesSymmetric(r.entries[j], r.entries[i]);
        } else {
          assert r.entries[i] == t.entries[i] && r.entries[j] == t.entries[j];
        }
      }
    case Some(k) =>
      forall i, j | 0 <= i < j < |r.entries|
        ensures !Matches(r.entries[j], r.entries[i].file, r.entries[i].parent)
      {
        assert r.entries[i].file == t.entries[i].file && r.entries[i].parent == t.entries[i].parent;
        assert r.entries[j].file == t.entries[j].file && r.entries[j].parent == t.entries[j].parent;
        assert !Matches(t.entries[j], t.entries[i].file, t.entries[i].parent);
      }
  }

  /** Recording the same file again (in a later run) updates its row in
      place: the table does not grow a second row for it. */
  lemma UpsertAgain(t: Table, file: Str, parent: Str, obj: Str, time: int, obj': Str, time': int)
    requires t.Valid() && file.Valid() && parent.Valid() && obj.Valid() && obj'.Valid()
    ensures var r := Upsert(t, Search(t, file, parent), file, parent, obj, time);
            var r' := Upsert(r, Search(r, file, parent), file, parent, obj', time');
            |r'.entries| == |r.entries| && Search(r', file, parent) == Search(r, file, parent)
  {
    UpsertFinds(t, file, parent, obj, time);
    var r := Upsert(t, Search(t, file, parent), file, parent, obj, time);
    var k := Search(r, file, parent).value;
    var r' := Upsert(r, Search(r, file, parent), file, parent, obj', time');
    assert Matches(r'.entries[k], file, parent);
    assert forall j :: 0 <= j < k ==> r'.entries[j] == r.entries[j];
  }

  /** Every row of `t` is still in `u` at the same index with the same keys:
      what pushes and in-place updates leave behind. */
  predicate KeysKept(t: Table, u: Table) {
    |t.entries| <= |u.entries| &&
    forall k :: 0 <= k < |t.entries| ==>
      u.entries[k].file == t.entries[k].file && u.entries[k].parent == t.entries[k].parent
  }

  lemma KeysKeptTransitive(t: Table, u: Table, v: Table)
    requires KeysKept(t, u) && KeysKept(u, v)
    ensures KeysKept(t, v)
  {
  }

  /** The upsert only appends a row or rewrites the object and time of one. */
  lemma UpsertKeepsKeys(t: Table, file: Str, parent: Str, obj: Str, time: int)
    requires t.Valid() && file.Valid() && parent.Valid() && obj.Valid()
    ensures KeysKept(t, Upsert(t, Search(t, file, parent), file, parent, obj, time))
  {
  }

  /** A file the table knows stays known while its rows keep their keys. */
  lemma KeysKeptFinds(t: Table, u: Table, file: Str, parent: Str)
    requires t.Valid() && u.Valid() && file.Valid() && parent.Valid() && KeysKept(t, u)
    requires Search(t, file, parent).Some?
    ensures Search(u, file, parent).Some?
  {
    var k := Search(t, file, parent).value;
    assert Matches(u.entries[k], file, parent);
  }

  /** Every recorded object path is a terminated string. */
  predicate ObjectsTerminated(t: Table) {
    forall k :: 0 <= k < |t.entries| ==> WellFormed(t.entries[k].obj)
  }

  lemma UpsertKeepsObjectsTerminated(t: Table, found: Option<nat>, file: Str, parent: Str, obj: Str, time: int)
    requires t.Valid() && file.Valid() && parent.Valid() && obj.Valid() && found == Search(t, file, parent)
    ensures ObjectsTerminated(t) && WellFormed(obj) ==> ObjectsTerminated(Upsert(t, found, file, parent, obj, time))
  {
    var r := Upsert(t, found, file, parent, obj, time);
    if found.None? && ObjectsTerminated(t) && WellFormed(obj) {
      assert forall k :: 0 <= k < |t.entries| ==> r.entries[k] == t.entries[k];
    }
  }
}
