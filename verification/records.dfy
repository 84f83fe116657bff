/**
 The data of the record store: the records kept in the data file, the file's
 top-level document `{ nextId, files }`, and the queries the request handlers
 run over the records (`map`, `find`, `indexOf` and `filter` over the array of
 records), together with the store's invariant and the lemmas that the
 handlers' changes keep it.
 */
module Records {

  datatype Option<+T> = None | Some(value: T)

  /** One stored entry. `id` is assigned by the store; `name` is what the
      listing shows; every other field the schema admits is carried unchanged
      in `other`, keyed by field name, each value kept as its JSON text.
      `other` never holds the keys "id" or "name": those two fields live
      only in `id` and `name`, so one stored object has one representation. */
  datatype Record = Record(id: int, name: string, other: map<string, string>)

  /** The `{id, name}` projection of a record that the listing returns. */
  datatype Summary = Summary(id: int, name: string)

  /** The whole data file: the id counter and the records in file order. */
  datatype Dataset = Dataset(nextId: int, files: seq<Record>)

  /** What checking a record against the external schema answers: either it
      conforms, or the first violation's message and the path within the
      record where it occurred. */
  datatype Verdict = Conforms | Violation(message: string, dataPath: string)

  /** No two records share an id. */
  ghost predicate UniqueIds(files: seq<Record>) {
    forall i, j :: 0 <= i < j < |files| ==> files[i].id != files[j].id
  }

  /** The store's invariant: ids are unique and the counter is above every
      id handed out so far. */
  ghost predicate WellFormed(ds: Dataset) {
    && UniqueIds(ds.files)
    && forall i :: 0 <= i < |ds.files| ==> ds.files[i].id < ds.nextId
  }

  /** No record carries `id`. */
  ghost predicate NoMatch(files: seq<Record>, id: int) {
    forall j :: 0 <= j < |files| ==> files[j].id != id
  }

  /** `k` is the position of the first record that carries `id`. */
  ghost predicate FirstMatch(files: seq<Record>, id: int, k: int) {
    && 0 <= k < |files|
    && files[k].id == id
    && forall j :: 0 <= j < k ==> files[j].id != id
  }

  /** The listing: `files.map(entry => ({id: entry.id, name: entry.name}))`. */
  function Summaries(files: seq<Record>): (list: seq<Summary>)
    ensures |list| == |files|
    ensures forall i :: 0 <= i < |files| ==>
              list[i].id == files[i].id && list[i].name == files[i].name
  {
    if files == [] then []
    else [Summary(files[0].id, files[0].name)] + Summaries(files[1..])
  }

  /** `files.find(entry => entry.id === id)`: the first record carrying `id`,
      if there is one. */
  function Find(files: seq<Record>, id: int): (found: Option<Record>)
    ensures found.None? <==> NoMatch(files, id)
    ensures found.Some? ==> exists k :: FirstMatch(files, id, k) && files[k] == found.value
  {
    if files == [] then None
    else if files[0].id == id then
      assert FirstMatch(files, id, 0);
      Some(files[0])
    else
      var found := Find(files[1..], id);
      if found.Some? then
        assert exists k :: FirstMatch(files, id, k) && files[k] == found.value by {
          var k :| FirstMatch(files[1..], id, k) && files[1..][k] == found.value;
          assert FirstMatch(files, id, k + 1);
        }
        found
      else
        found
  }

  /** `files.indexOf(r)`: the position of the first occurrence of `r`, or -1. */
  function IndexOf(files: seq<Record>, r: Record): (k: int)
    ensures -1 <= k < |files|
    ensures k == -1 <==> r !in files
    ensures 0 <= k ==> files[k] == r && r !in files[..k]
  {
    if files == [] then -1
    else if files[0] == r then 0
    else
      var k := IndexOf(files[1..], r);
      assert files == [files[0]] + files[1..];
      if k == -1 then -1
      else
        assert files[..k + 1] == [files[0]] + files[1..][..k];
        k + 1
  }

  /** `files.filter(entry => entry.id !== id)`: every record except those
      carrying `id`, in their original order. */
  function Without(files: seq<Record>, id: int): (kept: seq<Record>)
    ensures |kept| <= |files|
    ensures forall r :: r in kept <==> r in files && r.id != id
  {
    if files == [] then []
    else if files[0].id == id then Without(files[1..], id)
    else [files[0]] + Without(files[1..], id)
  }

  /** Looking a record up and then asking for its position, as the update
      handler does, lands on the first record carrying the id. */
  lemma IndexOfFound(files: seq<Record>, id: int)
    requires Find(files, id).Some?
    ensures FirstMatch(files, id, IndexOf(files, Find(files, id).value))
  {
  }

  /** The filter works element by element: filtering a concatenation is
      concatenating the filtered parts, so the records that survive keep
      their order and their repetitions. */
  lemma {:induction false} WithoutConcat(a: seq<Record>, b: seq<Record>, id: int)
    ensures Without(a + b, id) == Without(a, id) + Without(b, id)
  {
    if a == [] {
      assert a + b == b;
    } else {
      assert (a + b)[1..] == a[1..] + b;
      WithoutConcat(a[1..], b, id);
    }
  }

  /** Filtering out an id no record carries changes nothing. */
  lemma {:induction false} WithoutAbsent(files: seq<Record>, id: int)
    requires NoMatch(files, id)
    ensures Without(files, id) == files
  {
    if files != [] {
      WithoutAbsent(files[1..], id);
    }
  }

  /** With unique ids, filtering out the id of the record at `k` removes that
      record and no other, and keeps the others in their order. */
  lemma {:induction false} WithoutUnique(files: seq<Record>, k: int)
    requires UniqueIds(files) && 0 <= k < |files|
    ensures Without(files, files[k].id) == files[..k] + files[k + 1..]
  {
    if k == 0 {
      WithoutAbsent(files[1..], files[0].id);
    } else {
      WithoutUnique(files[1..], k - 1);
      assert files[..k] + files[k + 1..] == [files[0]] + (files[1..][..k - 1] + files[1..][k..]);
    }
  }

  /** Filtering keeps ids unique. */
  lemma {:induction false} WithoutKeepsUnique(files: seq<Record>, id: int)
    requires UniqueIds(files)
    ensures UniqueIds(Without(files, id))
  {
    if files != [] {
      var rest := files[1..];
      WithoutKeepsUnique(rest, id);
      forall r | r in Without(rest, id) ensures r.id != files[0].id {
        var j :| 0 <= j < |rest| && rest[j] == r;
        assert files[j + 1] == r;
      }
    }
  }

  /** Appending a record that takes the counter as its id, and then bumping
      the counter, keeps the invariant. */
  lemma AppendKeepsWellFormed(ds: Dataset, r: Record)
    requires WellFormed(ds) && r.id == ds.nextId
    ensures WellFormed(Dataset(ds.nextId + 1, ds.files + [r]))
  {
  }

  /** Replacing a record by one with the same id keeps the invariant. */
  lemma ReplaceKeepsWellFormed(ds: Dataset, k: int, r: Record)
    requires WellFormed(ds) && 0 <= k < |ds.files| && r.id == ds.files[k].id
    ensures WellFormed(Dataset(ds.nextId, ds.files[k := r]))
  {
  }

  /** Filtering out an id keeps the invariant. */
  lemma WithoutKeepsWellFormed(ds: Dataset, id: int)
    requires WellFormed(ds)
    ensures WellFormed(Dataset(ds.nextId, Without(ds.files, id)))
  {
    WithoutKeepsUnique(ds.files, id);
    var kept := Without(ds.files, id);
    forall i | 0 <= i < |kept| ensures kept[i].id < ds.nextId {
      assert kept[i] in ds.files;
    }
  }

  /** A record appended under an id nobody carries is what a later lookup of
      that id finds. */
  lemma {:induction false} FindAfterAppend(files: seq<Record>, r: Record)
    requires NoMatch(files, r.id)
    ensures Find(files + [r], r.id) == Some(r)
  {
    if files != [] {
      assert (files + [r])[1..] == files[1..] + [r];
      FindAfterAppend(files[1..], r);
    }
  }

  /** A record written over the first record carrying its id is what a later
      lookup of that id finds. */
  lemma {:induction false} FindAfterReplace(files: seq<Record>, k: int, r: Record)
    requires FirstMatch(files, r.id, k)
    ensures Find(files[k := r], r.id) == Some(r)
  {
    if k > 0 {
      assert files[k := r][1..] == files[1..][k - 1 := r];
      FindAfterReplace(files[1..], k - 1, r);
    }
  }

  /** After filtering out an id, a lookup of that id finds nothing. */
  lemma FindAfterWithout(files: seq<Record>, id: int)
    ensures Find(Without(files, id), id) == None
  {
  }
}
