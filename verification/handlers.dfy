/**
 The five request handlers of the record store, each stripped of HTTP and of
 JSON text: the data file is an object whose fields are the document it holds
 (or the fact that it is missing); a handler loads the document, works on its
 own copy step by step as the handler does, and writes the copy back only on
 success. Schema checking is a parameter `validate` that answers a `Verdict`.
 */
module Handlers {
  import opened Records

  /** What a handler sends back. */
  datatype Response =
    | NotFound                                       // 404 with an empty body
    | BadRequest(message: string, dataPath: string)  // 400 with {error: {message, dataPath}}
    | Listing(entries: seq<Summary>)                 // 200 with the array of {id, name}
    | Entry(record: Record)                          // 200 with one record
    | NoEntryJson(id: int)  // 200 with the JSON string "no entry with id <id>"
    | NoEntryText(id: int)  // 200 with the plain text "no entry with id <id>"

  /** The data file. When `present` is false the file is missing and
      `nextId` and `files` mean nothing. */
  class DataFile {
    var present: bool
    var nextId: int
    var files: seq<Record>

    /** The store's invariant, for a file that exists. */
    ghost predicate Consistent()
      reads this
    {
      present ==> WellFormed(Dataset(nextId, files))
    }

    constructor (initial: Option<Dataset>)
      ensures present <==> initial.Some?
      ensures initial.Some? ==> nextId == initial.value.nextId && files == initial.value.files
    {
      present := initial.Some?;
      nextId := if initial.Some? then initial.value.nextId else 0;
      files := if initial.Some? then initial.value.files else [];
    }

    /** Reading and parsing the file: its document, or None when it is missing. */
    method Load() returns (loaded: Option<Dataset>)
      ensures loaded.Some? <==> present
      ensures loaded.Some? ==> loaded.value.nextId == nextId && loaded.value.files == files
    {
      loaded := if present then Some(Dataset(nextId, files)) else None;
    }

    /** Overwriting the file with a whole document. */
    method Save(ds: Dataset)
      modifies this
      ensures present && nextId == ds.nextId && files == ds.files
    {
      present, nextId, files := true, ds.nextId, ds.files;
    }

    /** GET /files: the `{id, name}` of every record, in file order. */
    method ReadAll() returns (resp: Response)
      ensures !present ==> resp == NotFound
      ensures present ==> resp.Listing? && |resp.entries| == |files|
      ensures present ==> forall i :: 0 <= i < |files| ==>
                resp.entries[i] == Summary(files[i].id, files[i].name)
    {
      var loaded := Load();
      if loaded.None? {
        return NotFound;
      }
      var filesData := loaded.value;
      resp := Listing(Summaries(filesData.files));
    }

    /** GET /files/:id: the first record carrying `id`, or 404. */
    method ReadOne(id: int) returns (resp: Response)
      ensures !present ==> resp == NotFound
      ensures present && NoMatch(files, id) ==> resp == NotFound
      ensures present && !NoMatch(files, id) ==>
                exists k :: FirstMatch(files, id, k) && resp == Entry(files[k])
    {
      var loaded := Load();
      if loaded.None? {
        return NotFound;
      }
      var filesData := loaded.value;
      var entryWithId := Find(filesData.files, id);
      if entryWithId.Some? {
        resp := Entry(entryWithId.value);
      } else {
        resp := NotFound;
      }
    }

    /** POST /files: store `candidate` under the next id. The id is taken and
        the counter bumped before validation; a rejected candidate leaves the
        file as it was, counter included, since nothing is written. */
    method Create(candidate: Record, validate: Record -> Verdict) returns (resp: Response)
      modifies this
      ensures !old(present) ==> resp == NotFound && unchanged(this)
      ensures old(present) && validate(candidate.(id := old(nextId))).Violation? ==>
                var v := validate(candidate.(id := old(nextId)));
                resp == BadRequest(v.message, v.dataPath) && unchanged(this)
      ensures old(present) && validate(candidate.(id := old(nextId))).Conforms? ==>
                && resp == Entry(candidate.(id := old(nextId)))
                && present
                && nextId == old(nextId) + 1
                && files == old(files) + [candidate.(id := old(nextId))]
      ensures old(Consistent()) ==> Consistent()
      ensures old(Consistent()) && resp.Entry? ==> Find(files, resp.record.id) == Some(resp.record)
    {
      var loaded := Load();
      if loaded.None? {
        return NotFound;
      }
      var filesData := loaded.value;
      var newFile := candidate.(id := filesData.nextId);
      filesData := filesData.(nextId := filesData.nextId + 1);
      var verdict := validate(newFile);
      if verdict.Violation? {
        return BadRequest(verdict.message, verdict.dataPath);
      }
      filesData := filesData.(files := filesData.files + [newFile]);
      if Consistent() {
        AppendKeepsWellFormed(loaded.value, newFile);
        FindAfterAppend(loaded.value.files, newFile);
      }
      Save(filesData);
      resp := Entry(newFile);
    }

    /** PUT /files/:id: replace the first record carrying `id` by
        `replacement` with its id forced to `id`. Validation comes before the
        file is even read. */
    method Update(id: int, replacement: Record, validate: Record -> Verdict) returns (resp: Response)
      modifies this
      ensures validate(replacement.(id := id)).Violation? ==>
                var v := validate(replacement.(id := id));
                resp == BadRequest(v.message, v.dataPath) && unchanged(this)
      ensures validate(replacement.(id := id)).Conforms? && !old(present) ==>
                resp == NotFound && unchanged(this)
      ensures validate(replacement.(id := id)).Conforms? && old(present) && NoMatch(old(files), id) ==>
                resp == NoEntryJson(id) && unchanged(this)
      ensures validate(replacement.(id := id)).Conforms? && old(present) && !NoMatch(old(files), id) ==>
                && resp == Entry(replacement.(id := id))
                && present
                && nextId == old(nextId)
                && exists k :: FirstMatch(old(files), id, k) && files == old(files)[k := replacement.(id := id)]
      ensures old(Consistent()) ==> Consistent()
      ensures old(Consistent()) && resp.Entry? ==> Find(files, id) == Some(resp.record)
    {
      var newFile := replacement.(id := id);
      var verdict := validate(newFile);
      if verdict.Violation? {
        return BadRequest(verdict.message, verdict.dataPath);
      }
      var loaded := Load();
      if loaded.None? {
        return NotFound;
      }
      var filesData := loaded.value;
      var entryToUpdate := Find(filesData.files, id);
      if entryToUpdate.None? {
        return NoEntryJson(id);
      }
      var indexOfFile := IndexOf(filesData.files, entryToUpdate.value);
      IndexOfFound(filesData.files, id);
      filesData := filesData.(files := filesData.files[indexOfFile := newFile]);
      if Consistent() {
        ReplaceKeepsWellFormed(loaded.value, indexOfFile, newFile);
      }
      FindAfterReplace(loaded.value.files, indexOfFile, newFile);
      Save(filesData);
      resp := Entry(newFile);
    }

    /** DELETE /files/:id: drop every record carrying `id` and answer the
        first of them; the counter is left alone. */
    method Delete(id: int) returns (resp: Response)
      modifies this
      ensures !old(present) ==> resp == NotFound && unchanged(this)
      ensures old(present) && NoMatch(old(files), id) ==> resp == NoEntryText(id) && unchanged(this)
      ensures old(present) && !NoMatch(old(files), id) ==>
                && (exists k :: FirstMatch(old(files), id, k) && resp == Entry(old(files)[k]))
                && present
                && nextId == old(nextId)
                && files == Without(old(files), id)
      ensures old(Consistent()) ==> Consistent()
      ensures old(Consistent()) && old(present) && !NoMatch(old(files), id) ==>
                exists k :: FirstMatch(old(files), id, k) && files == old(files)[..k] + old(files)[k + 1..]
      ensures old(present) ==> Find(files, id) == None
    {
      var loaded := Load();
      if loaded.None? {
        return NotFound;
      }
      var filesData := loaded.value;
      var entryToDelete := Find(filesData.files, id);
      if entryToDelete.None? {
        return NoEntryText(id);
      }
      filesData := filesData.(files := Without(filesData.files, entryToDelete.value.id));
      if Consistent() {
        WithoutKeepsWellFormed(loaded.value, id);
        var k :| FirstMatch(loaded.value.files, id, k) && loaded.value.files[k] == entryToDelete.value;
        WithoutUnique(loaded.value.files, k);
      }
      FindAfterWithout(loaded.value.files, id);
      Save(filesData);
      resp := Entry(entryToDelete.value);
    }
  }

  /** Create, read back, update, read back: the first read answers the
      created record, the second answers the replacement with its id forced,
      so an update replaces the record rather than merging into it. */
  method CreateUpdateRoundTrip(store: DataFile, candidate: Record, replacement: Record,
                               validate: Record -> Verdict)
    returns (created: Response, afterCreate: Response, updated: Response, afterUpdate: Response)
    requires store.present && store.Consistent()
    requires validate(candidate.(id := store.nextId)).Conforms?
    requires validate(replacement.(id := store.nextId)).Conforms?
    modifies store
    ensures created == afterCreate == Entry(candidate.(id := old(store.nextId)))
    ensures updated == afterUpdate == Entry(replacement.(id := old(store.nextId)))
    ensures store.Consistent() && store.nextId == old(store.nextId) + 1
  {
    var id := store.nextId;
    created := store.Create(candidate, validate);
    afterCreate := store.ReadOne(id);
    updated := store.Update(id, replacement, validate);
    afterUpdate := store.ReadOne(id);
  }

  /** The scenario of an empty store: create `{name: "a.txt"}`, which gets
      id 1, then delete it; the counter is not reset. */
  method CreateThenDeleteScenario() {
    var store := new DataFile(Some(Dataset(1, [])));
    var accept := (r: Record) => Conforms;
    var a := Record(0, "a.txt", map[]);
    var resp := store.Create(a, accept);
    assert resp == Entry(Record(1, "a.txt", map[]));
    assert store.nextId == 2 && store.files == [Record(1, "a.txt", map[])];
    resp := store.Delete(1);
    assert resp == Entry(Record(1, "a.txt", map[]));
    assert store.nextId == 2 && store.files == [];
  }
}
