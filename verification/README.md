# Record store model (textidor-validated `api/handlers.js`)

The service keeps a collection of "file" records in one JSON document on
disk, `{ nextId, files }`, and exposes five request handlers: list, read one,
create, update and delete. Each handler reads the whole document, works on
it in memory, and (for a successful change) writes the whole document back.
This project models that in-memory step and proves what each handler
promises about the document and its reply.

- `records.dfy`, module `Records`: the data (`Record`, `Summary`, `Dataset`,
  the schema `Verdict`), the array operations the handlers use (`map`,
  `find`, `indexOf`, `filter`) as functions with contracts, the store's
  invariant `WellFormed` (ids unique, every id below `nextId`), and lemmas
  that each change keeps the invariant and that a later lookup sees the
  change.
- `handlers.dfy`, module `Handlers`: class `DataFile`, whose fields are the
  document on disk (`present`, `nextId`, `files`), with `Load` and `Save`
  and one method per handler. Each handler loads a copy, changes it step by
  step in the order the handler does (assign the id, bump the counter,
  validate, push; or validate, find, indexOf, assign at the index; or find,
  filter), and saves the copy only on success. Every mutating handler keeps
  `Consistent()` (the invariant, for a file that exists). Two client
  methods replay a create/read/update/read round trip and the create-then-
  delete scenario on an empty store.

Schema validation is the parameter `validate: Record -> Verdict`: it answers
`Conforms` or `Violation(message, dataPath)`, the two fields the 400 reply
carries. A missing data file is `present == false` and yields a 404.

Three details of the handlers shape the model:

- An update of an absent id answers `res.json` of the message, a JSON
  string (api/handlers.js:147). A delete of an absent id answers
  `res.send`, plain text (api/handlers.js:181). The model keeps them apart
  as `NoEntryJson` and `NoEntryText`.
- Delete filters out every record carrying the id (api/handlers.js:173),
  not just the first one it found. Exactly one record goes only when ids
  are unique. `Delete` states both: the filtered list always, and the list
  with one entry cut out under the invariant.
- Update validates before reading the file (api/handlers.js:113-130), so an
  invalid replacement against a missing file answers 400, not 404. Create
  reads the file first (api/handlers.js:68-74), so there the missing file
  wins.

## Model

| member | source | states |
|---|---|---|
| `Records.Summaries` | api/handlers.js:18-22 | the listing has one `{id, name}` per record, same length, same order |
| `Records.Find` | api/handlers.js:44-45 | the lookup is empty exactly when no record carries the id; otherwise it is the first record carrying the id |
| `Records.IndexOf` | api/handlers.js:137-138 | -1 exactly when the record is absent; otherwise a position holding it with no earlier occurrence |
| `Records.Without` | api/handlers.js:173 | a record survives the filter exactly when it was stored and carries another id; the list does not grow |
| `Records.IndexOfFound` | api/handlers.js:133-139 | find followed by indexOf gives the position of the first record carrying the id, the one update overwrites |
| `Records.WithoutConcat` | api/handlers.js:173 | the filter works element by element: filtering a concatenation is the concatenation of the filtered parts, so survivors keep their order and their repetitions |
| `Records.WithoutAbsent` | api/handlers.js:173 | filtering an id no record carries leaves the list as it was |
| `Records.WithoutUnique` | api/handlers.js:168-173 | with unique ids, the filter removes exactly the matching record and keeps every other in its order |
| `Records.WithoutKeepsUnique` | api/handlers.js:173 | the filter keeps ids unique |
| `Records.AppendKeepsWellFormed` | api/handlers.js:71-89 | appending a record that takes `nextId` as its id and bumping the counter keeps ids unique and below the counter |
| `Records.ReplaceKeepsWellFormed` | api/handlers.js:113-139 | overwriting a record with one carrying the same id keeps the invariant |
| `Records.WithoutKeepsWellFormed` | api/handlers.js:168-173 | deleting by filter keeps the invariant, with the counter unchanged |
| `Records.FindAfterAppend` | api/handlers.js:71-89 | after a create, a lookup of the new id finds the created record |
| `Records.FindAfterReplace` | api/handlers.js:133-139 | after an update, a lookup of the id finds the replacement |
| `Records.FindAfterWithout` | api/handlers.js:168-173 | after a delete, a lookup of the id finds nothing |
| `Handlers.DataFile.Load` | api/handlers.js:15-16 | loading gives the stored document, or nothing when the file is missing |
| `Handlers.DataFile.Save` | api/handlers.js:91-93 | saving replaces the whole stored document |
| `Handlers.DataFile.ReadAll` | api/handlers.js:13-35 | 404 for a missing file; otherwise one `{id, name}` per record in file order |
| `Handlers.DataFile.ReadOne` | api/handlers.js:37-62 | 404 for a missing file or an absent id; otherwise the first record carrying the id |
| `Handlers.DataFile.Create` | api/handlers.js:64-107 | 404 and no change for a missing file; 400 with the violation and no change (counter included) for an invalid candidate; otherwise the candidate stored at the end under the old `nextId`, the counter one higher, earlier records untouched; keeps the invariant; the new id then looks up to the new record |
| `Handlers.DataFile.Update` | api/handlers.js:109-159 | 400 and no change for an invalid replacement, before any read; 404 for a missing file; the "no entry" reply and no change for an absent id; otherwise the first match overwritten in place by the replacement with its id forced, length, other entries and counter unchanged; keeps the invariant |
| `Handlers.DataFile.Delete` | api/handlers.js:161-193 | 404 for a missing file; the "no entry" reply and no change for an absent id; otherwise answers the first match, drops every record with the id, counter unchanged, and under the invariant exactly that one record is cut out with the others in order; keeps the invariant |
| `Handlers.CreateUpdateRoundTrip` | api/handlers.js:71-145 | create then read answers the created record; update then read answers the replacement with the id forced, so update replaces rather than merges |

## Left out

- Reading and writing the file (`readFile`, `writeFile`) are `Load` and `Save` on the `DataFile` object; the mapping of a missing file (ENOENT) to 404 is kept, every other I/O or parse failure (forwarded to an undefined `next`) is not modelled.
- `JSON.parse` and `JSON.stringify` with two-space indentation are not modelled: the document is held as a value, and the fields of a record other than `id` and `name` are carried as opaque text.
- The tv4 schema and its messages are not modelled: validation is the `validate` parameter, and a violation's message and data path are passed through unchanged.
- Express's `res.json`, `res.status`, `res.send` and `res.end` become the `Response` values; the decimal rendering of the id in "no entry with id <id>" is not modelled, the reply carries the id itself.
- `Number(req.params.id)` is not modelled: ids are integers, so NaN and non-integral ids do not arise, and path ids above 2^53, which lose precision as JavaScript numbers, are taken exactly.
- Handlers.DataFile.Create: ids and the counter are unbounded integers here but IEEE doubles in the source; there `nextId++` stops increasing once `nextId` reaches 2^53, so the promises that the counter ends one higher and that the invariant is kept hold for the source only while `nextId < 2^53`.
- Records.AppendKeepsWellFormed: for the same reason, the invariant it proves after a create holds for the source only while `nextId < 2^53`; past that, two creates store the same id.
- Records.IndexOf: compares records by value, where `Array.prototype.indexOf` compares objects by identity; of two distinct equal records the source answers each one's own index and the model the earlier one. At its one use, right after `find` in the update handler, the two agree: `Records.IndexOfFound` proves the position is the first record carrying the id, which is the object `find` returned.
- Overlapping requests race on the file (read, change, write with no lock); each handler is modelled as one atomic step.
- Console logging is not modelled.
