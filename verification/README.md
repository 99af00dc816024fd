# Student records: a Dafny model

A model of a small student-record backend: an HTTP service over one
collection of student documents. Each document has a name, a roll number, a
course, an age, a standard (`std`) and a division. The roll number is unique
across the collection. The model covers four parts of the source:

- the document schema, with its trim setters, its required and `min`
  validators and the unique index on `rollNumber` (module `Students`);
- the create-payload validator (`StudentValidation`) and the `validate(schema)`
  middleware in front of the create route (`ValidateMiddleware`);
- the six request handlers (`StudentsController`), with the list endpoint's
  match / sort / skip / limit pipeline in `Listing`;
- the one routing fact that matters: create is validated and update is not
  (`StudentsRoute`).

The collection is an immutable `map<Id, Student>`. Write handlers (create,
update, delete) are pure functions from a request and a collection to a
`Reply`, which pairs the envelope `{ status, message, data, statusCode }` with
the new collection. Read handlers (get, list, check-roll) return only the
envelope, so by their type they cannot change the collection. Every rejection
path of a write handler states `r.store == st`. The lemmas `CreateKeepsValid`,
`UpdateKeepsValid` and `DeleteKeepsValid` state that create, update and
delete keep `Valid`. `Valid` means every document conforms to
the schema and roll numbers are unique.

Request bodies for create are JSON values (`Json.Body`, where an absent key
is `undefined`). That way the validator and the controller's own falsy check
read the same input. An update body is a `Patch` of optional fields, and
`None` stands for `null`/`undefined`, which `??` replaces. Ages are `real`
because the validator must be able to reject non-integers, and the schema
itself has no integer constraint.

Three behaviours of the code are easy to miss; the model follows the code:

- A duplicate roll number that gets past the pre-check reaches the unique
  index. The code answers that with the generic 500 from its catch block, not
  with 409.
- The schema requires only `age >= 1`. The integer rule exists only in the
  create validator, so an update can store a non-integer age.
- An update `rollNumber` of `""` is falsy. It therefore skips the duplicate
  check, but `??` still writes it. The save then fails the `required`
  validator and the answer is 500.

## Model

| member | source | states |
|---|---|---|
| `Text.Trim` | models/students.model.js:4-34 | the trim setter leaves no whitespace at either end and is the identity on already-trimmed text (so trimming twice is trimming once) |
| `Text.TrimStripsOnlyEnds` | models/students.model.js:4-34 | trimming keeps the infix left after removing whitespace at both ends and nothing else; all-whitespace text becomes empty |
| `Text.ContainsIgnoreCase` | controllers/students.controller.js:55-56 | `$regex` with `$options: "i"`: the search text occurs in the field, compared with ASCII letters folded to lower case (the search text is taken literally) |
| `Text.LexLe` | controllers/students.controller.js:80-83 | MongoDB's binary string order used by `$sort` on `name`: code-point lexicographic order, a prefix sorting first |
| `Text.LexLeTotal` | controllers/students.controller.js:80-83 | any two names are comparable under MongoDB's binary string order |
| `Text.LexLeTransitive` | controllers/students.controller.js:80-83 | the name order is transitive, so a name sort is well defined |
| `Text.LexLeAntisymmetric` | controllers/students.controller.js:80-83 | two names that each sort before the other are equal |
| `Text.ToInt32` | controllers/students.controller.js:71-76 | `$toInt` on a roll number succeeds exactly for base-10 text whose value fits in 32 bits |
| `Text.NatTextValue` | controllers/students.controller.js:71-76 | the decimal digits of a natural number evaluate back to that number |
| `Text.ParseIntText` | controllers/students.controller.js:71-76 | the decimal text of any integer converts back to that integer |
| `Students.Normalize` | models/students.model.js:4-34 | after the trim setters a document conforms exactly when it passes the validators; a stored (conforming) document is left as it is |
| `Students.IdsInOrder` | controllers/students.controller.js:67-69 | the collection's ids, each exactly once, in strictly increasing (natural) order |
| `Students.Records` | controllers/students.controller.js:67-69 | the documents the pipeline starts from are exactly the stored (id, document) pairs, in id order |
| `Students.FreshId` | controllers/students.controller.js:28-29 | a newly generated id is held by no stored document |
| `Students.Admissible` | models/students.model.js:3-34 | the `required` and `min: 1` validators: five non-empty strings and an age of at least 1 |
| `Students.Valid` | models/students.model.js:3-37 | the collection invariant: every stored document is trimmed and admissible, and no two documents share a roll number (the unique index) |
| `Students.RollHeld` | controllers/students.controller.js:18 | `findOne({ rollNumber })` finds a document: some stored document holds exactly this roll number, compared as given, not trimmed |
| `Students.SaveNew` | models/students.model.js:3-37 | saving a new document succeeds exactly when the trimmed document passes `required`/`min` and its roll number is not held; it then gets an unused id and the collection stays valid |
| `Students.SaveExisting` | models/students.model.js:3-37 | saving a changed document succeeds exactly when the trimmed document passes the validators and no other document holds its roll number; it then keeps the collection valid |
| `StudentValidation.AgeViolations` | validations/students.validation.js:22-27 | age is accepted exactly as an integer number of at least 1; a non-number yields "Age must be a number"; an integer below 1 yields "Age must be at least 1" |
| `StudentValidation.FieldViolations` | validations/students.validation.js:4-39 | a field is accepted exactly when it has the required shape; a missing key yields "<Label> is required", an empty string "<Label> cannot be empty", a non-string "<Label> must be a string" |
| `StudentValidation.ViolationsOf` | validations/students.validation.js:3-40 | a list of fields has no violations exactly when every field in it is accepted |
| `StudentValidation.AcceptsIff` | validations/students.validation.js:3-40 | the schema accepts exactly the bodies with five non-empty strings and an integer age of at least 1 |
| `StudentValidation.FirstViolationOf` | middleware/validate.js:14-20 | with all violations collected, the first one reported is the first message of the first offending field in schema order |
| `StudentValidation.IgnoresUnknownKeys` | middleware/validate.js:14-17 | keys outside the schema never change the verdict or the messages |
| `ValidateMiddleware.Validate` | middleware/validate.js:4-31 | a missing schema gives 400 "Validation schema not found"; control passes to the handler exactly when the schema accepts the body; otherwise 400 with the first violation's message |
| `ValidateMiddleware.MissingNameReported` | validations/students.validation.js:4-8 | a body without `name` is answered "Name is required", whatever else is wrong with it |
| `ValidateMiddleware.ReportsFirstOffendingField` | middleware/validate.js:19-28 | the response carries the message of the first offending field |
| `Listing.SpecOf` | controllers/students.controller.js:63-65 | sorting is by roll number exactly when `sortBy` is "rollNumber" (any other value, or none, sorts by name), and descending exactly when `order` is "dsc" |
| `Listing.PageOf` | controllers/students.controller.js:50 | the requested page, 1 when the query gives none |
| `Listing.LimitOf` | controllers/students.controller.js:50 | the requested page size, 10 when the query gives none |
| `Listing.Matches` | controllers/students.controller.js:52-61 | the match condition: the search text, when given, occurs case-insensitively in the name or the course, and the course, when given, equals the course filter |
| `Listing.Filter` | controllers/students.controller.js:52-61 | the match stage keeps exactly the documents whose name or course contains the search text case-insensitively and whose course equals the course filter, each filter applying only when given; it keeps the input order, so a list with increasing ids stays duplicate-free |
| `Listing.IdsOfIncreasing` | controllers/students.controller.js:67-69 | a document list with strictly increasing ids has exactly as many distinct ids as documents |
| `Listing.MatchedCountsMatchingDocuments` | controllers/students.controller.js:91 | the matched list holds each matching document once, so its length, the reported `total`, is the number of stored documents that match |
| `Listing.MatchedExactly` | controllers/students.controller.js:52-61 | a document is matched exactly when it is stored and passes both filters |
| `Listing.RollKey` | controllers/students.controller.js:72-76 | the `$toInt` value of a roll number; its fallback 0 has no meaning and is only relied on under `RollsConvertible`, where every roll converts (otherwise the pipeline fails with 500) |
| `Listing.Le` | controllers/students.controller.js:77-83 | the `$sort` order: by name in binary string order, or by the converted roll number, ascending or, for "dsc", descending |
| `Listing.Matched` | controllers/students.controller.js:52-68 | the `$match` stage over the collection: the matching documents in the collection's natural (id) order |
| `Listing.Ordered` | controllers/students.controller.js:67-84 | the `$match` stage followed by the sort stage (the `$addFields` conversion and `$sort`, or `$sort` by name) |
| `Listing.SortedPairwise` | controllers/students.controller.js:77-83 | in a sorted sequence every earlier document sorts before every later one |
| `Listing.InsertSorted` | controllers/students.controller.js:77-83 | inserting into a sorted sequence keeps it sorted and adds exactly that document |
| `Listing.SortRecords` | controllers/students.controller.js:67-84 | the sort stage returns a sorted permutation of its input |
| `Listing.OrderedIsSortedPermutation` | controllers/students.controller.js:67-84 | the listed order is a permutation of the matched documents, ordered pairwise by the sort key and direction |
| `Listing.RollOrderIsNumeric` | controllers/students.controller.js:71-79 | sorting by roll number orders the integer values: ascending by default, descending for "dsc" |
| `Listing.OtherSortFieldsSortByName` | controllers/students.controller.js:63-65 | any `sortBy` other than "rollNumber" orders by name in the requested direction |
| `Listing.RollNumbersSortAsIntegers` | controllers/students.controller.js:71-79 | roll numbers "2", "10", "1" sort ascending as "1", "2", "10", although "10" precedes "2" as text |
| `Listing.Window` | controllers/students.controller.js:86-89 | skip then limit keeps `min(limit, n - skip)` documents (none past the end), starting with document number `skip` |
| `Json.Truthy` | controllers/students.controller.js:9 | JavaScript truthiness of a body value: `undefined`, `null`, `false`, `0` and `""` are falsy, every other value (including empty arrays and objects) is truthy |
| `StudentsController.AllGiven` | controllers/students.controller.js:9 | the controller's falsy check: each of the six body fields is present and truthy in the JavaScript sense (so `""`, `0` and `null` fail it) |
| `StudentsController.Requested` | controllers/students.controller.js:28 | the document `new Student({...})` builds from the body when the five strings are JSON strings and age is a JSON number; any other type counts as a failed cast (which `Create` answers with 500) |
| `StudentsController.PreCheckFinds` | controllers/students.controller.js:18-19 | the duplicate pre-check finds a document holding the body's roll number as sent |
| `StudentsController.Create` | controllers/students.controller.js:5-46 | 400 exactly when a field is falsy; 409 exactly when the roll number is already held; 201 exactly when the trimmed document passes the schema and its roll number is free, adding exactly that one document under a new id; nothing written on any other outcome |
| `StudentsController.CreateKeepsValid` | models/students.model.js:3-37 | create keeps every stored document conforming and roll numbers unique |
| `StudentsController.ZeroAgeRejected` | controllers/students.controller.js:9-16 | an age of 0 is falsy and gets the 400 "All fields are required." with nothing written |
| `StudentsController.CreateThenGet` | controllers/students.controller.js:28-37 | a created document reads back by its id with the requested fields trimmed, and the collection grows by exactly one |
| `StudentsController.SecondCreateConflicts` | controllers/students.controller.js:18-26 | creating the same roll number again answers 409 and writes nothing |
| `StudentsController.SkipOf` | controllers/students.controller.js:87 | the skip count is zero exactly on the first page and at least one full page after it |
| `StudentsController.ListPage` | controllers/students.controller.js:86-103 | `total` is the number of matches before slicing; page and limit are echoed; the students are the sorted matches from `(page-1)*limit`, at most `limit` of them |
| `StudentsController.List` | controllers/students.controller.js:48-114 | 500 exactly when page or limit is below 1, when the skip count `(page-1)*limit` or the limit exceeds the signed 64-bit maximum that `$skip` and `$limit` accept, or when a matched roll number fails `$toInt` under a roll-number sort; otherwise 200 with the page |
| `StudentsController.TotalIgnoresPaging` | controllers/students.controller.js:91 | `total` does not depend on page or limit |
| `StudentsController.DefaultPaging` | controllers/students.controller.js:50 | without page and limit the first ten sorted matches are returned, with page 1 and limit 10 |
| `StudentsController.SecondPageOfTwelve` | controllers/students.controller.js:86-103 | twelve matches with page 2 and limit 5 give sorted matches 6 to 10 and total 12, under a name sort or a roll-number sort whose roll numbers all convert |
| `StudentsController.GetById` | controllers/students.controller.js:116-145 | an absent id gives 404 "Student not found."; a present one gives 200 with its document |
| `StudentsController.RollConflict` | controllers/students.controller.js:162-172 | the update's duplicate check fires exactly when a truthy roll number differs from the stored one and some document, necessarily another one, holds it |
| `StudentsController.ApplyPatch` | controllers/students.controller.js:174-179 | each field given in the body replaces the stored one; each `null`/absent field keeps its stored value |
| `StudentsController.Update` | controllers/students.controller.js:147-198 | 404 exactly for an absent id; 409 exactly when a truthy roll number differs from the current one and is held; 200 exactly when the patched, trimmed document passes the schema and the unique index, replacing only that document; the set of ids and every other document never change; nothing written otherwise |
| `StudentsController.UpdateKeepsValid` | models/students.model.js:3-37 | update keeps every stored document conforming and roll numbers unique |
| `StudentsController.PatchFields` | controllers/students.controller.js:174-179 | each supplied field replaces the stored one (trimmed); each omitted field keeps its stored value |
| `StudentsController.UpdateKeepsOmittedFields` | controllers/students.controller.js:174-181 | after a successful update of a stored document, supplied fields hold their new (trimmed) values and omitted fields their old ones |
| `StudentsController.EmptyPatchIsIdentity` | controllers/students.controller.js:174-189 | an update that supplies no field succeeds and changes nothing |
| `StudentsController.UpdateThenGet` | controllers/students.controller.js:181-189 | an updated document reads back as the update response returned it |
| `StudentsController.Delete` | controllers/students.controller.js:200-230 | an absent id gives 404 with nothing written; a present id is removed alone, with 200 and no data |
| `StudentsController.DeleteKeepsValid` | models/students.model.js:3-37 | delete keeps every stored document conforming and roll numbers unique |
| `StudentsController.DeleteThenNotFound` | controllers/students.controller.js:204-221 | after a delete, get, update and delete of that id all answer 404 |
| `StudentsController.CheckRoll` | controllers/students.controller.js:232-263 | a missing or empty roll number gives 400; otherwise `exists` is true exactly when some document holds that roll number |
| `StudentsController.HeldAfterInsert` | controllers/students.controller.js:245 | helper for `CheckRollAfterCreate`: after an insert, the roll-number lookup finds the inserted document |
| `StudentsController.CheckRollAfterCreate` | controllers/students.controller.js:245-252 | after a create, check-roll reports the stored roll number as a duplicate |
| `StudentsRoute.CreateRoute` | routes/students.route.js:14 | a body the schema rejects gets 400 with the first violation and nothing written; an accepted body reaches the handler unchanged |
| `StudentsRoute.UpdateRoute` | routes/students.route.js:16 | the update route has no validator in front, so it never answers 400 and is exactly the handler |
| `StudentsRoute.AcceptedIsAllGiven` | controllers/students.controller.js:9 | every payload the schema accepts passes the controller's falsy check |
| `StudentsRoute.GuardedCreateSkipsFieldCheck` | routes/students.route.js:14 | behind the validator, every 400 carries a schema message, so the "All fields are required." branch cannot be reached |
| `StudentsRoute.UnvalidatedUpdateOfAgeZero` | routes/students.route.js:16 | on the unvalidated update route an age of 0 reaches the save, which fails: 500 with nothing written |
| `StudentsRoute.CreateRouteRejectsAgeZero` | validations/students.validation.js:22-27 | on the create route an age of 0 is answered 400 "Age must be at least 1" once the earlier fields are valid |

## Left out

- Server bootstrap, configuration loading, CORS and logging middleware, and the process-level exception hooks (`index.js`, `config/config.js`) are I/O glue. They are not modelled.
- `helper/apiResponse.js` is not part of this model. The envelope is a plain datatype and nothing is written to HTTP.
- Timestamps (`createdAt`/`updatedAt`) are clock values. They are omitted.
- ObjectId generation is left out. `FreshId` picks an id above every stored one. Malformed ids, which give a 500 cast error, are outside the model because ids are naturals.
- Concurrency is left out. Requests are sequential, so the race between the duplicate pre-check and the insert cannot arise. The unique index is still modelled, inside `SaveNew`/`SaveExisting`.
- Store failures and the other generic catch-all 500 paths are left out. The model keeps only the 500s its inputs can cause: a failed save, a failed cast, a `$toInt` failure, a page or limit below 1, a skip count or limit beyond 64 bits.
- Casting of filter values is not modelled. Mongoose applies the trim setter to filter values of `findOne`/`countDocuments`, but not to aggregate stages. The model compares raw values everywhere, so requests whose roll number, course or search text has surrounding whitespace may differ from the code. For example, a padded duplicate roll number on create gets 500 here, where the code's trimmed `findOne` would give 409.
- `$regex` is modelled as a literal, ASCII case-insensitive substring match. Regular-expression syntax in the search text, and Unicode case folding, are not modelled.
- `$toInt` accepts an optional `-` and decimal digits in 32-bit range. Other textual forms MongoDB might accept, such as a leading `+`, are treated as conversion errors.
- The tie order of equal sort keys is unspecified in the code. The model's sort is a stable insertion sort over id order, and `ListPage`, `List`, `DefaultPaging` and `SecondPageOfTwelve` describe pages of that particular order. When several matches share a sort key, the code may therefore put different documents on a page than the model does; only sortedness, permutation and the match count hold for every tie order.
- The `rollNumberInt` field that the roll-number sort's `$addFields` stage adds to every document is not removed by a later stage, so each student in such a response carries it. The model's `Page` lists plain documents and drops that extra field.
- Query-string parsing is left out. `page` and `limit` arrive as integers: `parseInt` of non-numeric or fractional text is not modelled, and array-valued parameters are not modelled either. Values below 1, and skip counts or limits beyond the signed 64-bit range, are modelled, as the 500 the failing pipeline gives. The code computes the skip count in double-precision floating point; the model compares the exact product with the 64-bit bound.
- Validation-library internals are left out. The model does not coerce numeric strings to numbers for `age`, has no unsafe-integer rule, and treats a non-object body as out of scope. The message of the integer rule is the library default `"age" must be an integer`, which the schema does not override.
- StudentsController.Create: a truthy non-string string field, or a non-number age, is modelled as a failed cast (500). Mongoose would cast numbers and booleans to text and numeric text to a number. This path is unreachable behind the create validator.
- StudentsController.Update: the patch is typed (strings and a number), so the casts Mongoose performs on other JSON types in an unvalidated update body are not modelled.
