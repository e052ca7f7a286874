# Student record store

A Dafny model of the in-memory student store behind the `/student` routes of
the FealtyX student API (`backend/routes/student.py`). The store is one
process-wide dictionary from id strings to records `{name, age, email}`.
Five routes use it:

- create: reject an email that a stored record already has; otherwise store the record under a new `uuid4()` id;
- list: return every record with its id;
- get: return one record, or report it missing;
- update: replace a whole record, or report it missing;
- delete: remove a record, or report it missing.

The summary route does the same lookup as get before it calls out to a text generator.

The model is one module, `StudentRoutes` (`student.dfy`):

- `Student` holds the stored fields and `StudentRecord` the response with its id.
- `Result` is `Ok(value) | DuplicateEmail | NotFound`. It stands for the route's return value or the HTTP 400/404 exception it raises.
- `ValidAge` is the `0 <= age <= 150` constraint of `StudentCreateDTO`. Create and Update require it, because request validation rejects a bad age before the route runs.
- Class `Store` holds the dictionary as `students: map<string, Student>`. It also holds `order: seq<string>`, the dictionary's key order. A Python dict yields its items in insertion order:
  - a new key goes at the end;
  - overwriting a key keeps its place;
  - `del` removes the key from the order.

  So List's order is modelled too.
- `Store.Valid()` is the invariant every method keeps: the order lists each stored id once, and every stored age is valid.
- Email uniqueness (`EmailsUnique`) is NOT part of that invariant, because the source does not keep it.
  - Create and Delete keep it when it held before the call.
  - Update can break it. `UpdateKeepsUniqueIff` states exactly when Update keeps it.
  - `UpdateDuplicatesEmailScenario` drives a store into a state where two records share an email.

  The update route never compares the new email with the other records' emails (`backend/routes/student.py:64-66`), and the model keeps that behaviour.
- `uuid4()` is an oracle. Create takes the generated id as a parameter, `freshId`, and requires that it is not already a stored id. That is an assumption of the model: the source does not check it. `FreshIdAvailable` proves that such an id always exists.
- The route tests a stored record for falsiness (`if not student`). A stored record is a dict with three keys and so is always truthy. The test therefore fails exactly when the id is absent, and Get and SummaryLookup are modelled as key lookups.

The code puts no constraint on `name` (`name: str`, `backend/routes/student.py:21`), and neither does the model.

## Model

| member | source | states |
|---|---|---|
| `StudentRoutes.ValidAge` | backend/routes/student.py:22 | an age passes `StudentCreateDTO` validation exactly when 0 <= age <= 150 |
| `StudentRoutes.WithId` | backend/routes/student.py:40 | the response carries the given id, and its fields without the id are exactly the stored record |
| `StudentRoutes.RemoveKey` | backend/routes/student.py:79 | after `del`, the key order holds exactly the other keys, and it still has no repeated key if it had none before |
| `StudentRoutes.RemoveKeyAt` | backend/routes/student.py:79 | deleting a stored key from an insertion order without repetitions removes it from its position; every other key keeps its relative place |
| `StudentRoutes.RemoveKeyAbsent` | backend/routes/student.py:79 | removing a key that is not in the order leaves the order unchanged |
| `StudentRoutes.DistinctKeysCount` | backend/routes/student.py:47 | an insertion order that lists every key of the dictionary once is as long as the dictionary is large |
| `StudentRoutes.FreshIdAvailable` | backend/routes/student.py:37 | for any set of stored ids there is an id outside it, so the fresh-id oracle that stands for `uuid4()` can always answer |
| `StudentRoutes.ScanEmail` | backend/routes/student.py:33-35 | the scan over stored records reports a collision exactly when some stored record has the requested email |
| `StudentRoutes.UpdateKeepsUniqueIff` | backend/routes/student.py:63-66 | replacing a record keeps emails pairwise distinct if and only if no other stored record has the new email; the route checks neither side |
| `StudentRoutes.Store.constructor` | backend/routes/student.py:15 | the store starts empty and valid |
| `StudentRoutes.Store.Create` | backend/routes/student.py:31-40 | on a duplicate email: DuplicateEmail, nothing changes; otherwise: exactly the fresh id is added, mapped to the given fields, and appended to the order; the result is the fields plus that id; Get on it returns the same record; uniqueness and validity are preserved |
| `StudentRoutes.Store.List` | backend/routes/student.py:46-47 | one response per stored record, in insertion order, each with its key as id and exactly its stored fields, every age within the validated range, no id twice, as many as the dictionary holds |
| `StudentRoutes.Store.ListHasEveryRecord` | backend/routes/student.py:47 | every stored record appears in List with its id |
| `StudentRoutes.Store.Get` | backend/routes/student.py:52-57 | Ok exactly when the id is stored, then with that id and the stored fields; NotFound otherwise |
| `StudentRoutes.Store.Update` | backend/routes/student.py:61-67 | on an absent id: NotFound, nothing changes; otherwise the key set and order are unchanged, that id's record is replaced wholesale, all others stay, and the result is the new fields plus the id |
| `StudentRoutes.Store.Delete` | backend/routes/student.py:74-79 | on an absent id: NotFound, nothing changes; otherwise exactly that id leaves the map and the order; afterwards Get on it is NotFound; uniqueness and validity are preserved |
| `StudentRoutes.Store.SummaryLookup` | backend/routes/student.py:85-89 | the summary route's lookup yields the stored fields handed to the generator, or NotFound exactly when the id is absent |
| `StudentRoutes.CreateScenario` | backend/routes/student.py:31-40 | two creates with distinct emails both succeed with distinct ids and the given fields; a third with a taken email fails and two records remain |
| `StudentRoutes.UpdateDuplicatesEmailScenario` | backend/routes/student.py:61-67 | updating a record to another record's email succeeds and leaves two records with the same email |
| `StudentRoutes.LifecycleScenario` | backend/routes/student.py:38-79 | after one create, List is exactly that record; deleting it succeeds; a later Get and a second delete both report NotFound |

## Left out

- `asyncio.Lock` (`students_lock`): concurrency. The routes are modelled as sequential, atomic method calls, which is what the lock provides for the mutating routes. The unlocked reads in list, get and summary are not modelled as interleaving with mutations.
- FastAPI routing, status codes and response-model serialisation, and `backend/main.py`: HTTP plumbing. The 400 and 404 exceptions become the `DuplicateEmail` and `NotFound` results.
- `EmailStr` format checking and `UUID` path-parameter parsing: both are done by pydantic and FastAPI, whose behaviour is not part of this model. Emails and ids are opaque strings. A model `email` is the value after pydantic's `EmailStr` normalisation (which, for example, lowercases the domain), not the raw request text; the scan compares those normalised values. Only the age constraint is modelled, as a precondition.
- Store.Create: does not model the randomness of `uuid4()`. The generated id is a parameter that is assumed fresh. Because of that, the model also does not capture that ids are never reused after deletion.
- The text-generation call of the summary route (`backend/services/ollama.py`):
  - it is an HTTP POST to an external service;
  - its response is JSON decoded by a foreign library;
  - its failures become a `RuntimeError`;
  - its prompt is plain string concatenation.

  Only the lookup that comes before the call is modelled (`SummaryLookup`).
