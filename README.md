# User list mirror of the admin console's `UserService`

The console's `UserService` (`src/app/user.service.ts`) keeps a local copy of
the user list it gets from the remote REST API. Its views subscribe to this
copy. The copy starts empty. Each request's success callback replaces it:

- fetch-all (`getUsers`) replaces the list with the server's `users` array;
- fetch-one (`getUser`) passes the record through and leaves the list alone;
- add (`addUser`) appends the server echo, after giving it a default `id` of
  the old length plus one; an `id` in the echo overrides the default;
- update (`updateUser`) spread-merges the server echo into every record whose
  `id` equals the requested one;
- delete (`deleteUser`) filters out every record whose `id` equals the
  requested one.

A failed request never reaches its callback, so the list stays as it was.

The model has four modules:

- `Records` holds the untyped record. It is a map from field name to a JSON
  value. It also defines the `u.id === id` test (`HasId`) and spread-merge
  `{ ...a, ...b }` as right-biased map union (`Spread`).
- `Http` holds a request's outcome: `Ok(body)` or `Failed(error)`, where
  `error` is an `HttpError` carrying the status.
- `UserLists` holds the three list transformations as pure functions, plus
  the lemmas about them.
- `UserServiceModel` holds the service as a class. The field `users` is the
  published list. There is one method per request: it receives the server's
  response, updates `users` as the success callback does, and returns the
  response.

The code says the echoed `id` wins on add, because `{ id: n, ...newUser }`
puts the echo last: when the echo carries its own `id`, that id replaces the
computed `length + 1` (`Enriched`, `Appended`, `EffectiveId`).

## Model

| member | source | states |
|---|---|---|
| `Records.HasId` | src/app/user.service.ts:52 | the `u.id === id` test: a record without an `id` never matches, a non-numeric `id` (such as a string) never matches, a numeric `id` matches if and only if it equals the requested one; the delete's `u.id !== id` at line 64 is its negation |
| `UserLists.EffectiveId` | src/app/user.service.ts:38 | the id that `{ id: current.length + 1, ...newUser }` ends up with is the `id` field of that spread |
| `Records.Spread` | src/app/user.service.ts:52 | spread-merge keeps every field of both records; a field in both takes the second (server) value |
| `UserLists.Enriched` | src/app/user.service.ts:38 | the added record has every field of the echo with the echo's values, plus `id`; that `id` is the echo's own if it has one, else old length + 1 |
| `UserLists.Appended` | src/app/user.service.ts:37-41 | add: length grows by one and the old list is an unchanged prefix; the new last record has exactly the echo's fields plus `id`, with the echo's values, and id old length + 1 when the echo has none |
| `UserLists.MergeMatching` | src/app/user.service.ts:51-54 | update: length is kept; every record whose id differs is unchanged in its position; every record with the id, not only the first, becomes old merged with the echo |
| `UserLists.RemoveMatching` | src/app/user.service.ts:63-66 | delete: the list does not grow; no remaining record has the id; every record without the id is still present |
| `UserLists.MergeAbsentIsIdentity` | src/app/user.service.ts:52 | an update for an id that no record carries leaves the list as it was |
| `UserLists.MergeIdempotent` | src/app/user.service.ts:52 | applying the same update echo twice gives the same list as applying it once |
| `UserLists.MergeAfterRemoveIsNoOp` | src/app/user.service.ts:52 | an update for an id that was just deleted leaves the list unchanged |
| `UserLists.MergeKeepsIdsUnique` | src/app/user.service.ts:52 | if the echo carries no id or the same id, an update keeps ids unique |
| `UserLists.RemoveAbsentIsIdentity` | src/app/user.service.ts:64 | deleting an id that no record carries leaves the list unchanged |
| `UserLists.RemoveIdempotent` | src/app/user.service.ts:64 | a second delete of the same id leaves the list unchanged |
| `UserLists.RemoveCounts` | src/app/user.service.ts:64 | delete removes every copy of each record carrying the id and keeps every copy of all the others (multiset counts) |
| `UserLists.RemoveIsSubsequence` | src/app/user.service.ts:64 | the records that survive a delete are in their original relative order |
| `UserLists.RemoveDistributes` | src/app/user.service.ts:64 | deleting from a concatenation is the same as deleting from each part and concatenating |
| `UserLists.RemoveShrinksIffPresent` | src/app/user.service.ts:64 | a delete makes the list shorter if and only if some record carries the id |
| `UserLists.RemoveUniqueDropsOne` | src/app/user.service.ts:64 | when ids are unique, deleting a present id removes exactly one record |
| `UserLists.RemoveKeepsIdsUnique` | src/app/user.service.ts:64 | a delete never introduces a duplicate id |
| `UserLists.AddThenRemoveRestores` | src/app/user.service.ts:38-39 | deleting the id an add just assigned restores the old list, provided no older record carried that id |
| `UserLists.AddKeepsIdsUniqueWhenBounded` | src/app/user.service.ts:38 | if ids are unique and none exceeds the length, adding an echo without an id keeps them unique |
| `UserLists.AddAfterRemoveCanDuplicateId` | src/app/user.service.ts:38 | with the length + 1 default id, a delete followed by an add can produce two records with the same id |
| `UserServiceModel.UserService.constructor` | src/app/user.service.ts:10 | the published list starts empty |
| `UserServiceModel.UserService.GetUsers` | src/app/user.service.ts:15-23 | after a successful fetch-all the list is exactly the server's array, whatever it held before; after a failure it is unchanged; the response is returned |
| `UserServiceModel.UserService.GetUser` | src/app/user.service.ts:25-30 | fetching one user returns the response and cannot change the list (no modifies clause) |
| `UserServiceModel.UserService.AddUser` | src/app/user.service.ts:32-44 | on success the list becomes the appended list: one longer, old list as its prefix, last id as the effective id; on failure it is unchanged |
| `UserServiceModel.UserService.UpdateUser` | src/app/user.service.ts:46-57 | on success the echo is merged into every record with the id; the length is kept either way; on failure the list is unchanged |
| `UserServiceModel.UserService.DeleteUser` | src/app/user.service.ts:59-69 | on success no record with the id remains and the rest is an order-preserving subsequence of the old list; on failure the list is unchanged |
| `UserServiceModel.Session` | src/app/user.service.ts:15-69 | a client run: fetch two users, add one whose echo carries id 209, fail an update, delete id 1; two records remain, the second user and then the added one with id 209 |

## Left out

- HTTP transport, URLs and the `console.log` calls. Each request is a method argument of type `Response`: the server's answer, or a failure with a status.
- RxJS `BehaviorSubject` and `asObservable`, which replay the latest value to subscribers. The subject is the plain field `users`; delivery to subscribers is library behaviour.
- Out-of-order responses from overlapping fetch-alls, such as the refreshes the user list view starts on every navigation. This is asynchronous interleaving. In the model, each response is applied as one sequential call.
- JSON values: numbers are modelled as integers (`Num`); nested objects and arrays are not modelled, because the service never looks inside them. The `id` test is JavaScript strict equality, so a string id `"3"` never matches the number 3.
- UserServiceModel.UserService.GetUsers: assumes the fetch-all body has a `users` array. A body without one would store `undefined`, and a later add would then fail on `current.length`.
- Replies are kept only as far as the service uses them: of the fetch-all reply only its `users` array (`UsersPage`), and of the delete reply nothing (`Response<()>`). A list element that is not an object, such as `null`, is not modelled; in the source `u.id` would throw on it inside the update's `map` and the delete's `filter`.
- The request bodies that `addUser` and `updateUser` send (`user`) are method parameters only. The list depends only on the server's echo.
- `src/app/responsive.service.ts` wraps the CDK breakpoint observer. `src/app/user-form/user-form.component.ts` gets its validity from Angular validators. `src/app/service/dashboard.service.ts` holds only a constant two-entry widget catalog. The dashboard and widget components, routing, the app shell, the i18n loader and the test configuration are UI wiring. None of these files is part of this model, and neither is the dashboard.
