# tinyapp helpers — a Dafny model

tinyapp is a small URL shortener. Its users register, log in, create short codes for long URLs, and share
links that count their visitors. The logic it has lives in `helpers.js`, and this project models those five
helpers:

- `getUserByEmail`: scans the users object and returns the first user with a given email, or `undefined`.
- `generateRandomString`: builds a code of the requested length from a 62-character alphanumeric alphabet.
- `isUserLoggedIn`: the authentication gate.
- `urlsForUser`: filters the URL database down to one owner's entries.
- `countVisitors`: counts the distinct visitor ids in a visit history.

Files:

- `wrappers.dfy`: `Option`, which stands in for a value or `undefined`.
- `tables.dfy`: module `Tables`, a plain JavaScript object used as a dictionary. It is modelled as its own
  enumerable properties, a sequence of (name, value) pairs in the order `for...in` and `Object.keys` visit
  them. `DistinctKeys` is the invariant every object has. `HasKey` is `hasOwnProperty`, `ToMap` is the
  object read as a map, and `Put` is the assignment `obj[k] = v`. A present name keeps its place and gets
  the new value; a new name is added last.
- `helpers.dfy`: module `Helpers`. Each loop in `helpers.js` is a method with a loop and invariants, proved
  equal to a specification function. Lemmas state what the helpers promise about those functions.

Randomness is a parameter. `GenerateRandomString` takes a sequence of draws, each a position in `[0, 62)`.
Each draw stands for one `Math.floor(Math.random() * input.length)`. The request is reduced to the
session's user id, an `Option<string>`. JavaScript truthiness of that id means "present and not the empty
string".

`Alphabet()` is defined position by position: 26 upper-case letters, then 26 lower-case letters, then 10
digits. `AlphabetIsSourceString` proves that it equals the string at `helpers.js:15`. The lemma writes that
string as the concatenation of its three runs, because the verifier cannot read the characters of a single
62-character literal.

For a length of zero or less, `generateRandomString` returns the empty string. Nothing in it enforces
uniqueness of the codes, and the model promises none.

## Model

| member | source | states |
|---|---|---|
| `Tables.ToMap` | helpers.js:25 | a name is in the map view of an object exactly when the object has it as an own property |
| `Tables.ToMapAt` | helpers.js:5 | when names are distinct, reading an object at an entry's name yields that entry's value |
| `Tables.PutShape` | helpers.js:36 | assigning a new name appends it last; assigning a present name overwrites one entry of that name, in place |
| `Tables.PutKeys` | helpers.js:36 | after an assignment the object has its old names plus the assigned one, and no entry except old ones and the assigned pair |
| `Tables.PutToMap` | helpers.js:36 | an assignment keeps names distinct and changes the map view at the assigned name only |
| `Helpers.GetUserByEmail` | helpers.js:2-11 | the `for...in` scan with early return yields exactly `FirstByEmail`, and nothing when the loop ends without a match |
| `Helpers.FirstByEmailNone` | helpers.js:3-11 | nothing is returned if and only if no stored user's email equals the query |
| `Helpers.FirstByEmailFound` | helpers.js:5-7 | a returned user is a stored user, its email equals the query exactly, and no earlier user in iteration order has that email |
| `Helpers.FirstByEmailIsFirstMatch` | helpers.js:3-8 | when several users share the email, the one first in iteration order is returned |
| `Helpers.FirstByEmailStored` | helpers.js:5-7 | a returned user is one of the values of the users object |
| `Helpers.GenerateRandomString` | helpers.js:14-21 | the result has exactly `length` characters (none when `length <= 0`), all from the 62-character alphabet, the k-th being the alphabet character at the k-th draw |
| `Helpers.Spell` | helpers.js:16-19 | the code spelled by the draws has one character per draw, and the k-th character is the alphabet character at the k-th draw |
| `Helpers.AlphabetIsSourceString` | helpers.js:15 | the alphabet is exactly the 62-character string of upper-case letters, lower-case letters and digits, in that order |
| `Helpers.IndexOfAlphabet` | helpers.js:15 | each character of the alphabet sits at exactly one position |
| `Helpers.UnspellSpell` | helpers.js:17-18 | reading a generated code back recovers its draws, so different draws give different codes |
| `Helpers.SpellUnspell` | helpers.js:15-18 | every string over the alphabet is generated by some draws, so every code of a length can be produced |
| `Helpers.IsUserLoggedIn` | helpers.js:24-29 | true if and only if the session user id is present, non-empty and a key of the users object; false otherwise |
| `Helpers.FoundUserLogsIn` | express_server.js:93-99 | when every user is stored under its own id, a non-empty generated code, a session carrying the id of a user found by email is logged in |
| `Helpers.UrlsForUser` | helpers.js:32-40 | the `forEach` over the database's keys, assigning each owned entry into a new object, yields exactly `OwnedBy` |
| `Helpers.OwnedBySound` | helpers.js:34-37 | every entry of the result is an unchanged database entry, under the same key, whose `userId` equals `id` |
| `Helpers.OwnedByExactly` | helpers.js:34-39 | the result is a valid object whose keys are exactly the database keys whose entries have `userId == id`, each holding the database's own record |
| `Helpers.CountVisitors` | helpers.js:43-51 | the loop that keeps `visitorIds` free of duplicates and equal to the ids seen so far returns the number of distinct visitor ids |
| `Helpers.DistinctCount` | helpers.js:44-50 | a list of ids kept free of duplicates is exactly as long as the set of its ids, so `visitorIds.length` is the distinct count |
| `Helpers.VisitorIdsSnoc` | helpers.js:45-48 | one more visit adds its visitor id; the count rises by one exactly when that id was not seen before |
| `Helpers.VisitorCountBound` | helpers.js:43-51 | the number of distinct visitors is at most the number of visits |
| `Helpers.VisitorCountZero` | helpers.js:43-51 | the count is zero exactly for an empty visit history |
| `Helpers.VisitorCountExample` | helpers.js:43-51 | visits by "a", "a" and "b" count two visitors, whatever their timestamps |

## Left out

- `express_server.js` is not part of this model: routing, cookies, templates and `app.listen`. Its store
  writes and deletes are one-line map updates, and its own `generateRandomString` duplicates the one in
  `helpers.js`. `FoundUserLogsIn` assumes only the registration invariant: each user is stored under its own
  id, a non-empty six-character code.
- `Math.random` and the floating-point product `Math.random() * input.length`. They become supplied draws
  in `[0, 62)`. The model promises nothing about uniformity or collisions beyond the bijection between
  draws and codes.
- `GenerateRandomString`: `length` is an integer. A non-integer JavaScript number (which gives
  `ceil(length)` characters), `NaN` and non-numbers are not modelled.
- `IsUserLoggedIn`: the session user id is a string or absent. Other truthy or falsy JavaScript values
  (numbers, objects) are not modelled, and the request and session objects are reduced to that one value.
- GetUserByEmail, UrlsForUser, CountVisitors: arguments and record fields are strings, and every record
  exists. `undefined` and `null` are not modelled. For example, `urlsForUser(undefined, db)` returns every
  record without a `userId`, `getUserByEmail(undefined, users)` returns the first user stored without an
  email, and a `null` record throws a `TypeError`.
- Inherited enumerable properties. A `Table` holds own properties only, so the `hasOwnProperty` guard at
  `helpers.js:4` always passes.
- Object identity and aliasing: `urlsForUser` stores references to the same record objects; the model
  copies values.
- The engine's rule for ordering integer-like property names: a `Table` is already in iteration order,
  whatever that order is.
- Templating, console logging and cookie handling.
