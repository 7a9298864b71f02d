# Todo API: store and REST handlers

A model of the server half of a full-stack todo application. The server
keeps todos in one SQLite table and serves them over a REST API at
`/api/todos`. Two parts are modelled:

- **The store** (`server/src/db.ts`): list, get, create, sparse update,
  toggle and delete over the `todos` table. Here it is the class
  `Store.TodoStore` with these fields:
  - `todos`: a map from row id to row;
  - `nextId`: the next auto-increment id;
  - `clock`: an abstract, monotone reading of `CURRENT_TIMESTAMP`;
  - `log`: a ghost record of which mutating store function was called
    with which argument.
- **The route handlers** (`server/src/routes/todos.ts`): they parse the id
  with JavaScript's `parseInt(…, 10)` and validate and trim the JSON body.
  They call the store only once the request is valid. They map each outcome
  to a status (200, 201, 204, 400, 404 or 500) and an error message.
  - Each handler is a method of module `Routes` that returns a `Response`.
  - The JavaScript built-ins they rely on are modelled after ECMA-262 in
    module `JsString`:
    - `String.prototype.trim` (section 22.1.3.32, with the WhiteSpace and
      LineTerminator sets of sections 12.2 and 12.3);
    - `parseInt` (section 19.2.5).

A JSON body property is a `Field`: missing (`undefined`), `null`, a string,
a boolean, or anything else. The handlers treat these five cases
differently:

- PUT tests each property with `!== undefined`, so `null` counts as present;
- POST calls `description?.trim()`, which throws on a number or a boolean.
- A blank description is not cleared on update: PUT passes it on as `""`
  and the row stores `""`, while POST drops it and the row stores null
  (Routes.DescriptionAsymmetry).

The store is proved to keep its well-formedness invariant:

- ids lie in `1..nextId-1`;
- each row carries its own id;
- `createdAt <= updatedAt <= clock`.

The update path is proved in two steps:

- the SET list that `updateTodo` assembles writes exactly the present
  fields;
- every handler leaves the store untouched on a 400.

The store accepts any title, but the handlers only ever write trimmed,
non-empty ones, so every stored title keeps something besides white space
(`Routes.TitlesUsable`) across every handler.

## Model

| member | source | states |
|---|---|---|
| Store.TodoStore.constructor | server/src/db.ts:9-21 | A freshly initialised database has an empty `todos` table, and the first id handed out is 1. |
| Store.TodoStore.GetAllTodos | server/src/db.ts:24-27 | The listing is every stored row exactly once (ids distinct, length = number of rows, each entry is the stored row under its id, each stored row appears), ordered by `createdAt` descending. |
| Store.SortNewestFirst | server/src/db.ts:25 | The `ORDER BY created_at DESC` sort returns exactly the rows it was given, each as often as it occurred. |
| Store.SortNewestFirstCorrect | server/src/db.ts:25 | The `ORDER BY created_at DESC` sort yields non-increasing `createdAt` and keeps ids distinct when they were distinct. |
| Store.ListingNewestFirst | server/src/db.ts:24-27 | The listing of a well-formed table is ordered newest first with distinct ids. |
| Store.ListingComplete | server/src/db.ts:24-27 | Every stored row occurs in the listing, and the listing has as many entries as the table has rows. |
| Store.ListingFromTable | server/src/db.ts:24-27 | Every listed row is the row stored under its own id. |
| Store.TodoStore.GetTodoById | server/src/db.ts:30-33 | The lookup finds a row exactly when `id` is stored, and it is that row, carrying `id`. |
| Store.TodoStore.CreateTodo | server/src/db.ts:36-48 | The new row is inserted under a fresh id larger than every stored id, and nothing else changes. It has the given title and `completed` false, with `createdAt == updatedAt ==` the advanced clock. An absent or empty description is stored as null. |
| Store.SetList | server/src/db.ts:57-76 | The SET list is empty exactly when no field is present. Executing it on any row writes each present field and leaves the rest as they were. |
| Store.TodoStore.UpdateTodo | server/src/db.ts:51-88 | A missing id gives None and changes nothing. An input with no field returns the stored row unchanged, without touching the clock. Otherwise only that row changes: its present fields are written and `updatedAt` is refreshed. The row returned is the row stored. |
| Store.ToggleOnlyFlips | server/src/db.ts:91-98 | The update sent by toggle negates `completed` and changes nothing but `updatedAt`. |
| Store.ToggleTwiceRestores | server/src/db.ts:91-98 | Toggling twice restores the original row except for `updatedAt`. |
| Store.TodoStore.ToggleTodo | server/src/db.ts:91-98 | A missing id gives None and changes nothing. Otherwise the call goes through updateTodo with the negated flag: only `completed` flips and `updatedAt` is refreshed. |
| Store.TodoStore.DeleteTodo | server/src/db.ts:101-105 | The row is removed, and the result is true exactly when a row existed (`changes > 0`). The id counter and the clock are unchanged. |
| JsString.Trim | server/src/routes/todos.ts:52 | `trim()` returns text that neither starts nor ends with white space. |
| JsString.TrimSlice | server/src/routes/todos.ts:52 | The result of `trim()` is the slice of `s` that starts where the leading white space ends. Everything `trim()` drops on either side is white space. |
| JsString.TrimUnique | server/src/routes/todos.ts:57 | Whenever `s` splits into white space, then a piece with no white space at either end, then white space, `s.trim()` is exactly that piece. |
| JsString.TrimEmptyIff | server/src/routes/todos.ts:52 | `s.trim().length === 0` holds exactly when `s` is all white space. |
| JsString.TrimIdempotent | server/src/routes/todos.ts:57 | Trimming an already trimmed string changes nothing. |
| JsString.SkipWhitespace | server/src/routes/todos.ts:28 | Returns the index of the first character at or after `i` that is not white space, or the length of `s`: the scan `parseInt` and `trim` begin with. |
| JsString.DigitRunEnd | server/src/routes/todos.ts:28 | Returns the index where the run of decimal digits that starts at `i` ends. |
| JsString.ParseInt | server/src/routes/todos.ts:28 | `parseInt(…, 10)` is NaN exactly when no decimal digit follows the leading white space and the optional sign, and a negative result needs a leading `-`. ParseIntAccepts and ParseIntRejects together say what it reads from every string. |
| JsString.ParseIntSkipsWhitespace | server/src/routes/todos.ts:28 | Leading white space does not change what `parseInt` reads. |
| JsString.ParseIntAccepts | server/src/routes/todos.ts:28-32 | After leading white space and an optional sign, the longest run of decimal digits is read as the id. It is negated after `-`, and trailing text is ignored. |
| JsString.ParseIntRejects | server/src/routes/todos.ts:28-32 | Text with no digit after the white space and the optional sign is NaN, which gives 400. |
| JsString.ParseIntDecimal | client/src/api.ts:41-44 | An integer id written in decimal into the URL parses back to the same id. |
| JsString.ParseIntTrailingText | server/src/routes/todos.ts:28 | `"12abc"` is read as 12. |
| JsString.ParseIntWord | server/src/routes/todos.ts:28-32 | `"abc"` is NaN. |
| Routes.CheckCreate | server/src/routes/todos.ts:50-59 | POST accepts exactly the titles that are strings with a non-white-space character, and trims them. A string description is trimmed and dropped when blank. `null` or a missing description gives none. Any other description throws. |
| Routes.CreateInputIsClean | server/src/routes/todos.ts:56-59 | Whatever POST accepts reaches createTodo with a trimmed, non-empty title and never with an empty description. |
| Routes.UpdateRequest | server/src/routes/todos.ts:78-98 | PUT rejects a present, unusable title first, then a present non-boolean `completed`. Otherwise each present property becomes a present field: the title trimmed, a string description trimmed, a non-string description dropped. |
| Routes.BuildUpdateInput | server/src/routes/todos.ts:80-98 | The step-by-step assembly of `input`, which returns at the first invalid property, agrees with UpdateRequest. |
| Routes.UpdateInputIsTrimmed | server/src/routes/todos.ts:82-91 | Every string PUT passes to updateTodo is already trimmed. |
| Routes.DescriptionAsymmetry | server/src/routes/todos.ts:56-91 | A blank description is dropped by POST but sent as `""` by PUT. |
| Routes.DescriptionOnlyUpdate | server/src/routes/todos.ts:89-91 | A body holding only a description is valid for PUT. It is a real update exactly when the description is a string. |
| Routes.CreateKeepsTitlesUsable | server/src/routes/todos.ts:52-61 | A row created from input POST accepted has a title with something besides white space, so every stored title stays usable. |
| Routes.UpdateKeepsTitlesUsable | server/src/routes/todos.ts:82-100 | Writing input PUT accepted into a stored row keeps every stored title usable: a present title is trimmed and non-empty, an absent one is kept. |
| Routes.ListTodos | server/src/routes/todos.ts:14-23 | GET answers 200 with the store's listing, newest first and as long as the table, or 500 "Failed to fetch todos". |
| Routes.GetTodo | server/src/routes/todos.ts:25-45 | GET by id answers 400 "Invalid todo ID" on NaN, 404 "Todo not found" for a missing row, 200 with the row otherwise, or 500 on a store failure. |
| Routes.PostTodo | server/src/routes/todos.ts:47-67 | POST answers 400 "Title is required", or 500 when the description throws or the store fails; in all of these the store is untouched. Otherwise it answers 201 with the new row, after exactly one createTodo call. The row has a fresh id above every stored one, carries the validated input and never an empty-string description, and has `createdAt == updatedAt ==` the clock advanced by this call. Every stored title stays usable. |
| Routes.PutTodo | server/src/routes/todos.ts:69-111 | PUT answers 400 for a bad id, then a bad title, then a bad `completed`, with the store untouched. Otherwise it makes exactly one updateTodo call with the validated input. It answers 404 for a missing row and 200 with the stored row for an input with no field, both leaving the table and clock as they were. Otherwise it answers 200 with the row as updated, whose `updatedAt` is the clock advanced by this call. Every stored title stays usable. |
| Routes.ToggleRoute | server/src/routes/todos.ts:113-133 | PATCH toggle answers 400 with the store untouched, 404 for a missing row with table and clock as they were, or 200 with the row whose `completed` is flipped and whose `updatedAt` is the clock advanced by this call. Either way it makes exactly one toggleTodo call, which makes one updateTodo call when the row exists. Every stored title stays usable. |
| Routes.DeleteRoute | server/src/routes/todos.ts:135-155 | DELETE answers 400 with the store untouched. Otherwise exactly one deleteTodo call removes the row, the clock is left alone, and it answers 204 with no body if a row existed, 404 if not. |

## Left out

- SQLite itself: SQL text, prepared statements, the better-sqlite3 handle, WAL mode and reading the schema file. The table is a map. `database/schema.sql` is not part of this model.
- Real timestamps. `CURRENT_TIMESTAMP` is an abstract `nat` clock that a mutating call advances by a caller-chosen `elapsed`. Because `elapsed` may be 0, two toggles in the same second can leave `updatedAt` equal. The model therefore does not claim that `updated_at` strictly increases; the code cannot promise that at one-second resolution.
- Store.TodoStore.GetAllTodos: the order of rows with equal `createdAt` is not stated, because SQL leaves it unspecified.
- The 0/1 storage of `completed` and the JSON serialisation of rows (`created_at` and `updated_at` as strings).
- Store.TodoStore.CreateTodo: its `throw` when the new row cannot be read back is unreachable in the model, since the row was just inserted.
- Exceptions from the database. Each handler takes a `fault` flag for "the store call threw", and answers 500 with its own message.
  - Routes.PutTodo: under `fault` the store is left unchanged. A failure after the UPDATE had run (in the read-back) would leave the write in place; that case is not modelled. The same holds for Routes.ToggleRoute.
  - Routes.PostTodo: under `fault` the store is left unchanged. `createTodo` runs the INSERT before it reads the row back (`server/src/db.ts:40-45`), so a failure in the read-back would answer 500 with the new row already stored; that case is not modelled.
- JsString.ParseInt: it works on unbounded integers. The model does not capture:
  - rounding of ids beyond 2^53 to the nearest Number;
  - `-0`, which is read as 0 (no row has id 0 either way);
  - ids of 10^21 or more, which JavaScript prints in exponent notation, so `JsString.Decimal` and the round trip of JsString.ParseIntDecimal stand for ids below that bound only.
- Express wiring: body parsing, CORS, static files, `/api/health` and shutdown handling (`server/src/index.ts`). Every request body is taken to be a parsed JSON object.
- `console.error` logging in the catch blocks.
- Concurrency between requests.
- The React client, apart from the id it puts in URLs.
