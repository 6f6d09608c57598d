# Comment board state manager, modelled in Dafny

The comment board is a browser page. Users submit a name and a comment, see the
list of comments, and delete entries. The page keeps the list in memory and
numbers new comments with a module-level counter that starts at 1. It sends
create and delete requests to a remote store without waiting for them, and it
replaces the list once, at start-up, with whatever the store returns.

This project models that state manager (`App` in `src/App.tsx`):

- `wrappers.dfy`: module `Wrappers`, with an `Option` type for a form field that
  may be missing and for a fetch that may fail.
- `comment_list.dfy`: module `CommentList`, the pure part. It holds the `Comment`
  record and the `Draft` (a comment without its id), and `Stamp`, which attaches
  a counter value to a draft as its id (the `{ ...comment, id }` of
  `src/App.tsx:85`). It defines the form's presence check (`ReadForm`, built on
  `Truthy`, the JavaScript truthiness of a field tested at `src/App.tsx:100`)
  and the list filter used by removal (`Filter`, with `CountId` counting the
  entries a removal drops).
  It also defines the numbering invariant `WellNumbered`: ids pairwise distinct
  and all below the counter. The lemmas say what filtering keeps and drops, and
  when the invariant holds or breaks.
- `app.dfy`: module `App`, the imperative part. Class `CommentBoard` has the
  displayed list `comments`, the id `counter`, and a ghost `outbox` that records
  the `Create`/`Delete` requests the handlers send. Its methods are `Add`
  (`addNewComment`), `Remove` (`removeComment`), `Submit` (`onSubmit`) and
  `Load` (the initial-load effect). Methods `SubmitScenario` and `LoadScenario`
  are client code. They state the outcome of concrete call sequences, and the
  verifier proves it: a submission, a rejected empty field, a failed load, a
  successful load, and the id collision a successful load allows.

Main result: `Add` and `Remove` each preserve `Valid()` (= `WellNumbered`), so
any sequence of them keeps ids unique and below the counter. `Load` can break
the invariant, because nothing relates server ids to the local counter.
`AddAfterCollision` proves the consequence: once the list holds the counter's
current value, the next `Add` creates a duplicate id. After that, `Remove` of
that id drops both entries (`FilterDropsEveryMatch`, `LoadScenario`).

Removal drops every comment with that id, not only the first
(`src/App.tsx:93`). With unique ids that is exactly one entry
(`FilterRemovesOnlyMatch`); with a shared id every copy goes
(`FilterDropsEveryMatch`).

## Model

| member | source | states |
|---|---|---|
| `CommentList.ReadForm` | src/App.tsx:97-105 | submission is aborted exactly when the name or the comment is absent or empty; otherwise the draft holds both strings exactly as entered |
| `CommentList.Filter` | src/App.tsx:93 | the result is no longer than the input, holds no entry with the removed id, holds only entries of the input, and keeps every input entry whose id differs |
| `CommentList.FilterAppend` | src/App.tsx:93 | filtering a concatenation is the concatenation of the filtered parts (the filter is stable and works element by element) |
| `CommentList.KeptIndicesIncrease` | src/App.tsx:93 | the positions the filter keeps are strictly increasing |
| `CommentList.KeptIndicesMembers` | src/App.tsx:93 | a position is kept exactly when its entry's id differs from the removed id |
| `CommentList.FilterSelects` | src/App.tsx:93 | the filtered list is the input read at the kept positions, in order; so removal keeps all other entries in their original relative order |
| `CommentList.FilterUnchangedIff` | src/App.tsx:93 | removal leaves the list unchanged if and only if no entry has that id |
| `CommentList.FilterIdempotent` | src/App.tsx:93 | removing an id a second time changes nothing more |
| `CommentList.FilterRemovesOnlyMatch` | src/App.tsx:93 | with unique ids, removing the id at position k yields the list with exactly that one entry cut out, one shorter |
| `CommentList.FilterDropsEveryMatch` | src/App.tsx:93 | the list shrinks by exactly the number of entries that carry the removed id, so every copy of a shared id is dropped |
| `CommentList.AddKeepsWellNumbered` | src/App.tsx:85 | appending under the counter value and bumping the counter keeps ids unique and below the counter |
| `CommentList.FilterKeepsWellNumbered` | src/App.tsx:93 | filtering keeps ids unique and below the counter |
| `CommentList.AddAfterCollision` | src/App.tsx:85 | if the list already holds the counter's value as an id, the list is not below the counter and the next append makes ids non-unique |
| `App.CommentBoard.constructor` | src/App.tsx:82 | the board starts with an empty list, the counter at 1 (its seed at line 12) and no requests sent, which satisfies the invariant |
| `App.CommentBoard.Add` | src/App.tsx:84-86 | exactly one element is appended; earlier elements are unchanged and in order; its id is the old counter and its author and text are the draft's; the counter rises by exactly 1; no request is sent; the invariant is preserved |
| `App.CommentBoard.Remove` | src/App.tsx:89-94 | one delete request for the id is sent; the new list is the filtered old list; the counter is unchanged; the invariant is preserved |
| `App.CommentBoard.Submit` | src/App.tsx:96-111 | with a missing or empty field, neither list, counter nor outbox change; otherwise the draft is appended under the old counter, the counter rises by 1, and exactly one create request with only author and text is sent; the invariant is preserved |
| `App.CommentBoard.Load` | src/App.tsx:113-121 | a successful fetch makes the list exactly the fetched list, and the invariant then holds exactly when the fetched ids are unique and below the counter; a failed fetch leaves the list unchanged; counter and outbox never change |

## Left out

- The network calls (`addToDatabase`, `removeFromDatabase`, `getAllFromDatabase`, `src/App.tsx:43-79`) are HTTP I/O with an external service. Create and delete are recorded as ghost `outbox` entries. The list fetch is the `Option` argument of `Load`: `None` for a rejected fetch or a non-success status, `Some` for the parsed body. Headers, URLs and JSON encoding are not modelled.
- Diagnostic logging (`console.log`, `console.error`) is omitted. It has no effect on state.
- Rendering is omitted: the `Comment` component, the form markup, the "No Comments Here Yet" fallback, the icon, CSS and the unused `axios` import. These are presentation only.
- React scheduling is not modelled: `useState` and `useEffect` timing, re-renders, handlers capturing a stale `comments`, and the load racing with user actions. Each handler is one atomic step on the current state.
- The counter lives at module level in the source, so it outlives one mounted component. The model keeps it in the same object as the list and starts both at a fresh mount.
- Ids are taken as unbounded integers. JavaScript numbers also allow non-integer values, `NaN` (never equal to itself, so a filter by `NaN` removes nothing) and precision loss above 2^53. None of these are modelled. The shape of the fetched JSON is not validated, in the model or in the source.
- `FormData.get` can also return a file; a file is truthy and `toString` renders it. Each field is modelled as `Option<string>`: absent, empty, or a string.
