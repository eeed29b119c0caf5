# Patent edit form: author-list codec and handlers

This project models the patent ("brevet") edit form
`src/components/Dashboard/Publication/BrevetEdit.jsx`. The form keeps the
authors of a patent as two parallel arrays, `selectedAuthors` (names) and
`selectedAuthorIds` (user ids). The server stores them as two delimited
strings:

- `author`: the names joined with `", "`;
- `id_user`: the ids joined with `","`.

The model has four modules:

- `Options` holds the optional value type.
- `Delimited` defines `Split` and `Join`. `Split` behaves like
  JavaScript's `String.prototype.split` with a non-empty string separator.
  `Join` behaves like `Array.prototype.join`. The module proves the laws
  that connect the two. `Join(Split(s))` is always `s`. `Split(Join(xs))`
  is `xs` exactly when `xs` is non-empty and no element contains the
  separator, provided the separator cannot overlap itself. `", "` and
  `","` both meet that condition.
- `EcmaStrings` writes ECMA-262's step-by-step `StringIndexOf`, `split`
  and `join` as loops and proves that they compute the definitions in
  `Delimited`.
- `BrevetEdit` models each handler as a pure function from the form
  state and the network reply to a `Step`. A `Step` holds four things:
  the next state, the update request sent (if any), the toast shown (if
  any) and the route navigated to (if any). The handlers are
  `fetchMembers`, `fetchBrevetDetails`, `handleAuthorSelection` and
  `handleSubmit`. The module also proves the properties of a load, a
  selection and a save taken together.

A read reply is `Received(value)` or `ReadFailed`; `ReadFailed` stands for
a failed request. A record's `author` or `id_user`
is `None` when it is not a string, so calling `split` on it throws. The
fields assigned before that throw keep their new values, exactly as in the
source.

Two behaviours of the code are worth stating on their own:

- A failed load does not leave every field empty. When a `split` throws,
  the title and the DOI are already set. If only `id_user` fails, the
  names are already set too (`BrevetEdit.LoadRecord`).
- Whenever `handleSubmit` runs, loading a record and saving it unchanged
  re-sends the stored strings for every record, not only for lists
  without embedded separators,
  because `join` undoes `split` for every string
  (`Delimited.JoinSplit`). The converse direction, saving and then
  reloading, is where embedded separators break the lists
  (`BrevetEdit.NameWithSeparatorSplitsOnReload`). Reloading assumes the
  server reads back exactly what it stored (`BrevetEdit.Stored`).

## Model

| member | source | states |
|---|---|---|
| Delimited.IndexFrom | src/components/Dashboard/Publication/BrevetEdit.jsx:44-45 | The index found by the search used inside `split` is at or after the start position, and the separator occurs there. |
| Delimited.IndexFromIsLeftmost | src/components/Dashboard/Publication/BrevetEdit.jsx:44-45 | Every occurrence at or after the start is at or after the index found, so the search never skips an occurrence. |
| Delimited.IndexFromLeftmost | src/components/Dashboard/Publication/BrevetEdit.jsx:44-45 | An occurrence with none before it, from the start position onwards, is exactly what the search returns. |
| Delimited.SplitFrom | src/components/Dashboard/Publication/BrevetEdit.jsx:44-45 | The recursive definition behind `Split`: the pieces of a suffix between the leftmost non-overlapping occurrences of the separator, never fewer than one. |
| Delimited.Split | src/components/Dashboard/Publication/BrevetEdit.jsx:44-45 | `split` with a non-empty separator always returns at least one piece, and no piece contains the separator. |
| Delimited.SplitFromFree | src/components/Dashboard/Publication/BrevetEdit.jsx:44-45 | No piece cut from any suffix contains the separator. |
| Delimited.SplitFromNone | src/components/Dashboard/Publication/BrevetEdit.jsx:44-45 | When the separator does not occur again, the rest of the string is the last piece. |
| Delimited.SplitWhole | src/components/Dashboard/Publication/BrevetEdit.jsx:44-45 | A string that does not contain the separator splits into a one-element array holding that string. |
| Delimited.Join | src/components/Dashboard/Publication/BrevetEdit.jsx:71-72 | `join`: its own contract only fixes that an empty array joins to "". Its meaning is carried by `EcmaStrings.JoinLoop` (it equals ECMA-262's `join` loop), `Delimited.JoinSnoc` and the round-trip laws `Delimited.JoinSplit` and `Delimited.SplitJoin`. |
| Delimited.JoinSnoc | src/components/Dashboard/Publication/BrevetEdit.jsx:71-72 | Joining a non-empty array with one more element appends the separator and then that element. |
| Delimited.JoinCons | src/components/Dashboard/Publication/BrevetEdit.jsx:71-72 | Joining an array of two or more elements gives its head, the separator, and then the join of its tail. |
| Delimited.JoinSplitFrom | src/components/Dashboard/Publication/BrevetEdit.jsx:44-45 | Joining the pieces of any suffix with the separator gives that suffix back. |
| Delimited.JoinSplit | src/components/Dashboard/Publication/BrevetEdit.jsx:44-45 | `s.split(sep).join(sep) == s` for every string `s`, whatever it contains. |
| Delimited.FirstOccurrenceAfter | src/components/Dashboard/Publication/BrevetEdit.jsx:44-45 | For a separator that cannot overlap itself, an occurrence right after a separator-free piece is the leftmost one. |
| Delimited.SplitFromPiece | src/components/Dashboard/Publication/BrevetEdit.jsx:44-45 | A separator-free piece followed by the separator is cut off as one whole piece. |
| Delimited.SplitFromCons | src/components/Dashboard/Publication/BrevetEdit.jsx:44-45 | A suffix `x + sep + t`, with `x` free of the separator, splits into `x` followed by the pieces of `t`. |
| Delimited.SplitFromLast | src/components/Dashboard/Publication/BrevetEdit.jsx:44-45 | A separator-free suffix is the last piece. |
| Delimited.SplitFromJoin | src/components/Dashboard/Publication/BrevetEdit.jsx:71-72 | A suffix that is the join of a non-empty, separator-free array splits back into that array. |
| Delimited.SplitJoin | src/components/Dashboard/Publication/BrevetEdit.jsx:71-72 | For a separator that cannot overlap itself, `xs.join(sep).split(sep) == xs` holds exactly when `xs` is non-empty and no element contains the separator. |
| Delimited.StraddleIsBorder | src/components/Dashboard/Publication/BrevetEdit.jsx:44-45 | Two occurrences of the separator, the second starting inside the first, overlap in a border of the separator. |
| Delimited.NoBorderAt | src/components/Dashboard/Publication/BrevetEdit.jsx:44-45 | A separator that cannot overlap itself has no proper prefix that is also a suffix. |
| Delimited.CommaSpaceIsBorderless | src/components/Dashboard/Publication/BrevetEdit.jsx:44 | `", "`, the separator of author names, cannot overlap itself. |
| Delimited.SingleCharIsBorderless | src/components/Dashboard/Publication/BrevetEdit.jsx:45 | `","`, the separator of author ids, cannot overlap itself. Neither can any other one-character separator. |
| Delimited.FreeOfFirstChar | src/components/Dashboard/Publication/BrevetEdit.jsx:44-45 | A string without the separator's first character does not contain the separator. |
| Delimited.OverlappingSeparatorBreaksSplitJoin | src/components/Dashboard/Publication/BrevetEdit.jsx:44-45 | Without the no-overlap condition the round trip fails: with separator "aa", `["a", ""]` joins to "aaa", which splits to `["", "a"]`. |
| EcmaStrings.StringIndexOf | src/components/Dashboard/Publication/BrevetEdit.jsx:44-45 | The left-to-right scan returns -1 exactly when there is no occurrence at or after `from`, and otherwise returns the leftmost one. |
| EcmaStrings.SplitLoop | src/components/Dashboard/Publication/BrevetEdit.jsx:44-45 | ECMA-262's `split` loop, which collects the substrings between successive occurrences, returns exactly `Split`. |
| EcmaStrings.JoinLoop | src/components/Dashboard/Publication/BrevetEdit.jsx:71-72 | ECMA-262's `join` loop, which puts the separator before every element but the first, returns exactly `Join`. |
| BrevetEdit.LoadMembers | src/components/Dashboard/Publication/BrevetEdit.jsx:18-31 | On success the roster is replaced by the reply, the error is left as it was, and no toast is shown. On failure the roster is kept, and the members error is set and shown as a toast. Either way, nothing else changes and no request or navigation happens. |
| BrevetEdit.LoadRecord | src/components/Dashboard/Publication/BrevetEdit.jsx:33-51 | A received record sets the title and the DOI. Whenever `author` is a string, the names it loads join back to it, there is at least one, and none contains ", ", even if `id_user` then fails; together these fix the names to `author.split(", ")`. If both list fields are strings, the ids likewise join back to the stored string, there is at least one, and none contains ",". A failed read sets the error and changes nothing else. A field that is not a string sets the error and shows the toast, and the id list keeps its old value. |
| BrevetEdit.RosterChoices | src/components/Dashboard/Publication/BrevetEdit.jsx:136-140 | There is one option per roster member, in roster order, whose text is the member's name and whose `data-id` is its user id. |
| BrevetEdit.SelectAuthors | src/components/Dashboard/Publication/BrevetEdit.jsx:97-104 | Both arrays are replaced by the selected options' texts and `data-id`s, position by position and of equal length. Nothing else changes and no effect occurs. |
| BrevetEdit.BuildPayload | src/components/Dashboard/Publication/BrevetEdit.jsx:68-72 | The body carries the form's title and DOI, `author` is the names joined with ", " and `id_user` the ids joined with ",", whatever the arrays hold. Each joined list decodes back to the form's array exactly when that array is non-empty and free of its separator. |
| BrevetEdit.Submit | src/components/Dashboard/Publication/BrevetEdit.jsx:58-95 | Whenever `handleSubmit` runs, a request is sent exactly when the id list is non-empty, and it carries the payload above. With no ids, only the error changes and a toast is shown. A written update shows the success toast and navigates to `/dashboard/patent`, with the form unchanged. A failed one sets the error, shows it as a toast and does not navigate. |
| BrevetEdit.NamesFixedBySplitFacts | src/components/Dashboard/Publication/BrevetEdit.jsx:44 | Any list of names that joins back to `a` with ", ", is non-empty and has no element containing ", " is exactly `a.split(", ")`, so the facts `LoadRecord` promises fix the names. |
| BrevetEdit.SubmitBeforeLoadIsRejected | src/components/Dashboard/Publication/BrevetEdit.jsx:8-13 | The state on mount (`InitialForm`) has every field empty, so a submit before the record loads sends nothing, does not navigate and only sets the "at least one author" error. |
| BrevetEdit.LoadedNamesAreSplit | src/components/Dashboard/Publication/BrevetEdit.jsx:44 | Whenever `author` is a string, the loaded names are exactly `author.split(", ")`, whether or not `id_user` then fails. |
| BrevetEdit.LoadedRecordPassesGuard | src/components/Dashboard/Publication/BrevetEdit.jsx:44-45 | After any successfully loaded record, the "at least one author" check passes. |
| BrevetEdit.LoadThenSaveResendsRecord | src/components/Dashboard/Publication/BrevetEdit.jsx:44-45 | Loading a record and submitting it untouched (when `handleSubmit` runs) sends back exactly the stored title, DOI, author and id_user. |
| BrevetEdit.SaveThenLoadRestoresSelection | src/components/Dashboard/Publication/BrevetEdit.jsx:68-72 | Saving non-empty, separator-free lists and reloading the stored record (assuming the server reads back what it stored) restores the same two arrays. |
| BrevetEdit.RejectionIgnoresOutcome | src/components/Dashboard/Publication/BrevetEdit.jsx:61-65 | A rejected submit sends nothing and does not navigate, so the network outcome cannot change what it does. |
| BrevetEdit.EmptyIdListPassesGuard | src/components/Dashboard/Publication/BrevetEdit.jsx:45 | A record whose id_user is "" loads as the one-element array `[""]`, passes the check, and is sent with id_user "" again. |
| BrevetEdit.MisalignedListsAreSent | src/components/Dashboard/Publication/BrevetEdit.jsx:61 | The check looks only at the ids. No names and one id are sent as author "", which reloads as one empty name. |
| BrevetEdit.NameWithSeparatorSplitsOnReload | src/components/Dashboard/Publication/BrevetEdit.jsx:44 | A name containing ", " does not survive a save and reload: "Doe, John" comes back as two names against one id. |
| BrevetEdit.DecodeTwoAuthors | src/components/Dashboard/Publication/BrevetEdit.jsx:44-45 | The stored strings "A, B" and "1,2" load as the aligned arrays `["A", "B"]` and `["1", "2"]`. |
| BrevetEdit.SessionLoad | src/components/Dashboard/Publication/BrevetEdit.jsx:18-51 | Loading the roster and then the record Alice/u1 gives a form with that roster, whose only selected author is Alice. |
| BrevetEdit.SessionSelect | src/components/Dashboard/Publication/BrevetEdit.jsx:97-104 | Selecting every option of the Alice/Bob roster selects both members, in roster order, with their ids. |
| BrevetEdit.SessionPayload | src/components/Dashboard/Publication/BrevetEdit.jsx:68-72 | Alice and Bob, with ids u1 and u2, are sent as "Alice, Bob" and "u1,u2". |
| BrevetEdit.AddSecondAuthorSession | src/components/Dashboard/Publication/BrevetEdit.jsx:18-104 | The whole session (load roster, load record, select Alice and Bob, submit) sends "Alice, Bob" and "u1,u2" and navigates to the patent list. |
| BrevetEdit.SelectionFromRosterIsAligned | src/components/Dashboard/Publication/BrevetEdit.jsx:97-104 | When the chosen options come from the rendered roster, each name and the id at the same position belong to the same member. |

## Left out

- HTTP, headers and the access token. The three requests become inputs (`Reply`, `WriteOutcome`) and outputs (`Step.request`). The URLs and the record id from the route are not modelled.
- React's state, hooks and the mount effect (lines 53-56). Each handler is a pure step on an immutable `Form`. The two fetches on mount are independent steps, and their interleaving is the caller's choice.
- Concurrency: overlapping requests, or a double submit while a request is in flight.
- `console.error` logging and the internals of `toast` and `navigate`. Only the toast text and the target route are observable.
- Rendering (lines 106-163): the displayed author list, the controlled `<select>` that selects by name, and the inputs that edit the title and the DOI (any string can be set, so `Form` takes any title and DOI).
- A `data-id` attribute that is absent: `getAttribute` would return `null`, which `join` renders as "". Every rendered option carries the member's `user_id`, so ids are always strings here.
- A `user_id` or `title` that is not a string, such as a number or `null`. JavaScript would convert it to a string or store it as it is. The model's member ids, titles and DOIs are strings.
- `split`'s limit argument: it is never passed, so the default limit of 2^32-1 pieces is not modelled.
- UTF-16 code units: strings are sequences of Unicode characters. Both separators are ASCII, so the pieces are the same either way.
- Empty and non-string separators: `split` is modelled only for non-empty string separators, which are the only ones the form uses.
- The browser's form validation: the title input is `required` (line 124) and the form has no `noValidate`, so with an empty title the browser never dispatches the submit and `handleSubmit` (line 58) does not run. `BrevetEdit.Submit` models what `handleSubmit` does once it runs; a record whose title is "" cannot be saved unchanged.
- The server: `BrevetEdit.Stored` assumes that reading a record (line 36) returns exactly the title, DOI, `author` and `id_user` the update endpoint (line 68) stored. The two are different endpoints and nothing in the form guarantees this; the save-then-reload lemmas rest on it.
