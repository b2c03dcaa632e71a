# nlp-phone-book: the `/api/query` handler

A model of the request handler of the natural-language phone book
(`POST /api/query` in `main.go`) and of its command record
(`pkg/cmd/command.go`). A language model turns a sentence into a
`Command{Action, Name, Phone, Message}`. The handler then dispatches on the
raw `Action` string. It issues at most one SQL statement against the
`contacts` table, may reassign the single process-wide `lastCommand` slot
that holds a delete awaiting confirmation, and renders a `Response`.

Files and modules:

- `wrappers.dfy` (`Wrappers`): `Option`. It stands for Go's nil pointer and for "no row".
- `command.dfy` (`Cmd`): the `Command` record and the action constants. Also `NameAll`, the zero value `Command{}` (`Zero`) and facts about them.
- `contacts.dfy` (`Contacts`): the `Contact` row and the table kept as a `seq<Contact>` in row-id order. It gives the meaning of the `INSERT`, `QueryRow ... WHERE name = ? OR phone_number = ?`, `UPDATE` and `DELETE` statements. The table invariant is distinct names (the `UNIQUE` constraint) plus non-empty fields.
- `handler.dfy` (`Api`): `Response`, the handler's `Outcome`, Go's `strings.TrimSpace`, the switch's `Dispatch`, and the handler as a function `Handle`. It also has the class `PhoneBook`, whose fields `table` and `lastCommand` are updated in place. `PhoneBook.PostQuery` is the imperative handler and is proved to follow `Handle`. `PhoneBook.SelectAll` is the `for rows.Next()` loop.
- `properties.dfy` (`Properties`): what each branch does, as lemmas over `Handle`. Also the protocol properties that span several requests: delete then confirm, cancel disarms, a second confirm removes nothing, and the slot never returns to nil.

Modelling choices:

- `lastCommand` is `Option<Command>`. `None` is the nil pointer it is declared as, and `Some(Zero)` is `&cmd.Command{}`.
- A Confirm while `lastCommand` is still nil dereferences a nil pointer. The model does not hide this behind a precondition. It is an explicit outcome, `NilDereference`, with the table and the slot unchanged, because the panic happens before any statement runs.
- The language-model call `UserQuery.Parse` is not modelled. Its result is the `parsed` parameter: a `Command` or an error message.
- Requests are strictly sequential. The table is a sequence in row-id order. Rows are appended with increasing ids and never reordered. `QueryRow` over `name = ? OR phone_number = ?` scans the table, because `phone_number` has no index. The row it returns is taken to be the first match in that order.

Where the code and the design description disagree, the model follows the code:

- An Update whose name matches no row changes nothing and still replies with the success message.
- Confirm does not clear the slot.
- Only the exact empty form value is answered with no content. A whitespace-only value is trimmed to `""` and still reaches the parser.
- Confirm against an empty `Command{}` answers with no content.
- Create, Read, Update, Cancel and the default branch all reset the slot to `Command{}`, even when they reply with an error. Delete without a target leaves the slot as it was.

## Model

| member | source | states |
|---|---|---|
| `Cmd.ActionsDistinct` | pkg/cmd/command.go:12-19 | the seven action values are pairwise distinct, so one value selects at most one switch case |
| `Cmd.ZeroIsUnknown` | pkg/cmd/command.go:3-19 | `Command{}` has the zero action `ActionUnknown` (""), and an empty name and phone, so it has no target |
| `Cmd.NameAllIsTarget` | pkg/cmd/command.go:20 | the `NameAll` sentinel is non-empty, so a read-all command never counts as "neither field set" |
| `Contacts.Insert` | main.go:103-113 | the INSERT statement under the `UNIQUE` name constraint; its contract is stated by `Contacts.InsertSpec` |
| `Contacts.InsertSpec` | main.go:103-113 | INSERT fails exactly when the name is already stored (`UNIQUE`, main.go:44). Otherwise it appends the row, and a row with non-empty fields keeps the table invariant |
| `Contacts.SelectFirst` | main.go:157-169 | the single-row lookup by name or phone; its contract is stated by `Contacts.SelectFirstSpec`, over `Contacts.FirstMatch` |
| `Contacts.FirstMatch` | main.go:157-162 | the index returned is the first row matching `name = ? OR phone_number = ?`: no earlier row matches, and `|t|` when none does |
| `Contacts.SelectFirstSpec` | main.go:157-169 | `QueryRow` yields no row exactly when no row matches; otherwise it yields the first matching row |
| `Contacts.FirstMatchUnique` | main.go:157-162 | any matching index with no earlier match is the one the lookup picks |
| `Contacts.EmptyFieldMatchesNothing` | main.go:156-160 | under the table invariant an empty name or phone in the filter matches no row, so the filter reduces to the other field |
| `Contacts.SetPhone` | main.go:193-196 | UPDATE keeps the length and the order; exactly the rows with that name get the new phone and every other row is unchanged |
| `Contacts.SetPhoneKeepsValid` | main.go:193-196 | UPDATE with a non-empty phone keeps every name in place and keeps the table invariant |
| `Contacts.SetPhoneAbsentName` | main.go:193-207 | UPDATE of a name no row has leaves the table unchanged (zero rows affected is not an error) |
| `Contacts.DeleteWhere` | main.go:233-236 | DELETE keeps exactly the rows that match neither the name nor the phone |
| `Contacts.DeleteWhereAppend` | main.go:233-236 | DELETE acts row by row over a concatenation, so the kept rows stay in their original order |
| `Contacts.DeleteWhereSingle` | main.go:233-236 | a single row is removed exactly when it matches the name or the phone |
| `Contacts.DeleteWhereIdempotent` | main.go:231-236 | repeating the same DELETE removes nothing more |
| `Contacts.DeleteWhereKeepsValid` | main.go:233-236 | DELETE keeps the table invariant (distinct names, filled fields) |
| `Api.Dispatch` | main.go:98-265 | the branch `switch command.Action` selects; its contract is stated by `Api.DispatchExact` |
| `Api.DispatchExact` | main.go:98-265 | each of the six case constants selects its own branch; every other string, including `ActionUnknown` (""), selects `default` |
| `Api.IsSpace` | main.go:88 | Go's `unicode.IsSpace` set, the white space `strings.TrimSpace` removes; what trimming with it yields is stated by `Api.TrimSpace` |
| `Api.LeadingSpace` | main.go:88 | the length of the maximal run of Unicode white space at the start of the input |
| `Api.TrailingSpace` | main.go:88 | the length of the maximal run of Unicode white space at the end of the input |
| `Api.TrimSpace` | main.go:88 | the query is the slice of the input between its leading and trailing white space. It neither starts nor ends with white space, and it is empty exactly when the input is all white space |
| `Api.CreateStep` | main.go:100-123 | the Create branch; stated by `Properties.CreateAppends`, `Properties.CreateDuplicateFails` and `Properties.MissingFieldRejected` |
| `Api.ReadStep` | main.go:126-187 | the Read branch; stated by `Properties.ReadAllListsTable`, `Properties.ReadNotFound`, `Properties.ReadReportsFirstMatch` and `Properties.ReadWithoutTarget` |
| `Api.UpdateStep` | main.go:190-213 | the Update branch; stated by `Properties.UpdateSetsPhone` and `Properties.MissingFieldRejected` |
| `Api.DeleteStep` | main.go:216-228 | the Delete branch; stated by `Properties.DeleteArms` and `Properties.DeleteWithoutTarget` |
| `Api.ConfirmStep` | main.go:231-248 | the Confirm branch; stated by `Properties.ConfirmRemovesMatches`, `Properties.ConfirmWithoutTarget` and `Properties.ConfirmNilPanics` |
| `Api.Handle` | main.go:82-268 | one whole request; `Api.PhoneBook.PostQuery` is proved to follow it, `Api.HandleKeepsValid` states the invariant it keeps, and the `Properties` lemmas state each path |
| `Api.HandleKeepsValid` | main.go:82-268 | every request keeps the table invariant: distinct names, non-empty names and phones |
| `Api.PhoneBook.constructor` | main.go:67 | the handler starts over the stored rows with `lastCommand` nil; stored rows that satisfy the table invariant give a valid object |
| `Api.PhoneBook.SelectAll` | main.go:139-148 | the `for rows.Next()` loop collects every row of the table, in table order |
| `Api.PhoneBook.PostQuery` | main.go:82-268 | the new table, the new `lastCommand` and the answer are those `Handle` gives for the old state and the inputs; the table invariant is kept |
| `Properties.EmptyInputIsNoop` | main.go:83-86 | an empty form value is answered with no content and changes neither the table nor the slot |
| `Properties.ParseErrorIsNoop` | main.go:89-95 | a parse error is rendered with an empty query and changes neither the table nor the slot |
| `Properties.CreateAppends` | main.go:100-117 | Create with both fields and a free name appends exactly that contact, resets the slot, and replies `Message + Phone` with no space |
| `Properties.CreateAllowsDuplicatePhone` | main.go:102-106 | a phone that is already stored does not block a Create; only names are unique |
| `Properties.CreateThenReadByName` | main.go:100-174 | under the table invariant, a Create of a free name followed by a Read by that name (phone not given) replies `Message + " " + ` the created phone and changes no row |
| `Properties.CreateDuplicateFails` | main.go:103-113 | Create of a stored name replies "Failed to create contact", leaves the table unchanged, and still resets the slot |
| `Properties.MissingFieldRejected` | main.go:100-213 | Create or Update with an empty name or phone replies the "[C]" or "[U]" error, leaves the table unchanged, and resets the slot |
| `Properties.UpdateSetsPhone` | main.go:190-207 | Update with both fields changes only the phone of the row with that name. Other rows and their order are kept. With no such row the table is unchanged and the reply is still `Message + " " + Phone` |
| `Properties.ReadAllListsTable` | main.go:126-154 | Read with `NameAll` lists every row in table order (possibly none) with `HasContacts` set, and changes no row |
| `Properties.ReadNotFound` | main.go:156-169 | Read by name or phone with no matching row replies "Not found!" and changes no row |
| `Properties.ReadReportsFirstMatch` | main.go:156-180 | Read by name or phone replies with the first matching row's phone when a name was given, and its name otherwise |
| `Properties.ReadWithoutTarget` | main.go:182-187 | Read with neither field set replies "[R] Failed to find contact" |
| `Properties.DeleteArms` | main.go:216-222 | Delete with a target stores the command in the slot, replies its message, and does not touch the table |
| `Properties.DeleteWithoutTarget` | main.go:223-228 | Delete without a target replies the "[D]" error and leaves the slot as it was |
| `Properties.ConfirmRemovesMatches` | main.go:231-247 | Confirm with a targeted slot removes exactly the rows matching its name or phone and keeps the slot. It replies "Removed contact: " + the slot's name |
| `Properties.ConfirmTwiceRemovesOnce` | main.go:231-247 | the slot is not cleared, so a second Confirm right after the first leaves the table unchanged |
| `Properties.ConfirmWithoutTarget` | main.go:231-267 | Confirm against a slot with neither field set (such as `Command{}`) falls out of the switch, answers with no content and changes nothing |
| `Properties.ConfirmNilPanics` | main.go:231-232 | Confirm while the slot is still the initial nil pointer is a nil dereference, with nothing changed |
| `Properties.CancelAndDefaultReset` | main.go:251-264 | Cancel replies "Contact not removed." and any unlisted action replies "Unknown command". Both reset the slot and leave the table alone |
| `Properties.ZeroActionIsUnknown` | main.go:259-264 | a command with the zero action `ActionUnknown` is handled by the "Unknown command" branch |
| `Properties.OnlyWritesChangeTable` | main.go:82-268 | empty input, parse errors, Read, Delete, Cancel and the default branch leave the table unchanged |
| `Properties.PendingStaysAllocated` | main.go:98-265 | once the slot is non-nil it never becomes nil again, so no later Confirm can panic |
| `Properties.PendingKeptUnlessReset` | main.go:82-268 | the slot changes only when a request reaches the switch: it is reset to `Command{}`, or a Delete stores its own command |
| `Properties.DeleteThenConfirm` | main.go:216-247 | Delete with a target removes nothing; a Confirm right after it removes the rows matching the deleted command |
| `Properties.CancelDisarmsConfirm` | main.go:216-267 | Delete, then Cancel, then Confirm: the table is unchanged and the Confirm answers with no content |
| `Properties.InterveningRequestDisarms` | main.go:98-267 | any Create, Read, Update, Cancel or unknown request between a Delete and a Confirm disarms it: the Confirm removes nothing |

## Left out

- Process setup in `main`: opening the database, `CREATE TABLE`, the API-key check, the model list, the home page, template loading and server start. These are I/O and wiring.
- `UserQuery.Parse` and `SystemPrompt` in `pkg/cmd/prompt.go`: a network call plus JSON decoding. Their result is an input to the handler. A panic inside `Parse` on a reply with no choices is not modelled.
- `pkg/templ/templates.go` and the rendering of the `Response` through `html/template`: the model stops at the response value handed to `Render`.
- Database faults the schema cannot cause: a failing `SELECT *` ("Something went wrong..."), `Scan` errors skipped in the read-all loop, and the `UPDATE`/`DELETE` failure replies ("Failed to update contact", "Can't delete, not found!"). With the `contacts` schema and string arguments these statements do not fail, so those replies are unreachable in the model. `INSERT` fails only through the `UNIQUE` constraint.
- Logging calls (`e.Logger`): no effect on state or reply.
- Concurrency between handlers that share `lastCommand`: requests are modelled as strictly sequential.
- Response status codes and error returns of `Render`/`NoContent`: every answer is status 200, and render errors are not modelled.
- Go strings are byte sequences. The model uses sequences of Unicode scalar values, so `TrimSpace` on input that is not valid UTF-8 is not modelled.
