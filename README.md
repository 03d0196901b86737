# Books CRUD client — a verified model

This project models the browser script `src/main.js` of a small books client.
The script sends five REST requests to a books collection (list, create,
partial update, full replace, delete). It renders books as `<li>` fragments.
Its form and click handlers patch a `<ul>` list on the page.

The model has six modules:

- `Wrappers` (wrappers.dfy): `Option` and `Result`.
- `Render` (render.dfy): `bookTemplate` and `booksTemplates`. This module also has a
  reader for the exact fragment shape. It is the serialiser's partner: for books with no `"` or `<` in the id
  and no `<` in the other fields, reading a rendered list back gives the books in list order.
- `Api` (api.dfy): `BooksApi`. It covers the collection and item URLs, the `{ id, ...book }`
  split, the request each method sends, and the one response rule all five share.
  That rule is: an ok response gives the parsed body; a response that is not ok fails with
  an `Error` whose message is the status code as decimal text; a request that gets no
  response at all rejects with the transport's own error, and no `Error(res.status)` is built.
- `Forms` (forms.dfy): the `formData.forEach` loops that build a record from a form.
  The create and reset loops keep every entry. The update loop skips empty values.
  The module also has `form.reset()` and the `id` control that a click fills in.
- `DomList` (domlist.dfy): the list as a sequence of books keyed by `data-id`. A lookup
  finds the first match in document order. The module has replace-first and
  remove-first.
- `View` (view.dfy): class `Page`. It holds the list and the four forms, with one method
  per handler, plus `onError` (`ErrorBranch`). Each submit handler is split in two.
  `Submit…` is the synchronous part: serialise, build the request, reset the form.
  The form is reset before any response arrives. `Complete…` is the promise
  callback, run with what the request yielded.

Three facts about `src/main.js` shape the model:
- The create form sends every entry it has, whatever its names.
- `BooksApi` has five operations: list, create, partial update, full replace and delete.
- The list item shows Author before Title.

A lookup for a node that is not there makes the callback throw on `null` before
it changes the list. The model records this as the outcome `MissingNode`. It is
not a precondition.

## Model

| member | source | states |
|---|---|---|
| Render.BookTemplate | src/main.js:192-201 | the item opens with `ItemOpen` (a newline, seven spaces and `<li data-id="`) followed by the id and its closing quote, and ends with `ItemClose` (the last field's `</p>`, then `</li>`, a newline and two spaces) |
| Render.BookTemplateShape | src/main.js:192-201 | the item is the fixed pieces (`<li data-id="`, then the `ID:`, `Author:`, `Title:`, `Description:` labels) with id, id, author, title, description inserted verbatim in that order, without escaping |
| Render.ParseBookTemplate | src/main.js:192-201 | reading an item back gives the book and whatever text follows it, for any book with no `"` or `<` in its id and no `<` in its other fields |
| Render.BooksTemplates | src/main.js:203-205 | an empty list renders as the empty string, and a non-empty list's rendering begins with the item of its last book |
| Render.BooksTemplatesIsReversedList | src/main.js:203-205 | the rendered list is the item markup of the reversed list, concatenated in order |
| Render.BooksTemplatesSnoc | src/main.js:203-205 | the last book fetched is rendered first, ahead of the rendering of the books before it |
| Render.ParseBooksTemplates | src/main.js:203-205 | reading back the rendered list of plain books gives the fetched books in reverse order |
| Api.CollectionUrl | src/main.js:8 | the collection URL is the base URL followed by `/books` |
| Api.CollectionUrlHasNoTarget | src/main.js:8 | the collection URL `BASE_URL + END_POINT` addresses no single item |
| Api.ItemUrl | src/main.js:38 | the item URL is the collection URL, then `/`, then the id, and the id can be read back from it |
| Api.ItemUrlInjective | src/main.js:76 | distinct ids give distinct item URLs |
| Api.IdText | src/main.js:57 | the id a request uses is the record's `id`, or the text `undefined` when the record has none |
| Api.WithoutId | src/main.js:56 | the `...book` rest has no `id` and has every other key of the record, with the same values |
| Api.SplitRoundTrip | src/main.js:37 | putting the id back into the rest gives the original record |
| Api.GetBooksRequest | src/main.js:7-10 | `getBooks` is a GET of the collection URL without a body |
| Api.CreateBookRequest | src/main.js:18-29 | `createBook` is a POST to the collection URL with the JSON content type, whose body is the whole record |
| Api.UpdateBookRequest | src/main.js:37-48 | `updateBook` is a PATCH to the id's URL with the JSON content type, whose body is the record minus `id` |
| Api.ResetBookRequest | src/main.js:56-67 | `resetBook` is a PUT to the id's URL with the JSON content type, whose body is the record minus `id` |
| Api.DeleteBookRequest | src/main.js:75-82 | `deleteBook` is a DELETE to the id's URL with no body and no headers |
| Api.ItemRequestsCarryRecord | src/main.js:37-65 | for a record with an id, the PATCH and PUT requests carry exactly that record: its id in the URL and everything else in the body |
| Api.Settle | src/main.js:10-16 | the response rule that all five methods share (it repeats at lines 29-35, 48-54, 67-73 and 82-88): success exactly when a response arrived with `ok`, and then the value is the parsed body; a non-ok response fails with the status as decimal text; a transport failure passes through |
| Api.DecimalString | src/main.js:14 | the message of `new Error(res.status)` is the status as decimal digits, with no leading zero |
| Api.DecimalStringValue | src/main.js:14 | the message spells out the status code: read as a decimal numeral, its digits denote exactly the status |
| Api.DecimalStringInjective | src/main.js:14 | different status codes give different error messages |
| Api.FailedStatusRecoverable | src/main.js:29-35 | a non-ok response never succeeds, and its error message equals the text of code n exactly when its status is n |
| Forms.FormData | src/main.js:137 | `new FormData(form)` has one (name, value) entry per control, in order |
| Forms.Collect | src/main.js:138-140 | writing the entries into an empty object leaves at most as many keys as there were entries |
| Forms.Serialize | src/main.js:135-140 | the create loop builds exactly the record of writing the form's entries in order into an empty object |
| Forms.CollectKeys | src/main.js:150-155 | a key is in the serialised record exactly when some form entry has that key |
| Forms.CollectLastWins | src/main.js:152-155 | a key maps to the value of the last entry with that key, so a later entry overwrites an earlier one |
| Forms.CollectNonEmpty | src/main.js:168-171 | writing only the entries with a non-empty value leaves no empty value in the record |
| Forms.SerializeNonEmpty | src/main.js:165-171 | the update loop builds exactly the record of writing, in order, only the entries with a non-empty value |
| Forms.UpdateRecordKeys | src/main.js:165-171 | a key is in the update record exactly when some entry with that key has a non-empty value |
| Forms.UpdateRecordLastWins | src/main.js:168-170 | a key of the update record maps to the value of the last entry with that key whose value is not empty; a later empty entry does not overwrite it |
| Forms.ResetForm | src/main.js:146 | `form.reset()` gives every control its default value back and changes nothing else |
| Forms.IdValue | src/main.js:183 | `elements.id.value` exists exactly when the form has a control named `id` |
| Forms.SetId | src/main.js:113 | setting the id control changes only the controls named `id`: their value becomes the id, and so does the default value of a hidden one |
| Forms.IdAfterSetIdAndReset | src/main.js:113-115 | after a click and a `reset()`, a hidden id control still holds the clicked id, and any other id control holds its default value |
| Forms.IdValueAfterSetId | src/main.js:113-115 | after the id control is set, the form reports that id |
| Forms.SubmittedIdAfterSetId | src/main.js:152-155 | once the id control is set, the record serialised from the form has that id |
| Forms.UpdateIdAfterSetId | src/main.js:167-171 | the update record has the id that was set if it is not empty; an empty id is skipped, and the request then uses `undefined` |
| DomList.FirstIndex | src/main.js:157 | the lookup finds the position of the first item with the id, or reports that none has it |
| DomList.FirstIndexFound | src/main.js:173 | a lookup fails exactly when no item has the id |
| DomList.FindNode | src/main.js:186 | the search loop returns the first position whose item has the id, or the list length |
| DomList.ReplaceFirst | src/main.js:157-160 | replacing keeps the length, puts the new item at the first matching position, and leaves every other item in place |
| DomList.ReplaceFirstKeepsPosition | src/main.js:173-176 | a replacement that carries the same id is found at the same position again |
| DomList.RemoveFirst | src/main.js:186-187 | removing drops the first matching item, and the other items keep their order |
| DomList.RemoveFirstTakesOne | src/main.js:187 | removal takes out exactly one item, and that item has the id |
| DomList.CreateThenDeleteRestores | src/main.js:144 | prepending a created book and then deleting its id gives back the original list |
| View.ErrorBranch | src/main.js:214-225 | `onError` takes the 404 branch exactly for message "404", the 401 branch exactly for "401", and the default branch otherwise |
| View.ErrorBranchOfStatus | src/main.js:212-225 | for a non-ok response the branch depends on the status alone: 404 and 401 have their own branches, and every other code takes "Unknown error" |
| View.Page.constructor | src/main.js:92-98 | the page starts with an empty list, the given forms, and one `id` control in each of the reset, update and delete forms |
| View.Page.RenderBooks | src/main.js:207-210 | the list becomes the fetched books reversed, and its markup equals `booksTemplates(books)` |
| View.Page.Load | src/main.js:212 | on success the list is rendered; on failure the list is unchanged and the branch of `onError` for the error is taken |
| View.Page.Click | src/main.js:106-116 | a click on the list itself changes nothing; a click inside the item at a position of the list sets the id control of the reset, update and delete forms to that item's id, and nothing else changes |
| View.Page.SubmitCreate | src/main.js:120-147 | the POST body is the create form's serialised record, then only the create form is reset |
| View.Page.CompleteCreate | src/main.js:142-145 | on success the created book's item is put first and the rest stay as they were; on failure the list is unchanged |
| View.Page.SubmitReset | src/main.js:148-163 | a PUT of the reset form's full record, looked up later by its id (or `undefined`), then the reset form is reset |
| View.Page.SubmitUpdate | src/main.js:164-179 | a PATCH of the update form's non-empty entries, looked up later by their id (or `undefined`), then the update form is reset |
| View.Page.CompleteReplace | src/main.js:156-161 | inserting after the old node and removing it equals replacing the first item with the id in place; an error or a missing node leaves the list unchanged |
| View.Page.SubmitDelete | src/main.js:180-190 | a DELETE for the id control's value, then the delete form is reset |
| View.Page.CompleteDelete | src/main.js:185-188 | on success the first item with the id is removed; an error or a missing node leaves the list unchanged |
| View.ClickedIdReachesRequests | src/main.js:110-115 | after a click on an item, the reset and delete requests address that item's URL; the update request does too unless the id is empty |

## Left out

- `fetch`, `res.json()` and `JSON.stringify` are not modelled. A request is a value, and a reply carries the already parsed body. A body that fails to parse as JSON is not modelled.
- Promise asynchrony is not modelled, and neither is the order in which overlapping requests complete. Each handler is split into its synchronous part and its callback. Any interleaving of callbacks is a sequence of `Complete…` calls.
- Browser internals are abstracted: `querySelector`, `closest`, `insertAdjacentHTML`, `innerHTML` and HTML parsing. The list is a sequence of books in document order. `RenderBooks` takes the parsed children of the rendered markup to be the books in that order. `Render.ParseBooksTemplates` shows this holds for the fragment reader, on books without `"` or `<`.
- The unquoted `[data-id=...]` selector is not modelled. A browser rejects it for ids that start with a digit. The model treats the lookup as a plain comparison of ids.
- `preventDefault` and native form submission are not modelled. This includes the update handler's missing `preventDefault`, which is a navigation concern of the host page.
- `console.log` output is not modelled. The hard-coded local base URL is not modelled either: `BooksApi.baseUrl` is a parameter.
- Forms.FormData: every control is assumed to have a non-empty name other than `__proto__`. A browser's FormData skips a control with an empty name, while the model emits a `("", value)` entry that `Collect` keeps as a key. Writing `book['__proto__'] = value` calls the `Object.prototype` setter, which ignores a string, so the sent object has no such key, while `Collect` keeps it.
- FormData is taken as the form's named controls with string values, in document order. File values, unchecked boxes, disabled controls and submit buttons are not modelled.
- The host page's HTML is not part of this model. Whether an id control is an `<input type="hidden">` is therefore an input (`Control.hidden`). A hidden control keeps a clicked id through `reset()`; any other control returns to its default value.
- Book fields are strings. A server that sends a numeric id would have it printed as digits; that conversion is not modelled.
- `Click` and `SubmitDelete` require exactly one `id` control per form (`Page.Valid`). With none, those two handlers throw; with several, `elements.id` is a RadioNodeList. Neither case is modelled. `SubmitReset` and `SubmitUpdate` read the id through FormData and need no such control.
- Only the `Content-Type` header is modelled.
- Errors thrown in the callbacks and rejected requests are not handled by the source, except on the initial load. The model returns them as a `Completion` and does not model platform diagnostics.
