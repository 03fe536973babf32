# 3Space admin dashboard: verified model of its core

This project models, in Dafny, the logic of a small admin dashboard for products, blog posts and career postings.

- **Product store** (`ProductStore`). This is the in-memory store of the mock API server. Its `/api/products` handlers become pure transitions from `(store, request)` to `(store, response)`. The store is a `seq<Product>` in insertion order. Lookup by id has two phases. An exact `_id` match comes first. If that fails and the id is 24 hexadecimal characters (a MongoDB ObjectId), the lookup retries on the id's last character alone. This deliberate collision is modelled and proved: every such id ending in `1` reaches the sample product `"1"`.
- **Product editor** (`ProductForm`). The admin form validates its fields and builds the PUT or POST request. It loads a product for editing, resets itself, and phrases a failed save for the user.
- **Career postings** (`CareerManagement`). The dialog keeps two bullet lists, and a rule decides when the submit button is enabled. The page's career list follows each save, delete or active-status toggle.
- **Reading time** (`ReadingTime`). This is the estimate shown with a blog post: space-separated fields at 200 words a minute, rounded up.

Supporting modules:

- `Strings` models the JavaScript string operations the code relies on: `trim` with ECMAScript's exact whitespace set, `split` on one character, `join`, `includes`, a global one-character `replace`, and decimal rendering. `trim`, `split`/`join` and the decimal rendering come with round-trip lemmas; `includes` and `replace` are specified by their contracts alone.
- `Sequences` models `Array.prototype.splice(i, 1)`, including negative and out-of-range starts.
- `Wrappers` holds `Option` and `Result`.

Clock reads are parameters. `Create` takes `clock`, the `Date.now()` reading whose decimal text becomes the id, and `now`, the `new Date()` stamp. `Update` takes `now`. The name of an uploaded file is an optional parameter. Numbers are kept symbolic. `Number(x)` is recorded as `NumberOf(x)` and `parseFloat(t)` as `ParseFloatOf(t)`. Whether `parseFloat` yields `NaN` is modelled exactly, because the form's validation branches on it.

Points where the handlers behave other than a reader might expect:

- An update overwrites `name`, `description`, `price`, `oldPrice`, `isNew` and `tags` even when the request leaves them out. Missing tags become `[]`, a missing `isNew` becomes `false` and a missing `oldPrice` becomes null. It does not merge only the supplied fields.
- For string-valued fields, the only failure the update handler's `try` can catch is `tags.split` applied to a truthy non-string, such as a number or an object from a JSON body. That failure gives 400 with the `TypeError` message.
- The create handler has no `try`. There the same failure, and also an array of tags, ends in Express's default 500, and the store is unchanged.
- Create stores the uploaded file name as is. Only update replaces backslashes with `/`.
- The career page's save of an edit maps the career list and the edited career that its closure captured when the user submitted. A delete or a cancel that completes while the request is in flight is therefore overwritten by the stale list. A new career, by contrast, is prepended to the latest list. `AfterSave` takes both pages, and `EditSaveRestoresConcurrentDelete` shows the lost delete.

## Model

| member | source | states |
|---|---|---|
| `ProductStore.Find` | mock-server.js:33 | `find` returns none exactly when no record has the key, otherwise the first record that has it |
| `ProductStore.FindIndex` | mock-server.js:47 | `findIndex` returns -1 exactly when no record has the key, otherwise the first position holding it |
| `ProductStore.FindProductById` | mock-server.js:31-42 | returns none exactly when neither the id nor, for a 24-hex id, its last character is a stored id; otherwise the first record carrying the key the two phases resolve to |
| `ProductStore.FindProductIndexById` | mock-server.js:45-56 | -1 exactly when the two-phase key is unresolved; otherwise the first in-bounds position holding the resolved key |
| `ProductStore.IndexLookupAgrees` | mock-server.js:31-56 | the index lookup is -1 exactly when the record lookup is none, and otherwise points at that same record |
| `ProductStore.ExactMatchWins` | mock-server.js:32-33 | an id some record carries resolves to the first such record whatever its shape; the fallback is never consulted |
| `ProductStore.FallbackMatch` | mock-server.js:35-39 | an unmatched 24-hex id resolves to the first record whose id is the id's last character |
| `ProductStore.SampleCollision` | mock-server.js:15-39 | with the initial store, the foreign id `507f1f77bcf86cd799439011` resolves to the sample product `"1"` |
| `ProductStore.LookupDependsOnIdsOnly` | mock-server.js:44-56 | two stores with the same ids position by position resolve every id to the same position |
| `ProductStore.Get` | mock-server.js:88-92 | 404 `Product not found` when the id is unresolved; otherwise 200 with `{success, data}` holding the resolved record |
| `ProductStore.SplitTags` | mock-server.js:104 | comma-split tags: one more piece than there are commas, each piece trimmed and comma-free |
| `ProductStore.SplitTagsFields` | mock-server.js:104 | the stored tags are the text's comma-separated fields, each trimmed, in order, empty ones kept (every text is such a join, by `Strings.JoinSplit`) |
| `ProductStore.SplitTagsRoundTrip` | mock-server.js:104 | tags joined by `,` or `, ` split back to themselves when each is trimmed and comma-free (`"a, b, c"` gives `["a","b","c"]`) |
| `ProductStore.CreateTags` | mock-server.js:104 | missing or empty tags give `[]`; a non-empty string gives its comma split; an array or other truthy value makes `tags.split` throw |
| `ProductStore.UpdateTags` | mock-server.js:129 | like create, except that an array of tags is kept as it is; only another truthy non-string throws |
| `ProductStore.Create` | mock-server.js:95-111 | appends exactly one record and keeps the old ones in order; 201 with the bare record; id is the clock's decimal text; `isNew` iff the input is exactly `"true"`; `oldPrice` null iff falsy; no `updatedAt`; a throw from `tags.split` leaves the store unchanged with 500 |
| `ProductStore.Update` | mock-server.js:114-148 | unresolved id: 404, store unchanged; a throw: 400 with its message, store unchanged; otherwise same length, only the resolved position differs, id and `createdAt` kept, every body field overwritten, image kept unless a file came (then `uploads/` plus the name with `\` made `/`), `updatedAt` set |
| `ProductStore.Delete` | mock-server.js:151-167 | unresolved id: 404, store unchanged; otherwise exactly the resolved position is spliced out, the rest keep their order, 200 `Product deleted` |
| `ProductStore.DeleteRemovesOne` | mock-server.js:162 | a delete shortens the store by one and removes exactly that one record from its multiset |
| `ProductStore.InitialStoreUnique` | mock-server.js:15-28 | the starting store has unique ids |
| `ProductStore.CreatePreservesUniqueIds` | mock-server.js:97-109 | a create keeps ids unique provided the clock-derived id is not already stored |
| `ProductStore.TwoCreatesPreserveUniqueIds` | mock-server.js:97-98 | two creates at different `Date.now()` readings store different ids, so ids stay unique when neither reading's id was taken |
| `Strings.DecimalRoundTrip` | mock-server.js:98 | the decimal text of a number (`toString()`) reads back as that number |
| `Strings.DecimalInjective` | mock-server.js:98 | two numbers have the same decimal text iff they are equal |
| `ProductStore.UpdatePreservesUniqueIds` | mock-server.js:137-143 | an update keeps ids unique, whatever the request |
| `ProductStore.DeletePreservesUniqueIds` | mock-server.js:162 | a delete keeps ids unique |
| `ProductStore.CreateThenGet` | mock-server.js:88-111 | a created record is read back by its id |
| `ProductStore.UpdateThenGet` | mock-server.js:114-144 | reading the updated id afterwards returns exactly the record the update answered with |
| `ProductStore.DeleteThenGet` | mock-server.js:31-56 | with unique ids, the key a delete resolved is gone; reading the same id again is 404 when the delete went through the ObjectId fallback, and after an exact match unless the fallback now lands on another record |
| `ProductStore.WidgetScenario` | mock-server.js:88-167 | create a widget (201, price from `"100"`, tags `[]`, not new), read it, delete it (`Product deleted`), read again (404); the store ends as it began, for every store in which the clock's id is fresh |
| `Sequences.RemoveAt` | src/components/CareerManagement.js:118-119 | `splice(start, 1)` removes the element at the clamped, end-relative start and shifts the rest down; out of range removes nothing |
| `Sequences.RemoveAtInRange` | mock-server.js:162 | an in-range `splice(i, 1)` yields the elements before `i` followed by those after it |
| `Strings.SplitTrimFields` | mock-server.js:104 | splitting the join of separator-free fields and trimming gives each field trimmed, in order |
| `Sequences.RemoveAtMultiset` | mock-server.js:162 | an in-range splice removes exactly that one element from the multiset |
| `ProductForm.DropEmpty` | src/components/ProductsManagement.js:163 | `filter(tag => tag)` keeps the non-empty strings: the same multiset without `""`, unchanged when none is empty |
| `ProductForm.DropEmptyKeepsOrder` | src/components/ProductsManagement.js:163 | the kept strings are a subsequence of the input, so with the multiset clause exactly the non-empty ones in their order |
| `ProductForm.ParseTagInput` | src/components/ProductsManagement.js:160-165 | parsed tags are non-empty, trimmed and comma-free, at most one per comma-separated field |
| `ProductForm.ParseTagFields` | src/components/ProductsManagement.js:163 | the parsed tags are the comma-separated fields, trimmed, with the empty ones dropped, in order |
| `ProductForm.Submit` | src/components/ProductsManagement.js:133-180 | rejected with no request exactly when name, description or price is empty; then on an unparsable price; then on a new image over 5 MiB. Otherwise name and description are sent trimmed, `isNew` as exactly `'true'`/`'false'`, tags only when the field is non-empty, an image only when newly picked, and the request is PUT to `API_URL/id` iff `editingId` is truthy (set and not `''`), else POST to `API_URL` |
| `ProductForm.HandleEdit` | src/components/ProductsManagement.js:309-322 | editing targets the product's id; name, description and price are loaded as they are; the old price is `''` exactly when it is absent or 0, else its text; `isNew` iff it was `true`; tags are `join(', ')` of the list, `''` when absent; no new file, and the existing image path (with its preview URL) exactly when the product has one |
| `ProductForm.ResetForm` | src/components/ProductsManagement.js:341-353 | every field empty, not new, no image, not editing |
| `ProductForm.ResetFormIsRejected` | src/components/ProductsManagement.js:133-136 | submitting a reset form is refused with the required-fields message |
| `ProductForm.TagsRoundTrip` | src/components/ProductsManagement.js:160-165 | tags rendered with `join(', ')` parse back to the same list when each is non-empty, trimmed and comma-free |
| `ProductForm.EditThenSubmit` | src/components/ProductsManagement.js:309-320 | saving an edited product with a name, a description and a numeric price is accepted and sends its tags unchanged (no tags field when it had none or an empty list), as a PUT to its own URL (a POST to `API_URL` when the id is `''`), without re-uploading its image |
| `ProductForm.BlankNameIsSentEmpty` | src/components/ProductsManagement.js:133-140 | the required check runs before trimming, so a name of spaces alone passes and, with the other fields valid, is sent empty |
| `ProductForm.UserErrorMessage` | src/components/ProductsManagement.js:293-303 | always starts `Error saving product. `; then connection text if the message contains `Failed to fetch`, else server text if it contains `500`, else the message itself (the console hint if empty) |
| `ProductForm.ErrorMessageClassifies` | src/components/ProductsManagement.js:294-301 | any message with `Failed to fetch` anywhere maps to the connection text; any other with `500` anywhere maps to the server text |
| `CareerManagement.AddItem` | src/components/CareerManagement.js:106-114 | with a non-whitespace character pending, `trim()` of it (non-empty) is appended at the end and the input cleared; otherwise nothing changes |
| `CareerManagement.AddResponsibility` | src/components/CareerManagement.js:106-114 | appends the trimmed pending responsibility only when it is not blank, then clears it; every other field of the dialog is unchanged |
| `CareerManagement.RemoveResponsibility` | src/components/CareerManagement.js:117-124 | removes exactly the responsibility at the index; the others keep their order; every other field of the dialog is unchanged |
| `CareerManagement.AddRequirement` | src/components/CareerManagement.js:127-135 | the same contract on requirements; every other field of the dialog is unchanged |
| `CareerManagement.RemoveRequirement` | src/components/CareerManagement.js:138-145 | the same contract on requirements; every other field of the dialog is unchanged |
| `CareerManagement.AddThenRemoveResponsibility` | src/components/CareerManagement.js:106-124 | removing the responsibility just added gives back the original form |
| `CareerManagement.AddThenRemoveRequirement` | src/components/CareerManagement.js:127-145 | removing the requirement just added gives back the original form |
| `CareerManagement.CloseDialog` | src/components/CareerManagement.js:271-285 | the dialog closes; every text field is `''`, both lists are empty, and the edited career and both pending inputs are cleared |
| `CareerManagement.OpenForEdit` | src/components/CareerManagement.js:233-245 | the dialog opens on the career, its form holding that career's five texts and two lists, and the pending inputs kept |
| `CareerManagement.SubmitRule` | src/components/CareerManagement.js:560-568 | a closed dialog cannot be submitted; adding items never disables a submittable form; a form loaded from a career is submittable iff all five texts and both lists of that career are non-empty |
| `CareerManagement.FilledFormEnablesSubmit` | src/components/CareerManagement.js:560-568 | filled text fields plus one non-blank responsibility and requirement enable submission |
| `CareerManagement.ReplaceById` | src/components/CareerManagement.js:183 | same length; entries with the id become the replacement, all others are unchanged |
| `CareerManagement.ReplaceByIdChangesOne` | src/components/CareerManagement.js:261 | with unique ids, replacing by id changes exactly the one position carrying it, or nothing |
| `CareerManagement.RemoveById` | src/components/CareerManagement.js:219 | no entry with the id remains, the list never grows, and nothing is removed when the id is absent |
| `CareerManagement.RemoveByIdMembers` | src/components/CareerManagement.js:219 | a career survives the filter iff it was in the list and has another id |
| `CareerManagement.RemoveByIdCounts` | src/components/CareerManagement.js:219 | every copy of a career with another id is kept and every copy of one with the id dropped: duplicates are neither merged nor lost |
| `CareerManagement.RemoveByIdKeepsOrder` | src/components/CareerManagement.js:219 | the survivors are a subsequence of the original list, in their original order |
| `CareerManagement.RemoveOnlyHolder` | src/components/CareerManagement.js:219 | when only position `i` carries the id, the filter cuts out exactly that position |
| `CareerManagement.RemoveByIdRemovesOne` | src/components/CareerManagement.js:218-220 | with unique ids, deleting a present id removes exactly its one position |
| `CareerManagement.AfterSave` | src/components/CareerManagement.js:161-190 | failure leaves the current page as it is; a new career is prepended to the current list; an edit maps the list captured at submit time, replacing the entries with the captured career's id; the dialog closes |
| `CareerManagement.AfterDelete` | src/components/CareerManagement.js:209-220 | failure leaves the list as it is; success filters out the id |
| `CareerManagement.AfterToggle` | src/components/CareerManagement.js:254-262 | failure leaves the list as it is; success replaces the entry with the id |
| `CareerManagement.SaveEditKeepsOthers` | src/components/CareerManagement.js:182-184 | saving an edit keeps the captured list's length and every entry with another id |
| `CareerManagement.SaveNewThenDelete` | src/components/CareerManagement.js:186-220 | deleting a newly saved career whose id was not yet listed gives back the list the save was applied to |
| `CareerManagement.EditSaveRestoresConcurrentDelete` | src/components/CareerManagement.js:182-183 | with `[A, B]` captured while editing A, a delete of B and a cancel that land before the edit's answer are undone: the list becomes `[A', B]` |
| `CareerManagement.DeleteKeepsOthers` | src/components/CareerManagement.js:218-220 | after a delete, exactly the careers with other ids remain, each as often as before, in their order |
| `ReadingTime.WordCount` | src/components/BlogComponents.js:57 | the number of `' '`-separated fields, one more than the number of spaces, so at least 1 |
| `ReadingTime.Minutes` | src/components/BlogComponents.js:58 | the ceiling of words/200: the fewest minutes whose 200-word blocks cover the words |
| `ReadingTime.ReadingTime` | src/components/BlogComponents.js:56-60 | the text is decimal digits without a leading zero followed by ` min read`, and the digits read back as the minute count |
| `ReadingTime.AtLeastOneMinute` | src/components/BlogComponents.js:57-58 | every content string, the empty one included, reads for at least one minute |
| `ReadingTime.MinutesMonotone` | src/components/BlogComponents.js:58 | more words never give fewer minutes |
| `ReadingTime.MinuteBoundary` | src/components/BlogComponents.js:58 | 200 words give 1 minute and 201 give 2 |
| `ReadingTime.LongerContentReadsLonger` | src/components/BlogComponents.js:56-58 | appending text never lowers the estimate |

Definitions the contracts above are stated in terms of, each written from its own lines:

- `CareerManagement.SubmitDisabled`: the submit button's `disabled` expression, src/components/CareerManagement.js:560-568.
- `ProductForm.ParsesAsNumber`: `!isNaN(parseFloat(...))` for price and old price, src/components/ProductsManagement.js:143-144 and 151-152.
- `ProductForm.IsEditing`: the truthiness test on `editingId`, src/components/ProductsManagement.js:179-180.
- `ProductStore.LooksLikeObjectId`: the `/^[0-9a-fA-F]{24}$/` test, mock-server.js:36 and 50.
- `ProductStore.InitialStore`: the sample product, mock-server.js:15-28.
- `ProductStore.OldPriceOf`: `oldPrice ? Number(oldPrice) : null`, mock-server.js:102 and 127.

The reading-time helper also appears at src/components/BlogComponents.js:208-212, src/BlogDetail.js:72-76, src/Blog.js:27-31 and src/Blog.js:68-72. All four copies compute the same thing, so it is modelled once.

## Left out

- Express, multer and filesystem plumbing are not modelled. That covers CORS, JSON and multipart parsing, the upload directory, the on-disk file name `Date.now() + extension`, static serving and `app.listen` (mock-server.js:58-75,169-178). The stored file name is an input.
- The list route, `GET /api/products`, returns the store unchanged, and it is declared twice (mock-server.js:78-85). It adds nothing to model.
- Number coercion is not modelled. `Number(...)`, `parseFloat` and the `'price'` value appended as a number stay symbolic. Only whether `parseFloat` is `NaN` is decided.
- `ProductStore.Create`: the id's freshness is not checked by the server. Uniqueness is proved only under the hypothesis that the clock-derived id is not already stored. Two creates in the same millisecond would collide.
- `ProductStore.Update` and `ProductStore.Create`: a JSON body may carry non-string values for fields other than `tags`. For example, `isNew: true` is stored as `false`, and an object whose `toString` is not callable makes `Number(price)` throw (400 in update, Express's 500 in create). This is not modelled. Those fields are optional strings here.
- Numbers at or above 10^21 are printed by JavaScript in exponent notation. `NatToDecimal` always prints plain digits, which matters only for impossibly large clocks or word counts.
- `ReadingTime.Minutes`: `Math.ceil(words / 200)` is computed in floating point. The model uses exact integer ceiling division. The two agree for every word count below 2^53.
- `ProductForm.HandleEdit`: `price` and `oldPrice` come from the product as numbers. Here they appear as their text. A falsy old price of `0` is mapped to `''` as `product.oldPrice || ''` does. A stored price of `0` is kept as `"0"`, although the number 0 is falsy in the source and would fail the required check; the model does not reproduce that.
- The client's `Array.isArray(formData.tags)` branch (src/components/ProductsManagement.js:161-162) is not modelled, because the form only ever holds tags as a string.
- The client sends the parsed tags as `JSON.stringify(tags)`. The model keeps the list itself. The client also talks to a different backend, so client requests are not chained into the mock server's handlers.
- Everything after `fetch` in `handleSubmit` is not modelled: response parsing, status handling and the messages it throws (src/components/ProductsManagement.js:208-283). `UserErrorMessage` takes the final message as its input. `handleDelete`, `fetchProducts` and `handleInputChange` are UI glue and are also not modelled.
- Careers are not modelled beyond the list effects. That excludes the fetch calls, the snackbar, the loading and error views, and `handleChange`. Fetch outcomes enter as `Answer` values.
- All React/MUI rendering, `date-fns` formatting and `Intl.NumberFormat` are not modelled.
- `src/AdminPanel.js` (hard-coded login and drawer), `src/Inquiries.js`, `src/BlogManagement.js`, `src/components/BlogManagementPage.js`, `src/setupProxy.js` and `src/config.js` are not part of this model. They are fetch wrappers, UI glue or configuration.
