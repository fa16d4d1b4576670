# Pizza order client: a verified model of its ordering logic

This project models the logic under the restaurant ordering client: the
order form that builds a pending list of line items and submits it, the
order-history view that loads and deletes server orders, and the stored-token
check that every authenticated request goes through.

- `token_store.dfy` (module `TokenStore`, from `src/utils.ts`): `getToken` as a
  pure decision. The outcome of `JSON.parse` on the stored text, the outcome of
  `jwt_decode` and the millisecond clock are inputs. The current second is
  computed as the source computes it, by printing the millisecond count in
  decimal, dropping the last three characters and reading the rest back
  (the empty text reads as 0). It is proved equal to `ms / 1000` for every
  non-negative count.
- `order.dfy` (module `Order`, from `src/components/Order.tsx`): the form as a
  class `OrderForm` whose fields are the component's state cells. Each field
  handler applies its clamp and then recomputes the validity flag, as the
  effect after every render does. `AddToOrder`, `HandleDeleteClick` and
  `SubmitOrder` are methods. `SubmitOrder` runs the source's nested loops
  (`PostOrderItems` and `PostPizzas`) and is proved against the specification
  function `Submission`, whose own contract states which requests go out, in
  which order, and when the submission counts as a success.
- `order_history.dfy` (module `History`, from `src/components/OrderHistory.tsx`):
  the history view as a class `OrderHistoryView` holding `orders`.
- `remote.dfy` (module `Remote`): the remote service as a log of issued
  requests (create, list, delete, each with its Authorization header or none)
  and whether each succeeded. Success is an input of `Send`; nothing in the log
  is ever undone.
- `lists.dfy` (module `Lists`): the `filter` both delete handlers use, with
  what it keeps and that it keeps the order.
- `wrappers.dfy`: `Option` and `Result`.

Edge cases of the code that the model keeps as written:

- `getToken` rejects only `exp < now`, so a token whose `exp` equals the current second is accepted.
- A token whose payload has no `exp` is accepted, because `undefined < now` is false.
- A failed history load leaves the list as it was; it is empty only before the first successful load.
- A missing storage key reaches `JSON.parse` as the empty text, which throws before the falsy check, so the model reports the parser's error there; the "could not be found" message appears only for a stored falsy value.

## Model

| member | source | states |
|---|---|---|
| `TokenStore.GetToken` | src/utils.ts:3-18 | a parse failure, a falsy token or a decode failure is an error and never a token. The result is `Expired` exactly when `exp < ms / 1000`. A token comes back exactly when `exp >= ms / 1000` (equality included) or there is no `exp`, and it is then the stored token unchanged. A parse failure gives `ParseFailed` and a decode failure of a non-empty token gives `DecodeFailed`, each with the library's message |
| `TokenStore.NowSeconds` | src/utils.ts:10 | the truncated printed clock equals `ms / 1000` |
| `TokenStore.NowSecondsIsDivision` | src/utils.ts:10 | dropping the last three decimal digits and reading back gives `ms / 1000`, including 0 for `ms < 1000` |
| `TokenStore.DecimalRoundTrip` | src/utils.ts:10 | reading back the decimal text of `n` gives `n` |
| `TokenStore.DecimalString` | src/utils.ts:10 | `toString` of a non-negative number is a non-empty string of decimal digits |
| `TokenStore.ShortDecimal` | src/utils.ts:10 | numbers below 1000 print in at most three digits, so the slice is empty |
| `TokenStore.DropThreeDigits` | src/utils.ts:10 | for `n >= 1000` the slice is the decimal text of `n / 1000` |
| `TokenStore.DropLast` | src/utils.ts:10 | `slice(0, -k)` is a prefix of the text, k characters shorter than the text when 0 < k and the text is longer than k, and empty otherwise (also for k = 0, where the end index `-0` is 0) |
| `TokenStore.ParseDecimal` | src/utils.ts:10 | unary `+` on a digit string, the empty string giving 0; `DecimalRoundTrip` proves it inverts `DecimalString` |
| `TokenStore.Message` | src/utils.ts:5-15 | the message of each thrown error: the source's fixed texts for a missing and an expired token, the library's own message for a parse or decode failure |
| `Remote.Bearer` | src/components/Order.tsx:85-89 | the header starts with `Bearer ` and the rest is exactly the token |
| `Remote.Service.Send` | src/components/Order.tsx:99-103 | a request is appended to the log with its outcome and reported as that outcome |
| `Lists.Filter` | src/components/Order.tsx:64 | a filter never lengthens the list |
| `Lists.FilterMembership` | src/components/OrderHistory.tsx:43 | an element survives exactly when it was present and is kept |
| `Lists.FilterAppend` | src/components/Order.tsx:64 | filtering distributes over concatenation, so survivors keep their order |
| `Lists.FilterKeepsAll` | src/components/Order.tsx:63-65 | when nothing matches the removed id, the filter changes nothing |
| `Order.IsComplete` | src/components/Order.tsx:118-123 | the draft can be added: flavor, crust and size non-empty, table > 0, quantity > 0; `Order.CompleteIffNoRequiredHint` ties it to the hints |
| `Order.ShowsRequired` | src/components/Order.tsx:187-249 | a field's "Required" hint shows iff an add was attempted and the field is empty (0 for table and quantity) |
| `Order.SubmitEnabled` | src/components/Order.tsx:285 | the submit button is enabled iff the pending list is non-empty and no send is in progress; `Order.OrderForm.SubmitOrder` states its value after a submission |
| `Order.PostBody` | src/components/Order.tsx:92-97 | the posted body carries the item's crust, flavor, size and table, and not its quantity or UUID |
| `Order.Expand` | src/components/Order.tsx:90-105 | the bodies of the nested loops, item by item, each repeated `quantity` times; `Order.ExpandLength`, `Order.ExpandAppend` and `Order.ExpandUnitItems` state its length and order |
| `Order.CompleteIffNoRequiredHint` | src/components/Order.tsx:187-249 | with the clamped fields, after an add attempt, the draft is complete exactly when no field shows "Required" |
| `Order.RemoveItem` | src/components/Order.tsx:63-65 | the result holds exactly the items whose UUID differs from the id; it is the same list when the id is absent |
| `Order.RemoveItemKeepsOrder` | src/components/Order.tsx:64 | removal by UUID keeps the remaining items in their original order |
| `Order.Repeat` | src/components/Order.tsx:91 | the inner loop runs `quantity` times, and not at all for a non-positive quantity |
| `Order.ExpandLength` | src/components/Order.tsx:90-105 | a submission has one request per pizza: the sum of the positive quantities |
| `Order.ExpandAppend` | src/components/Order.tsx:90-105 | requests go out in list order: those of a first part of the list come before those of the rest |
| `Order.ExpandUnitItems` | src/components/Order.tsx:90-105 | for quantity-1 items there is exactly one body per item, in list order, carrying only crust, flavor, size and table |
| `Order.Accepted` | src/components/Order.tsx:99-103 | one log entry per body; what each entry is, is stated by `Order.Submission` |
| `Order.Submission` | src/components/Order.tsx:81-115 | with no token, nothing is sent and the token error is reported. Otherwise request `i` posts the `i`-th expanded body with the bearer header, and every request but the last succeeded. The submission succeeds exactly when there is a token and no request fails, and then every pizza was posted. On a failure at index `k`, `k + 1` requests were issued and the last one failed with the post's error |
| `Order.FormListPostsOncePerItem` | src/components/Order.tsx:90-105 | a list the form built is sent as one accepted request per item, in list order |
| `Order.SecondOfThreeFails` | src/components/Order.tsx:90-115 | quantities [2, 1] with the second request failing leave one pizza of the first item created and nothing of the second |
| `Order.AcceptedAppend` | src/components/Order.tsx:90-105 | the accepted log of two runs of requests is the two logs in sequence |
| `Order.ItemStep` | src/components/Order.tsx:90-91 | the requests of a list split at an item: those before it, its copies, those after it |
| `Order.ItemAccepted` | src/components/Order.tsx:90-105 | after all copies of an item succeed, the log is that of the list up to and including the item |
| `Order.ItemFailed` | src/components/Order.tsx:90-108 | a failure inside an item's copies leaves the accepted prefix of the whole submission followed by the failed request |
| `Order.StopInsideItem` | src/components/Order.tsx:91-103 | stopping after `k` copies of an item is stopping at the position k past the requests before that item |
| `Order.PostPizzas` | src/components/Order.tsx:91-104 | the inner loop posts the item's body `quantity` times, stopping at the failing request |
| `Order.PostOrderItems` | src/components/Order.tsx:90-105 | the outer loop issues the expanded bodies in order. When request `k` fails, the first `k` stay accepted, request `k` is logged as failed and nothing follows |
| `Order.OrderForm.constructor` | src/components/Order.tsx:34-45 | empty flavor, crust and size, table 0, quantity 1, empty pending list, every flag false |
| `Order.OrderForm.ValidateOrder` | src/components/Order.tsx:117-125 | the validity flag is true iff flavor, crust and size are non-empty, table > 0 and quantity > 0 |
| `Order.OrderForm.HandleFlavorChange` | src/components/Order.tsx:47-48 | sets the flavor, recomputes validity and changes nothing else |
| `Order.OrderForm.HandleCrustChange` | src/components/Order.tsx:49-50 | sets the crust, recomputes validity and changes nothing else |
| `Order.OrderForm.HandleSizeChange` | src/components/Order.tsx:51-52 | sets the size, recomputes validity and changes nothing else |
| `Order.OrderForm.HandleTableChange` | src/components/Order.tsx:53-57 | a negative table becomes 0 and any other value is kept; validity is recomputed |
| `Order.OrderForm.HandleQuantityChange` | src/components/Order.tsx:58-62 | the stored quantity is 1 whatever the input; validity is recomputed |
| `Order.OrderForm.HandleDeleteClick` | src/components/Order.tsx:63-65 | the pending list becomes the removal of that UUID from the old one; nothing else changes |
| `Order.OrderForm.AddToOrder` | src/components/Order.tsx:67-79 | sets the add-attempted flag. The list is unchanged for an incomplete draft. For a complete draft exactly one item is appended, copying the draft plus the fresh id, and the draft is kept |
| `Order.OrderForm.SubmitOrder` | src/components/Order.tsx:81-115 | the service log grows by exactly the requests `Submission` issues. On success the list is empty and the success notice is open. On failure the list is unchanged and the error notice is open with the error's message. Sending is off afterwards. Submit is enabled afterwards exactly when the submission failed on a non-empty list |
| `History.RemoveOrder` | src/components/OrderHistory.tsx:43 | the result holds exactly the rows whose `Order_ID` differs from the id; it is the same list when the id is absent |
| `History.RemoveOrderKeepsOrder` | src/components/OrderHistory.tsx:43 | removal by id keeps the remaining rows in their original order |
| `History.OrderHistoryView.constructor` | src/components/OrderHistory.tsx:14 | the orders list starts empty |
| `History.OrderHistoryView.LoadOrderHistory` | src/components/OrderHistory.tsx:20-36 | a token error issues nothing. Otherwise one authorised list request is issued. The rows become the response exactly when the token and the request both succeed, and stay as they were otherwise |
| `History.OrderHistoryView.HandleDeleteClick` | src/components/OrderHistory.tsx:38-47 | issues exactly one delete request for the id, with no Authorization header. On success the rows with that id are removed; on failure the rows are unchanged |

## Left out

- Rendering (JSX, MUI components, data-grid columns) and the snackbar close handlers with their `clickaway` check: presentation only.
- `axios`, `localStorage`, `JSON.parse`, `jwt_decode`, `uuid.v4` and `Date`: outside calls. Their outcomes are inputs: request success flags, the index of the first failing create request, the parse and decode outcomes, the fresh UUID and the millisecond clock.
- `console.log`: it has no effect on state.
- Numeric inputs are integers. `NaN` (which passes both clamps unchanged) and fractional numbers are not modelled.
- Non-string JSON values other than the falsy ones are not modelled. A non-numeric `exp` is not modelled either.
- React state batching, stale closures and asynchronous interleaving. The model is sequential: each handler runs to completion before the next. `isSendingOrder` is true only inside `SubmitOrder`, and concurrent history deletes are not modelled.
- Formatting of timestamps with `toLocaleString`: locale behaviour.
- The login component, the application shell and the sidebar navigation: they are not part of this model.
