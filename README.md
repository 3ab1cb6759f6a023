# Restaurant client: verified model of its state logic

This project models the state logic of a React restaurant client. The client
talks to a REST backend. Waiters pick a table, fill a quantity draft from
the menu, submit it and mark the table's order completed. Managers keep the
menu and the staff accounts. A route guard and a session store decide who
may see which page.

Every backend call is an input to the model. A call whose response the
page uses either succeeds with a response value (`Response.Ok`) or fails
(`Response.Failed`). A call whose response is unused (a delete, or
completing an order) takes a boolean for its success. The token refresh
call takes its outcome: a throw, or a status code with the new access
token. The answer to
a `confirm()` dialog is a boolean input. The decoded JWT is an input too,
and so is the clock, read in whole milliseconds.

Modules: two shared modules, then one per source file:

- `Types` (`types.dfy`): the records of `src/types.ts`.
- `Lists` (`lists.dfy`): the array transforms the pages share: `filter`,
  `find`, remove by id, replace by id.
- `LocalStorage` (`local_storage.dfy`): the token keys in `localStorage`.
- `SessionStore` (`session_store.dfy`): `AuthProvider`.
- `RouteGuard` (`route_guard.dfy`): `ProtectedRoute`.
- `OrderWorkflow` (`order_workflow.dfy`): `OrderPage`.
- `MenuItems` (`menu_items.dfy`): `MenuItemsPage`.
- `Users` (`users.dfy`): `UsersPage`.
- `CompletedOrders` (`completed_orders.dfy`): `CompletedOrdersPage`.

Each page is a class whose fields are the component's state. Each handler is
a method whose `ensures` states the complete new state. Where a handler
computes something, it is specified by a pure function, and the properties
the page promises are proved about that function as lemmas.

The code does not do the following, and neither does the model:

- The session's mount check tests only that a token is present, not that
  it is unexpired.
- The guard never removes a bad or expired token.
- The session exposes no `loading` flag.
- Completing an order asks for no confirmation.
- Submitting does not re-fetch the menu.
- No order total is computed.

## Model

| member | source | states |
|---|---|---|
| Lists.Filter | src/pages/CompletedOrdersPage.tsx:57 | the result is no longer than the input |
| Lists.FilterMembers | src/pages/CompletedOrdersPage.tsx:57 | the filter keeps exactly the elements satisfying the predicate |
| Lists.FilterAppend | src/pages/CompletedOrdersPage.tsx:56-58 | filtering a concatenation filters each part, so kept elements keep their relative order |
| Lists.FilterKeepsAll | src/pages/MenuItemsPage.tsx:59 | a filter rejecting nothing returns the list unchanged |
| Lists.FilterKeepsNone | src/pages/CompletedOrdersPage.tsx:57 | a filter accepting nothing returns the empty list |
| Lists.FilterSingle | src/pages/CompletedOrdersPage.tsx:44 | when exactly one position satisfies the predicate, the filter is that one element |
| Lists.FilterDropsOne | src/pages/UsersPage.tsx:100 | when exactly one position fails the predicate, the filter drops that element and keeps the others in order |
| Lists.FindIndex | src/pages/OrderPage.tsx:24 | the index found is the first match, and None means no element matches |
| Lists.Find | src/pages/MenuItemsPage.tsx:89 | `find` yields None exactly when nothing matches, otherwise the first matching element |
| Lists.RemoveKey | src/pages/MenuItemsPage.tsx:59 | an element survives the delete exactly when its id differs from the deleted id |
| Lists.RemoveKeyLength | src/pages/UsersPage.tsx:100 | delete never lengthens the list, and keeps its length exactly when the id is absent |
| Lists.FilterShorter | src/pages/UsersPage.tsx:100 | a filter that rejects an element of the list shortens it |
| Lists.ReplaceKey | src/pages/MenuItemsPage.tsx:76-78 | save keeps the length, puts the response at every position with that id, and leaves every other position unchanged |
| Lists.RemoveKeyAppend | src/pages/MenuItemsPage.tsx:59 | delete distributes over concatenation, so the kept items stay in order |
| Lists.AppendThenRemove | src/pages/MenuItemsPage.tsx:47-59 | deleting an item just appended under a fresh id restores the list |
| Lists.RemoveKeyAt | src/pages/MenuItemsPage.tsx:59 | with unique ids, deleting the id at position k removes only that entry and keeps the rest in order |
| Lists.RemoveKeyAbsent | src/pages/UsersPage.tsx:100 | deleting an absent id leaves the list as it is |
| Lists.RemoveAfterReplace | src/pages/MenuItemsPage.tsx:59-78 | deleting an id after saving it removes the same entries as deleting it at once |
| Lists.ReplaceThenFind | src/pages/MenuItemsPage.tsx:76-89 | after a save, looking the id up finds the saved value exactly when the id was present |
| LocalStorage.GetItem | src/context/AuthProvider.tsx:8 | `getItem` yields a value exactly for a stored key, and yields the stored value |
| LocalStorage.HasAccessToken | src/context/AuthProvider.tsx:8-9 | `!!getItem("access_token")` holds exactly when the key is stored and its value is not the empty string |
| LocalStorage.AfterLogin | src/context/AuthProvider.tsx:12-16 | login stores both tokens, overwriting earlier ones, and keeps every other key |
| LocalStorage.AfterLogout | src/context/AuthProvider.tsx:18-22 | logout removes both token keys and keeps every other entry |
| LocalStorage.LogoutIdempotent | src/context/AuthProvider.tsx:18-22 | logging out twice leaves the store as logging out once |
| LocalStorage.LogoutUndoesLogin | src/context/AuthProvider.tsx:12-22 | logout after login leaves no trace of the session: the store is as after logging out at once |
| LocalStorage.CheckAfterLoginAndLogout | src/context/AuthProvider.tsx:7-22 | the token check sees a token right after login exactly when the access token is non-empty, and never after logout |
| LocalStorage.TokenStore.SetItem | src/components/ProtectedRoute.tsx:20 | the key is set to the value, and nothing else changes |
| LocalStorage.TokenStore.RemoveItem | src/context/AuthProvider.tsx:19-20 | the key is removed, and nothing else changes |
| SessionStore.AuthProvider.constructor | src/context/AuthProvider.tsx:5 | the flag starts false |
| SessionStore.AuthProvider.MountCheck | src/context/AuthProvider.tsx:7-10 | the flag is true exactly when a non-empty access token is stored, and expiry is not examined |
| SessionStore.AuthProvider.Login | src/context/AuthProvider.tsx:12-16 | the store becomes the after-login store and the flag is true |
| SessionStore.AuthProvider.Logout | src/context/AuthProvider.tsx:18-22 | the store becomes the after-logout store and the flag is false, whatever the state before |
| RouteGuard.Authenticate | src/components/ProtectedRoute.tsx:13-49 | no token means unauthorized with no refresh; a refresh is sent exactly for an expired decodable token, carries the stored refresh token, and decides the result; otherwise the result is authorized exactly for a decodable token; only a 200 refresh writes the store, and only the access token |
| RouteGuard.Expired | src/components/ProtectedRoute.tsx:37-41 | the integer test `exp * 1000 < nowMs` agrees with the source's `exp < now / 1000` on real numbers, and a missing `exp` never counts as expired |
| RouteGuard.ExpiryBoundaryIsValid | src/components/ProtectedRoute.tsx:38-45 | a token whose `exp` equals the current time exactly is authorized without a refresh, because the comparison is strict |
| RouteGuard.RefreshSucceeded | src/components/ProtectedRoute.tsx:19 | a refresh counts as a success exactly when the call returned with status 200, whatever the body; a throw never does |
| RouteGuard.Render | src/components/ProtectedRoute.tsx:52-57 | placeholder exactly while checking, children exactly when authorized, redirect exactly when refused |
| RouteGuard.ProtectedRoute.constructor | src/components/ProtectedRoute.tsx:11 | the state starts as checking (`null`) |
| RouteGuard.ProtectedRoute.RefreshToken | src/components/ProtectedRoute.tsx:13-29 | posts the stored refresh token; status 200 stores the new access token and authorizes; another status or a throw refuses and writes nothing |
| RouteGuard.ProtectedRoute.Auth | src/components/ProtectedRoute.tsx:31-50 | the state moves from checking to the decision of `Authenticate`, and the store and the request made match it |
| RouteGuard.ProtectedRoute.CurrentView | src/components/ProtectedRoute.tsx:52-57 | the children are shown exactly when authorized, the placeholder exactly while checking |
| OrderWorkflow.HasLeast | src/pages/OrderPage.tsx:52 | a non-empty set of menu-item ids has a least element |
| OrderWorkflow.Least | src/pages/OrderPage.tsx:52 | the least id of the draft is one of its keys and no key is smaller |
| OrderWorkflow.Ascending | src/pages/OrderPage.tsx:52 | `Object.entries` lists exactly the draft's keys, strictly ascending |
| OrderWorkflow.Lines | src/pages/OrderPage.tsx:52-57 | the lines are exactly the listed keys with a positive quantity, each carrying its quantity, in the keys' order |
| OrderWorkflow.Payload | src/pages/OrderPage.tsx:52-57 | the payload holds exactly the draft entries with a positive quantity, one line per menu item, in ascending menu-item order |
| OrderWorkflow.PayloadEmptyIff | src/pages/OrderPage.tsx:59-62 | the payload is empty exactly when no draft entry is positive |
| OrderWorkflow.PayloadAfterChange | src/pages/OrderPage.tsx:47-57 | after changing one quantity, that item is sent with the new quantity exactly when it is positive, and every other line is sent as before |
| OrderWorkflow.PayloadSingle | src/pages/OrderPage.tsx:52-57 | a draft with exactly one positive entry submits exactly that one line |
| OrderWorkflow.PayloadExample | src/pages/OrderPage.tsx:52-57 | the draft `{7: 2, 9: 0}` submits only the line for item 7 |
| OrderWorkflow.DraftOf | src/pages/OrderPage.tsx:28-31 | the seeded draft has no more entries than the order has items, and the last item's quantity is the one stored for its menu item |
| OrderWorkflow.DraftOfLastWins | src/pages/OrderPage.tsx:28-31 | the seeded draft has a key for each menu item of the order and no other, holding the quantity of the last item naming it |
| OrderWorkflow.SeededPayload | src/pages/OrderPage.tsx:28-57 | an order with distinct menu items and positive quantities, seeded and resubmitted, sends back exactly its own lines |
| OrderWorkflow.SeedQuantities | src/pages/OrderPage.tsx:28-31 | the `forEach` loop builds the draft of the order's items |
| Types.IsInProgress | src/pages/OrderPage.tsx:24 | the `find` predicate holds exactly for an order that is not completed |
| OrderWorkflow.ActiveOrder | src/pages/OrderPage.tsx:24 | the active order is the first order in progress, and None means no order is in progress |
| OrderWorkflow.MarkCompleted | src/pages/OrderPage.tsx:82 | the status becomes completed and every other field stays as it was |
| OrderWorkflow.CompleteOffered | src/pages/OrderPage.tsx:127 | the complete button is shown exactly when there is a current order and it is in progress, never for a completed one |
| OrderWorkflow.CompletedHidesAction | src/pages/OrderPage.tsx:127-134 | the complete button is offered exactly for an order in progress, so it disappears once the order is completed |
| OrderWorkflow.AfterFetch | src/pages/OrderPage.tsx:18-45 | a failed fetch, or no order in progress, clears the current order and the draft; otherwise the first order in progress becomes current and seeds the draft |
| OrderWorkflow.SeedExample | src/pages/OrderPage.tsx:24-32 | one in-progress order holding two of item 7 becomes current and seeds `{7: 2}` |
| OrderWorkflow.OrderPage.constructor | src/pages/OrderPage.tsx:7-10 | no menu, an empty draft, table 1, no current order |
| OrderWorkflow.OrderPage.LoadMenu | src/pages/OrderPage.tsx:13-15 | a success replaces the menu, a failure keeps it, and nothing else changes |
| OrderWorkflow.OrderPage.FetchOrder | src/pages/OrderPage.tsx:18-45 | the current order and the draft become those of `AfterFetch`, and nothing else changes |
| OrderWorkflow.OrderPage.SelectTable | src/pages/OrderPage.tsx:95-105 | the table becomes one of 1 to 10; the order is fetched again only when the table changes |
| OrderWorkflow.OrderPage.ChangeQuantity | src/pages/OrderPage.tsx:47-49 | one draft entry is overwritten, and every other entry and field is unchanged |
| OrderWorkflow.OrderPage.Submit | src/pages/OrderPage.tsx:51-75 | nothing is sent exactly when the payload is empty; otherwise the payload is posted for the table, which is one the selector offers; a success makes the response the current order; the draft is kept |
| OrderWorkflow.OrderPage.Complete | src/pages/OrderPage.tsx:77-88 | without a current order nothing is patched; otherwise its id is patched, and on success only its status changes, to completed |
| MenuItems.CategoryLabel | src/pages/MenuItemsPage.tsx:107-112 | a known category shows its label and any other category shows its raw value |
| MenuItems.LabelFallback | src/pages/MenuItemsPage.tsx:170 | a category is shown raw exactly when it is not one of the four known ones |
| MenuItems.ClearedFormCategory | src/pages/MenuItemsPage.tsx:10-48 | the form reset after a create has category `""`, unlike the initial `MAIN`, and names no known category |
| MenuItems.InCategory | src/pages/MenuItemsPage.tsx:99-103 | a category's group holds exactly the items of that category |
| MenuItems.InCategoryAppend | src/pages/MenuItemsPage.tsx:100-101 | pushing an item extends the group of its own category and no other |
| MenuItems.Categories | src/pages/MenuItemsPage.tsx:99-103 | the accumulator's keys are listed once each |
| MenuItems.CategoriesMembers | src/pages/MenuItemsPage.tsx:99-103 | the keys are exactly the categories of the items |
| MenuItems.Grouped | src/pages/MenuItemsPage.tsx:167 | one group per key, holding the items of that key's category |
| MenuItems.GroupedPartitions | src/pages/MenuItemsPage.tsx:99-103 | groups have distinct categories; every item is in the group of its category; a group holds only items of its own category |
| MenuItems.CategoriesFirstAppearance | src/pages/MenuItemsPage.tsx:99-103 | groups appear in order of first appearance: for any two groups, an item of the earlier one precedes every item of the later one |
| MenuItems.CategoriesAppend | src/pages/MenuItemsPage.tsx:100 | a new category is added at the end, and a known one changes nothing |
| MenuItems.InCategoryAbsent | src/pages/MenuItemsPage.tsx:100 | a category no item has gets an empty group |
| MenuItems.AccMap | src/pages/MenuItemsPage.tsx:99-103 | the accumulator after some items holds exactly the categories met, each with the items of that category |
| MenuItems.AccMapStep | src/pages/MenuItemsPage.tsx:100-102 | one reduce step (create the array when missing, then push) turns the accumulator of a list into that of the list extended by one item |
| MenuItems.AccMapGroups | src/pages/MenuItemsPage.tsx:167 | listing the finished accumulator's entries in key insertion order gives the grouping |
| MenuItems.GroupByCategory | src/pages/MenuItemsPage.tsx:99-103 | the reduce, with its entries listed, builds exactly the grouping |
| MenuItems.FindById | src/pages/MenuItemsPage.tsx:89 | yields None exactly when no item has the id, otherwise the first item of the list with that id |
| MenuItems.MenuItemsPage.constructor | src/pages/MenuItemsPage.tsx:6-19 | nothing loaded, loading, the initial form, not editing |
| MenuItems.MenuItemsPage.FetchItems | src/pages/MenuItemsPage.tsx:23-35 | a success replaces the list, a failure keeps it, and loading ends either way |
| MenuItems.MenuItemsPage.Create | src/pages/MenuItemsPage.tsx:38-53 | posts the form; a success appends the response and clears the form; a failure changes nothing |
| MenuItems.MenuItemsPage.Delete | src/pages/MenuItemsPage.tsx:55-64 | a declined confirmation sends nothing; a confirmed, successful delete removes the items with that id; a failure changes nothing |
| MenuItems.MenuItemsPage.Edit | src/pages/MenuItemsPage.tsx:67-70 | the edited id is the item's and the edit values are a copy of it |
| MenuItems.MenuItemsPage.Save | src/pages/MenuItemsPage.tsx:73-85 | patches the edit values; a success replaces the items with that id and leaves edit mode; a failure changes nothing |
| MenuItems.MenuItemsPage.Cancel | src/pages/MenuItemsPage.tsx:88-94 | always leaves edit mode, and restores the edit values from the item when the id is in the list |
| MenuItems.MenuItemsPage.Groups | src/pages/MenuItemsPage.tsx:96-103 | no tables while loading, then exactly the grouping of the list |
| Users.DeleteKeepsOrder | src/pages/UsersPage.tsx:100 | with unique ids, a delete drops only that user and keeps the others in order |
| Users.DeleteUndoesCreate | src/pages/UsersPage.tsx:100 | deleting a user just created under a fresh id restores the list |
| Users.SaveThenLookup | src/pages/UsersPage.tsx:85-87 | after a save the user with that id is the server's copy, exactly when the id was present |
| Users.UsersPage.constructor | src/pages/UsersPage.tsx:6-19 | nothing loaded, loading, the default form, not editing |
| Users.UsersPage.FetchUsers | src/pages/UsersPage.tsx:22-30 | a success replaces the list, a failure keeps it, and loading ends either way |
| Users.UsersPage.Mount | src/pages/UsersPage.tsx:21-73 | of the two identical mount fetches, the later success wins; two failures keep the list |
| Users.UsersPage.Create | src/pages/UsersPage.tsx:36-55 | posts the form; a success appends the response and resets the form to its defaults (employee, not staff, active); a failure changes nothing |
| Users.UsersPage.Edit | src/pages/UsersPage.tsx:76-79 | the edited id is the user's and the edit values are a copy of it |
| Users.UsersPage.Save | src/pages/UsersPage.tsx:82-94 | puts the edit values; a success replaces the users with that id and leaves edit mode; a failure changes nothing |
| Users.UsersPage.Delete | src/pages/UsersPage.tsx:96-105 | a declined confirmation sends nothing; a confirmed, successful delete removes the users with that id; a failure changes nothing |
| CompletedOrders.Toggle | src/pages/CompletedOrdersPage.tsx:34-36 | a click collapses exactly when the order was the expanded one, and otherwise expands that order |
| CompletedOrders.ToggleTwice | src/pages/CompletedOrdersPage.tsx:34-36 | two clicks on an order leave nothing expanded, unless that order was expanded before |
| CompletedOrders.ExpandedOrders | src/pages/CompletedOrdersPage.tsx:44 | the orders showing details are exactly those whose id is the expanded one |
| CompletedOrders.AtMostOneExpanded | src/pages/CompletedOrdersPage.tsx:44 | with unique ids, at most one order shows its details |
| CompletedOrders.ExpandedAt | src/pages/CompletedOrdersPage.tsx:44 | with unique ids, expanding an order shows its details and no other's |
| CompletedOrders.ClickShowsOnlyThatOrder | src/pages/CompletedOrdersPage.tsx:34-44 | a click on a collapsed order shows only its details; a click on the expanded order shows none |
| CompletedOrders.VisibleRows | src/pages/CompletedOrdersPage.tsx:56-58 | the detail rows are exactly the lines with a positive quantity |
| CompletedOrders.VisibleRowsAppend | src/pages/CompletedOrdersPage.tsx:56-58 | the rows follow the lines in order: a positive line adds its row at the end, any other line adds none |
| CompletedOrders.NoRowsForZeroQuantities | src/pages/CompletedOrdersPage.tsx:57 | an order with no positive quantity shows an empty table |
| CompletedOrders.ShowsEmptyMessage | src/pages/CompletedOrdersPage.tsx:25 | "No completed orders found." is shown exactly for the empty list, and then no order shows details |
| CompletedOrders.CompletedOrdersPage.constructor | src/pages/CompletedOrdersPage.tsx:7-8 | no orders, nothing expanded, and the empty-list message shown |
| CompletedOrders.CompletedOrdersPage.FetchCompleted | src/pages/CompletedOrdersPage.tsx:10-20 | a success replaces the list, a failure keeps it; the message shows exactly when the resulting list is empty |
| CompletedOrders.CompletedOrdersPage.Click | src/pages/CompletedOrdersPage.tsx:34-36 | the expanded id becomes the toggle of the old one, and the list is unchanged |
| CompletedOrders.CompletedOrdersPage.Details | src/pages/CompletedOrdersPage.tsx:44-74 | an order shows rows exactly when it is the expanded one, and they are its visible rows |

## Left out

- HTTP calls: every `api` call is an input, success with a response or failure; `src/services/api` is not part of this model.
- HTTP status codes are not modelled, except the refresh call's status 200.
- `jwtDecode` is a foreign library: its result is an input, a payload whose `exp` may be missing, or a throw.
- The clock: `Date.now() / 1000` is a float; the model takes the time in whole milliseconds and compares `exp * 1000 < now`.
- RouteGuard.Authenticate: a payload without `exp` counts as unexpired, because `undefined < now` is false. A non-numeric `exp` is not modelled, and neither is a non-integer `exp`, which section 4.1.4 of RFC 7519 allows as a NumericDate.
- Price arithmetic: `Number(price) * quantity` and `toFixed(2)` in the detail rows are float formatting. The `total_price` field is carried as a value only.
- Async races are not modelled: overlapping table fetches, and the two identical fetches `UsersPage` runs on mount, may resolve in either order. `Users.UsersPage.Mount` takes the responses in their completion order.
- `confirm()` is a boolean input and `alert()` is not modelled.
- The quantity input's `parseInt` can yield NaN; the model takes the quantity as an integer.
- The quantity shown on each menu card (`quantities[id] || 0`) is rendering only.
- Rendering, layout and routing are not modelled: the JSX tables and the header dropdown.
- Field-by-field form edits are not modelled: the `onChange` handlers that update one field of `newItem`, `newUser` or `editValues`.
- `src/services/Auth.ts` is not part of this model. It is a network wrapper the session store does not use.
- `AuthContext`'s `loading` field is a type declaration the provider never supplies.
- The commented-out duplicate of the order page is not modelled.
- MenuItems.Categories: groups are listed in first-appearance order. JavaScript's `Object.entries` would list array-index-like category names (such as `"1"`) first, in ascending order. Categories are assumed to be non-numeric names.
- OrderWorkflow.Ascending: menu-item ids are assumed to be array indices (0 to 2^32 - 2). `Object.entries` lists only such keys in ascending order; any other key, such as a negative id, would follow them in insertion order.
- OrderWorkflow.Payload: the lines are sent in ascending menu-item order, which holds only under the array-index assumption on ids stated for `OrderWorkflow.Ascending`.
- MenuItems.CategoryLabel: `categoryLabels[c]` for a category named like an `Object.prototype` member (such as `"toString"`) would yield a function. Such names are not modelled.
- MenuItems.GroupByCategory: the reduce's `acc[c] || []` for a category named like an `Object.prototype` member (such as `"toString"`) yields a function with no `push`, and the grouping throws. Such names are not modelled.
- `MenuItemForm.availability` is kept as the text of its input; the backend's conversion is not modelled.
- The optional `is_manager` helper of `User` is a function field, and is not modelled.
- `Partial<MenuItem>` and `Partial<User>` are modelled as an optional whole record, because the handlers only ever store `{}` or a full copy.
