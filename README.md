# Bakery admin: a verified model of the catalogue, cart and dashboard logic

This project models the core of a bakery shop's back office, in Dafny. The back office has two parts:

- a Laravel JSON API, which holds products with their variants, carts and wishlists;
- a React admin dashboard, which edits products, categories, locations and orders, searches customers and exports them as CSV.

The model follows the program file by file.

- **Catalog** (`catalog.dfy`) models the product controller.
  - The product-level prices are derived as the least variant prices.
  - A `Store` class holds the `products` and `product_variants` tables as maps keyed by auto-increment ids.
  - `StoreProduct` and `CreateVariants` create a product and run the `foreach` that inserts one variant row per entry.
  - `UpdateProduct` and `ReconcileVariants` update a product. Variants whose ids were not sent back are deleted. Entries that carry an id overwrite that row. Entries without one are created.
  - Each of these methods is proved against pure functions (`CreatedRows`, `Reconcile`), and the lemmas beside them describe the resulting table.
- **CartApi** and **WishlistApi** (`cart_api.dfy`, `wishlist_api.dfy`) model the two API controllers.
  - Each is a class holding its table as a sequence of rows plus the next primary key.
  - The cart adds to a line or increments it, keyed by user, product and variant. The wishlist adds an entry only if it is absent.
  - `show`, `update` and `destroy` check ownership first: a missing row is 404 (route binding), another user's row is 403.
- **ProductModel** and **VariantModel** model the computed attributes of products and variants: `cart_qty`, `in_wishlist`, the `main_image` URL and the slug route key. Their lemmas connect them to the cart and wishlist operations.
- The dashboard screens are pure state transformations, one module each:
  - `ProductForm`: the variant editor, the request body it builds, and the listing update after a save;
  - `ProductList`: the price column, delete and the modal;
  - `CategoryList`;
  - `OrderBoard`: the status buttons and the pending-first sort;
  - `DashboardStats`;
  - `LocationEditor`;
  - `CustomerDirectory`: search and CSV;
  - `SelectBox`: the searchable dropdown;
  - `AuthState`: the auth reducer;
  - `CropRatio`: the gcd-reduced aspect ratio;
  - `DescriptionService`: the canned descriptions.
- `Wrappers`, `Http`, `Seqs` and `Text` are small shared helpers: `Option`, status codes, filter/map/min/max, ASCII lower-casing, substring search, join and number formatting.

Modelling conventions:

- Money is integer paise, because the price columns are `decimal(10,2)`. Nullable columns are `Option`.
- Validation rules become preconditions. The authenticated user is a parameter.
- `Str::slug` and the image writer `dataUriToImage` are opaque functions that a `Catalog.Store` is built with.
- Fresh client ids (`crypto.randomUUID`), the `confirm` answer and the outcome of an API call are parameters.

One fact links the form to the controller. The form never sends variant ids (`ProductForm.PayloadSendsNoIds`). So an edit through it deletes every stored variant of the product and recreates the submitted ones under new ids (`ProductForm.FormEditRecreatesVariants`).

## Model

| member | source | states |
|---|---|---|
| Catalog.RegularPrices | app/Http/Controllers/ProductController.php:56 | a price is listed iff some variant supplies it as a non-null regular price |
| Catalog.TradePrices | app/Http/Controllers/ProductController.php:61 | the variants' trade prices, one per variant, in order |
| Catalog.DerivePrices | app/Http/Controllers/ProductController.php:48-65 | the trade price is null iff variants are off and none was sent. Without variants the submitted prices are kept. With variants, the trade price is one variant's trade price and at most every other one. The regular price is null iff no variant has one; otherwise it is one of them and at most every non-null one |
| Catalog.MixedVariantPrices | app/Http/Controllers/ProductController.php:139-155 | regular prices 100, null, 90 with trade prices 80, 60, 70 give 90 and 60 |
| Catalog.Overwrite | app/Http/Controllers/ProductController.php:196-202 | the overwrite keeps the row's owner and otherwise makes the row the entry's values |
| Catalog.CreatedRows | app/Http/Controllers/ProductController.php:81-89 | the rows created for n entries occupy exactly ids next .. next+n-1 |
| Catalog.CreatedRowsExactlyOnePerEntry | app/Http/Controllers/ProductController.php:80-90 | creation inserts exactly one row per entry. Entry j sits at id next+j with its name and prices and a missing regular price as null. Every row is owned by the product |
| Catalog.SentIds | app/Http/Controllers/ProductController.php:185 | the sent ids are exactly the non-empty ids of the entries |
| Catalog.Prune | app/Http/Controllers/ProductController.php:184-189 | a row survives the delete iff it belongs to another product or its id was sent; survivors are unchanged |
| Catalog.LastWithId | app/Http/Controllers/ProductController.php:193-202 | the entry found for an id carries that id and is one of the entries |
| Catalog.ApplyEntriesKeys | app/Http/Controllers/ProductController.php:192-214 | the update loop adds exactly one fresh consecutive id per id-less entry and no other key |
| Catalog.ApplyEntriesNewRows | app/Http/Controllers/ProductController.php:203-211 | the j-th id-less entry creates the product's row at id next+j |
| Catalog.ApplyEntriesExisting | app/Http/Controllers/ProductController.php:194-202 | an existing row ends up overwritten by the last entry carrying its id, or unchanged if none does |
| Catalog.LastWithIdNone | app/Http/Controllers/ProductController.php:185-202 | no entry overwrites a row iff its id is not among the sent ids |
| Catalog.NoNewEntries | app/Http/Controllers/ProductController.php:194 | entries that all carry ids create nothing |
| Catalog.AllNewEntries | app/Http/Controllers/ProductController.php:203-211 | entries without ids all create rows |
| Catalog.ReconcileOwnership | app/Http/Controllers/ProductController.php:184-214 | a variant of the product survives the update iff its id was sent; so with no variants sent all are deleted, whatever has_variants says. Rows of other products keep their owner. The product's rows afterwards are survivors or fresh rows, one per id-less entry |
| Catalog.ReconcileIdempotent | app/Http/Controllers/ProductController.php:184-214 | repeating an update whose entries all carry ids of the product's variants changes nothing more |
| Catalog.ReconcileExample | app/Http/Controllers/ProductController.php:184-214 | stored variants 1, 2, 3 with entries [id 1, no id]: 2 and 3 are deleted, 1 is overwritten, id 4 is created |
| Catalog.ForeignVariantOverwritten | app/Http/Controllers/ProductController.php:196-202 | an entry carrying another product's variant id overwrites that row; the overwrite is not scoped to the product |
| Catalog.ProductInsertKeepsTable | app/Http/Controllers/ProductController.php:68-78 | inserting a product with a fresh name and slug keeps ids below the counter and names and slugs unique |
| Catalog.ProductReplaceKeepsTable | app/Http/Controllers/ProductController.php:178 | replacing a product row with a name and slug no other product uses keeps the table sound |
| Catalog.CreatedRowsKeepTable | app/Http/Controllers/ProductController.php:80-90 | the created rows keep every variant id below the counter and owned by an existing product |
| Catalog.ApplyEntriesKeepsTable | app/Http/Controllers/ProductController.php:192-214 | the update loop keeps the variant table sound and never lowers the id counter |
| Catalog.Store.constructor | database/migrations/2025_11_26_084558_create_products_table.php:14-17 | the initial, empty product and variant tables with ids counting from 1, carrying the given slug and image functions |
| Catalog.Store.CreatedProduct | app/Http/Controllers/ProductController.php:68-78 | the created row has slug = Slug(name), has_variants defaulting to false, the derived prices and the written image |
| Catalog.Store.UpdatedProduct | app/Http/Controllers/ProductController.php:161-178 | the updated row has slug = Slug(name), has_variants defaulting to false and the derived prices. The image is replaced only by a non-empty value starting with "data:image" |
| Catalog.ImageUploadCases | app/Http/Controllers/ProductController.php:173 | every "data:image…" value counts as a new upload; a missing or empty value, or a stored path sent back, does not |
| Catalog.Store.StoreProduct | app/Http/Controllers/ProductController.php:26-97 | the insert fails (500) iff another product already has the new name's slug, or variants are off and no trade price was sent (the NOT NULL `trade_price` column); then nothing changes. Otherwise (201) the product goes in under the next id, and variant rows are created, one per entry, only when has_variants is true. The store stays sound either way |
| Catalog.Store.CreateVariants | app/Http/Controllers/ProductController.php:80-90 | the loop leaves the table as the old one plus CreatedRows and advances the counter by the number of entries |
| Catalog.Store.UpdateProduct | app/Http/Controllers/ProductController.php:113-221 | the update fails (500) iff another product already has the new name's slug, or variants are off and no trade price was sent (the NOT NULL `trade_price` column); then no row and no variant changes. Otherwise (200) the product row becomes UpdatedProduct and the variant table becomes Reconcile of the old one. The store stays sound either way |
| Catalog.Store.ReconcileVariants | app/Http/Controllers/ProductController.php:184-214 | the delete followed by the loop leaves exactly Reconcile of the old variant table |
| CartApi.FindLine | app/Http/Controllers/Api/CartController.php:36-39 | the first row of that user, product and variant, or none iff no row matches |
| CartApi.FindId | app/Http/Controllers/Api/CartController.php:66 | the row with that primary key, or none iff no row has it |
| CartApi.AfterStore | app/Http/Controllers/Api/CartController.php:36-60 | on an existing line the qty is added to that row, nothing is inserted and the answer is 200. Otherwise exactly one row (caller, product, variant, qty) is appended under the next id and the answer is 201 |
| CartApi.StoreLeavesOtherRows | app/Http/Controllers/Api/CartController.php:36-54 | a store leaves every row of another line unchanged |
| CartApi.StoreKeepsTable | app/Http/Controllers/Api/CartController.php:32-54 | a store keeps one row per (user, product, variant), distinct ids and every qty at least 1 |
| CartApi.SetQtyKeepsTable | app/Http/Controllers/Api/CartController.php:91-94 | setting a qty of at least 1 keeps the table well formed |
| CartApi.RemoveKeepsTable | app/Http/Controllers/Api/CartController.php:112 | deleting a row keeps the table well formed |
| CartApi.SumQty | app/Models/Product.php:34-36 | a sum over rows none of which is selected is 0 |
| CartApi.SumQtyUpdate | app/Models/Product.php:34-36 | replacing one row changes the sum by exactly the difference of that row's parts |
| CartApi.SumQtyPositive | app/Models/Product.php:34-36 | with positive quantities the sum is non-negative, and positive iff some row is selected |
| CartApi.StoreRaisesSum | app/Http/Controllers/Api/CartController.php:36-54 | a store of q on a selected line raises the selected sum by exactly q |
| CartApi.StoreKeepsSum | app/Http/Controllers/Api/CartController.php:36-54 | a store on an unselected line leaves the selected sum unchanged |
| CartApi.CartTable.constructor | app/Models/Cart.php:7-9 | the initial, empty and well-formed cart table, with ids counting from 1 |
| CartApi.CartTable.Index | app/Http/Controllers/Api/CartController.php:15-22 | every returned row is the caller's, each of the caller's rows appears exactly as often as in the table, and the table order is kept (Seqs.FilterUnique shows these determine the list) |
| CartApi.CartTable.Store | app/Http/Controllers/Api/CartController.php:27-61 | table, counter, answer and returned row are those of AfterStore, and the table stays well formed |
| CartApi.CartTable.Show | app/Http/Controllers/Api/CartController.php:66-79 | 404 for a missing row, 403 and nothing for another user's row, 200 and the row for the owner |
| CartApi.CartTable.Update | app/Http/Controllers/Api/CartController.php:84-101 | 404 or 403 change nothing, whatever the qty, since both answer before validation. The owner's update (qty at least 1) sets that row's qty and nothing else |
| CartApi.CartTable.Destroy | app/Http/Controllers/Api/CartController.php:106-118 | 404 or 403 change nothing; the owner's delete removes exactly that row |
| CartApi.RemovedIdGone | app/Http/Controllers/Api/CartController.php:112 | after the delete no row carries that id |
| WishlistApi.FindEntry | app/Http/Controllers/Api/WishlistController.php:37-39 | the first entry of that user and product, or none iff there is none |
| WishlistApi.FindId | app/Http/Controllers/Api/WishlistController.php:64 | the entry with that primary key, or none iff none has it |
| WishlistApi.AfterAdd | app/Http/Controllers/Api/WishlistController.php:37-58 | an existing entry is returned with 200 and the table unchanged; otherwise one (caller, product) entry is appended with 201 |
| WishlistApi.AddIdempotent | app/Http/Controllers/Api/WishlistController.php:37-47 | adding the same product twice leaves the table as adding it once, and the second answer is 200 |
| WishlistApi.AddKeepsTable | app/Http/Controllers/Api/WishlistController.php:37-58 | an add keeps one entry per (user, product) and distinct ids |
| WishlistApi.AddThenPresent | app/Http/Controllers/Api/WishlistController.php:37-58 | after an add, the caller has exactly one entry for the product and it is the returned one |
| WishlistApi.RemoveKeepsTable | app/Http/Controllers/Api/WishlistController.php:87 | deleting an entry keeps the table well formed |
| WishlistApi.WishlistTable.constructor | app/Http/Controllers/Api/WishlistController.php:6 | the initial, empty and well-formed wishlist table, with ids counting from 1 |
| WishlistApi.WishlistTable.Index | app/Http/Controllers/Api/WishlistController.php:15-25 | every returned entry is the caller's, each of the caller's entries appears exactly as often as in the table, and the table order is kept |
| WishlistApi.WishlistTable.Store | app/Http/Controllers/Api/WishlistController.php:30-59 | table, counter, answer and entry are those of AfterAdd, and the table stays well formed |
| WishlistApi.WishlistTable.Show | app/Http/Controllers/Api/WishlistController.php:64-76 | 404 for a missing entry, 403 and nothing for another user's, 200 and the entry for the owner |
| WishlistApi.WishlistTable.Destroy | app/Http/Controllers/Api/WishlistController.php:81-93 | 404 or 403 change nothing; the owner's delete removes exactly that entry |
| ProductModel.CartQty | app/Models/Product.php:28-37 | 0 when nobody is authenticated |
| ProductModel.CartQtyMeansInCart | app/Models/Product.php:34-36 | cart_qty is non-negative, and positive iff the caller has a cart row for the product, with any variant or none |
| ProductModel.CartQtyAfterStore | app/Models/Product.php:34-36 | after the caller stores q of the product, with any variant, cart_qty is exactly q higher |
| ProductModel.CartQtyUntouchedByOthers | app/Models/Product.php:34-36 | a store by another user or for another product leaves cart_qty unchanged |
| ProductModel.InWishlist | app/Models/Product.php:38-47 | false when unauthenticated; otherwise true iff the caller has a wishlist entry for the product |
| ProductModel.InWishlistAfterAdd | app/Models/Product.php:44-46 | after the caller adds the product, in_wishlist is true |
| ProductModel.InWishlistAfterRemove | app/Models/Product.php:44-46 | after the owner deletes the entry, in_wishlist is false for that user and product |
| ProductModel.MainImageUrl | app/Models/Product.php:48-51 | null iff the stored value is null, "" or "0"; otherwise the asset root plus "storage/" prefixes the URL |
| ProductModel.MainImageUrlRoundTrip | app/Models/Product.php:50 | stripping the "storage/" prefix from the URL gives back the stored path |
| ProductModel.BindSlug | app/Models/Product.php:22-25 | binding a slug finds a product with that slug, or none iff no product has it |
| ProductModel.SlugBindsBack | app/Models/Product.php:22-25 | with unique slugs, binding a product's slug finds that very product |
| VariantModel.CartQty | app/Models/ProductVariant.php:23-32 | 0 when nobody is authenticated |
| VariantModel.CartQtyMeansInCart | app/Models/ProductVariant.php:29-31 | cart_qty is non-negative, and positive iff the caller has a cart row with that variant |
| VariantModel.CartQtyAfterStore | app/Models/ProductVariant.php:29-31 | after the caller stores q with this variant, cart_qty is exactly q higher |
| VariantModel.CartQtyUntouchedByOtherUsers | app/Models/ProductVariant.php:29 | cart rows stored by other users never change a user's cart_qty |
| VariantModel.CartQtyUntouchedByOtherVariants | app/Models/ProductVariant.php:29-31 | a store of another variant, or of none, leaves cart_qty unchanged |
| ProductForm.AddVariant | resources/js/screens/AddProduct.tsx:35-47 | exactly one variant is appended, with the fresh id, an empty name and zero prices and stock; existing variants are unchanged |
| ProductForm.RemoveVariant | resources/js/screens/AddProduct.tsx:49-54 | no variant with that id remains, every other variant stays exactly as often as it was there, and the order is kept |
| ProductForm.SetFieldOnlyThatField | resources/js/screens/AddProduct.tsx:65 | setting one field changes that field only, never the id |
| ProductForm.UpdateVariant | resources/js/screens/AddProduct.tsx:56-68 | variants with that id get the field set; all others are unchanged; the length is kept |
| ProductForm.RemoveAfterUpdate | resources/js/screens/AddProduct.tsx:49-68 | removing a variant right after editing it gives the same list as removing it unedited |
| ProductForm.VariantPayload | resources/js/screens/AddProduct.tsx:91-96 | no id or attributes are sent; a 0 or missing regular price becomes null and a missing trade price 0 |
| ProductForm.BuildPayload | resources/js/screens/AddProduct.tsx:74-97 | abort iff variants are on and the list is empty. With variants, the product prices are null and the entries are the variant payloads in order. Without them, the prices default to 0 and no variants are sent. A sent request always carries a trade price when variants are off, so it never meets the NOT NULL failure. A falsy image, description or category becomes null |
| ProductForm.PayloadSendsNoIds | resources/js/screens/AddProduct.tsx:91-96 | the request carries no variant id, so every entry the update loop visits creates a row |
| ProductForm.FormEditRecreatesVariants | resources/js/screens/AddProduct.tsx:91-106 | an edit through the form deletes every stored variant of the product and creates one row per form variant at consecutive new ids. Other products' rows stay as they were |
| ProductForm.AfterCreate | resources/js/screens/AddProduct.tsx:118-123 | the saved product is listed first, the rest follow, and `total` and `to` go up by one |
| ProductForm.AfterUpdate | resources/js/screens/AddProduct.tsx:107-112 | entries with the saved id are replaced by it; nothing else changes |
| ProductForm.AfterUpdateIdempotent | resources/js/screens/AddProduct.tsx:107-112 | applying the same saved product twice lists it as applying it once |
| ProductForm.SaveFromModal | resources/js/screens/AddProduct.tsx:99-128 | a failed call changes neither the listing nor the modal. A saved answer updates the listing (as an update when a product is being edited, as a create otherwise) and closes the modal |
| ProductList.VariantTradePrices | resources/js/screens/Products.tsx:144-146 | the variants' trade prices, one per variant, in order |
| ProductList.PriceLabelOf | resources/js/screens/Products.tsx:139-160 | a range iff the product has variants: its ends are the least and greatest variant trade prices, attained and ordered. Otherwise the product's own trade price |
| ProductList.SingleVariantRange | resources/js/screens/Products.tsx:139-157 | one variant shows a range whose two ends are its trade price |
| ProductList.AfterDelete | resources/js/screens/Products.tsx:29-45 | declined or failed: unchanged. Otherwise the products with that slug go, every other one stays exactly as often as it was listed, in order, and the counters are kept |
| ProductList.DeleteAbsentSlug | resources/js/screens/Products.tsx:38-41 | deleting a slug that is not listed leaves the page as it was |
| ProductForm.ModalDecidesSave | resources/js/screens/Products.tsx:15-27 | opened with no product, a save lists the answer first with one more entry; opened on a product, a save replaces the entries with the answer's id in place. The modal then closes and forgets the product, while a failed save keeps it open on the same product |
| CategoryList.HandleEdit | resources/js/screens/Categories.tsx:21-27 | the edit slug is set and a missing description defaults to "" |
| CategoryList.HandleCancel | resources/js/screens/Categories.tsx:29-32 | after a cancel the next submit takes the create path, and the form values are empty |
| CategoryList.AfterDelete | resources/js/screens/Categories.tsx:34-51 | declined or failed: unchanged. Otherwise the categories with that slug go and every other one stays exactly as often as it was there, in order |
| CategoryList.AfterUpdate | resources/js/screens/Categories.tsx:68-72 | exactly the entries whose slug is the edited one are replaced |
| CategoryList.AfterCreate | resources/js/screens/Categories.tsx:88 | the new category is appended at the end |
| CategoryList.Submit | resources/js/screens/Categories.tsx:53-96 | the update path is taken iff an edit slug is set, and it then resets the edit state. Create keeps the edit state. A failed call changes nothing |
| CategoryList.DeleteUndoesCreate | resources/js/screens/Categories.tsx:45-88 | deleting the slug of a category just created gives what deleting it before would |
| CategoryList.EditThenSubmitUpdates | resources/js/screens/Categories.tsx:21-76 | editing a category and saving updates by its slug and leaves the edit state cleared |
| OrderBoard.UpdateStatus | resources/js/screens/Orders.tsx:9-15 | only the status of the orders with that id changes; the length and everything else is kept |
| OrderBoard.OfferedMovesForward | resources/js/screens/Orders.tsx:131-191 | no button is offered iff the status is DELIVERED or CANCELLED; every offered move goes forward and never back to PENDING |
| OrderBoard.Insert | resources/js/screens/Orders.tsx:50-64 | inserting into a sorted list keeps it sorted and adds exactly that order |
| OrderBoard.SortOrders | resources/js/screens/Orders.tsx:50-64 | the display list is sorted by the comparator and a permutation of the orders |
| OrderBoard.SortStable | resources/js/screens/Orders.tsx:50-64 | the sort is stable: orders the comparator finds equal appear in the same relative order as in the input |
| OrderBoard.InsertKeyClass | resources/js/screens/Orders.tsx:50-64 | inserting an order puts it before every order with an equal key and keeps the others' relative order |
| OrderBoard.SortedGroups | resources/js/screens/Orders.tsx:51-63 | every PENDING order comes before every other order, and within a group the newer comes first |
| OrderBoard.LowerBoundOfPermutation | resources/js/screens/Orders.tsx:50-64 | an order that may precede all of a list may precede all of any permutation of it |
| OrderBoard.SortedCons | resources/js/screens/Orders.tsx:50-64 | an order that may precede all of a sorted list may head it |
| DashboardStats.CountStatus | resources/js/screens/Dashboard.tsx:48-53 | the count is exactly how often the status occurs among the orders' statuses, so at most the number of orders, and zero iff no order has it |
| DashboardStats.PendingOrders | resources/js/screens/Dashboard.tsx:48-50 | the number of PENDING orders |
| DashboardStats.CompletedOrders | resources/js/screens/Dashboard.tsx:51-53 | the number of DELIVERED orders |
| DashboardStats.TotalSales | resources/js/screens/Dashboard.tsx:47 | 0 for no orders and the one total for one order; with no negative total, the sum is non-negative and at least every single total |
| DashboardStats.CountersBounded | resources/js/screens/Dashboard.tsx:48-53 | pending plus completed orders never exceed the number of orders |
| DashboardStats.StatusChangeKeepsSales | resources/js/screens/Dashboard.tsx:47 | a status change on the orders never changes total sales |
| DashboardStats.TotalSalesAppend | resources/js/screens/Dashboard.tsx:47 | the sales total adds up over a concatenation; with the one-order case this fixes the total of any list |
| LocationEditor.AddState | resources/js/screens/Locations.tsx:25-35 | a blank name changes nothing. Otherwise exactly one state with that name and no cities is appended and the input is cleared |
| LocationEditor.RemoveState | resources/js/screens/Locations.tsx:37-45 | declined: unchanged. Otherwise the states with that id go and every other state stays exactly as often as it was there, in order |
| LocationEditor.AddCity | resources/js/screens/Locations.tsx:47-60 | a missing or blank input changes nothing. Otherwise the city is appended to the matching states only, without dedup, and that input is cleared |
| LocationEditor.RemoveCity | resources/js/screens/Locations.tsx:62-74 | in the matching states every occurrence of the city goes. Every other city stays exactly as often as it was there, in order, and the state's id and name are kept. Other states are unchanged |
| LocationEditor.RemoveUndoesAdd | resources/js/screens/Locations.tsx:47-74 | removing a city just added gives what removing it from the original list would |
| LocationEditor.Toggled | resources/js/screens/Locations.tsx:76-84 | membership of the id flips and nothing else changes |
| LocationEditor.ToggleExpand | resources/js/screens/Locations.tsx:76-84 | the copy-and-mutate toggle yields exactly Toggled |
| LocationEditor.ToggleTwice | resources/js/screens/Locations.tsx:76-84 | toggling twice restores the set |
| CustomerDirectory.FilterCustomers | resources/js/screens/Customers.tsx:10-15 | a customer is kept iff the lower-cased name, e-mail or location contains the lower-cased term. A kept customer appears exactly as often as in the input, and the order is kept |
| CustomerDirectory.EmptySearchKeepsAll | resources/js/screens/Customers.tsx:10-15 | an empty search keeps every customer |
| CustomerDirectory.Money | resources/js/screens/Customers.tsx:35 | the two-decimal amount holds no line break |
| CustomerDirectory.Header | resources/js/screens/Customers.tsx:18-27 | the header has 8 columns |
| CustomerDirectory.Fields | resources/js/screens/Customers.tsx:28-37 | 8 fields per customer, in header order, with the location wrapped in double quotes |
| CustomerDirectory.CsvLines | resources/js/screens/Customers.tsx:41 | the header line, then one comma-joined line per shown customer, in order |
| CustomerDirectory.CsvContent | resources/js/screens/Customers.tsx:39-41 | the content starts with "data:text/csv;charset=utf-8," followed by the lines joined by "\n" |
| CustomerDirectory.LinesSingleLine | resources/js/screens/Customers.tsx:28-41 | with single-line customer fields, no CSV line contains a line break |
| CustomerDirectory.CsvLineCount | resources/js/screens/Customers.tsx:39-41 | with single-line fields, the content has exactly one line break per shown customer: one header and one line each |
| SelectBox.FilteredOptions | resources/js/components/FormSelect.tsx:31-33 | an option is listed iff its lower-cased label contains the lower-cased search. A listed option appears exactly as often as among the options, and the order is kept |
| SelectBox.EmptySearchListsAll | resources/js/components/FormSelect.tsx:31-33 | an empty search lists every option |
| SelectBox.FirstWithValue | resources/js/components/FormSelect.tsx:35 | the first position with a strictly equal value, or none iff no option has it |
| SelectBox.Selected | resources/js/components/FormSelect.tsx:35 | the selected option has that value, or there is none iff no option has it |
| SelectBox.ClickBox | resources/js/components/FormSelect.tsx:62-65 | each click toggles the list, and a list opened this way shows every option whatever was typed before |
| SelectBox.CloseOutside | resources/js/components/FormSelect.tsx:38-50 | a mouse press outside the dropdown closes the list and keeps the typed search |
| SelectBox.ReopenAfterOutside | resources/js/components/FormSelect.tsx:38-65 | after a press outside, the next click on the box reopens the list with every option shown |
| SelectBox.ChooseOption | resources/js/components/FormSelect.tsx:117-120 | choosing a listed option closes the list and keeps the search. The value it reports makes the box select an option with that same value |
| SelectBox.ChosenIsSelected | resources/js/components/FormSelect.tsx:35-120 | a chosen option becomes the selected one unless an earlier option has the same value |
| AuthState.AuthenticatedIffLoggedIn | resources/js/redux/reducers/authReducer.ts:1-21 | a fresh store starts signed out and, after any sequence of actions, is authenticated iff one of them was LOGIN_SUCCESS |
| AuthState.AuthenticatedAfter | resources/js/redux/reducers/authReducer.ts:7-21 | from any state, the flag after a sequence of actions is the starting flag or-ed with "some action was LOGIN_SUCCESS": nothing signs out |
| AuthState.Reduce | resources/js/redux/reducers/authReducer.ts:7-21 | LOGIN_SUCCESS always authenticates, overrides the fields present in the payload and keeps the others. Any other action returns the state unchanged |
| AuthState.LoginIdempotent | resources/js/redux/reducers/authReducer.ts:11-16 | applying the same login twice gives the state one application gives |
| AuthState.PayloadCannotDeauthenticate | resources/js/redux/reducers/authReducer.ts:13-15 | a payload with isAuthenticated false still yields an authenticated state |
| CropRatio.GcdIsGreatest | resources/js/components/ImagePicker.tsx:47 | gcd divides both arguments and every common divisor divides it |
| CropRatio.DividesRemainder | resources/js/components/ImagePicker.tsx:47 | a divisor of b divides a iff it divides a mod b, the step the recursion relies on |
| CropRatio.GcdPositive | resources/js/components/ImagePicker.tsx:47 | the gcd of numbers not both zero is positive |
| CropRatio.Ratio | resources/js/components/ImagePicker.tsx:49-52 | for positive sides, both are exact multiples of their gcd; the reduced pair is positive and has the same ratio |
| CropRatio.SquareIsOne | resources/js/components/ImagePicker.tsx:49-52 | a square reduces to 1:1 |
| DescriptionService.Describe | resources/js/services/geminiService.ts:34-40 | the table entry for the lower-cased name, or the default when that key is not in the table |
| DescriptionService.DescribeIgnoresCategoryAndCase | resources/js/services/geminiService.ts:3-40 | the answer depends neither on the category nor on the case of the name |
| DescriptionService.ListedKeys | resources/js/services/geminiService.ts:11-35 | each listed key, "croissant", "sourdough" and "chocolate-cake", gets its own entry |
| DescriptionService.UnlistedGetsDefault | resources/js/services/geminiService.ts:36-39 | a name whose lower-case form is not listed gets the default description and ingredients |
| DescriptionService.InsightsConstant | resources/js/services/geminiService.ts:43-48 | the insight is the same for every input |

## Left out

- Product `index`, `show` and `destroy` are not modelled. They are pagination, a plain load and a delete, and the cascade to variant rows lives in a migration that is not part of this model.
- A failed insert or update (the unique `slug` index, or a null trade price for the NOT NULL `trade_price` column) is modelled as a 500 answer with the store unchanged. MySQL may still use up an auto-increment value on such an insert, and the image file is already written; neither is modelled.
- Laravel validation is modelled as preconditions, including `required` on the product name and on every variant name: a string that PHP's `trim` leaves empty is refused (`Text.IsPhpBlank`). The `exists:` checks on product, variant and category ids are not modelled. Request strings are taken as the controller receives them; Laravel's input-trimming middleware, which is not part of this model, is not modelled either. `numeric` quantities and prices are integers, so fractional quantities are not modelled.
- The cart controller reads the user as `$request()->user()` (CartController.php lines 17, 36, 52, 69, 86 and 108). As PHP, `$request()` calls the Request object as a function, and Laravel's Request defines no `__invoke`. So, as written, every cart action fails with an error before reaching the logic modelled here. The model follows the evident intent `$request->user()` and takes the authenticated user id as a parameter. The failing form is not modelled.
- The cart and wishlist routes are not registered in `routes/api.php`; that is outside this model.
- Status codes other than 200, 201, 403, 404 and the 500 of a refused write (the unique `slug` index, the NOT NULL `trade_price` column) are not modelled, and neither are response bodies, eager loading or JSON encoding of variant attributes (attributes are an opaque map).
- `Str::slug`, `dataUriToImage` and `asset()` are not modelled: the first two are opaque functions of the store, and the asset root is a parameter.
- Client I/O is not modelled: `callApi`, toasts, alerts, `confirm` (a boolean parameter), `crypto.randomUUID` (a fresh-id parameter) and the DOM link created for the CSV download. A failed API call is the `succeeded` or `saved` parameter.
- Money is integer paise. `toFixed(2)` is modelled on paise, and the floating-point arithmetic of the screens is not modelled.
- CropRatio.Ratio: `getRatio` stores the float `w / r / (h / r)`; the model returns the reduced integer pair and proves the cross-multiplied equality instead.
- Lower-casing, blank tests and substring search are ASCII only. Unicode case mapping and JavaScript's full whitespace set are not modelled.
- DescriptionService.Describe: keys inherited from the JavaScript object prototype (such as "constructor") are not modelled; only the three own keys are.
- ProductForm.VariantPayload: form prices are modelled as numbers. On edit, the form is loaded with the product as the API returns it (AddProduct.tsx lines 131-133), and the API returns decimal columns as strings such as "0.00", since the models declare no decimal casts. Such a string is truthy, so `v.regular_price || null` re-sends a stored 0 as "0.00", while the model maps every 0 regular price to null.
- The form's `ingredients` and `stock` fields are never sent by the submit, so they are not modelled.
- Category `resetForm` (a form-library reset) is not modelled. The Dashboard's charts, insight effect and timers are not modelled either.
- Concurrent edits and the ordering of asynchronous React state updates are not modelled.
