# E-commerce API store rules in Dafny

This project models the request-handling rules of a small Flask e-commerce API (`App.py`). The API has users who log in, a product catalogue that any logged-in user may edit, and a cart per user that is emptied at checkout. Each route's decision is modelled over an in-memory copy of the three tables (`user`, `product`, `cart_item`):

- `wrappers.dfy` — `Option`.
- `schema.dfy` — the rows (`User`, `Product`, `CartItem`), the JSON bodies the routes answer with (`Body`, `Response`), and the login guard (`Authenticated`, `NotLoggedIn`).
- `tables.dfy` — a table as an ordered sequence of rows with an integer primary key. `Get` is `query.get`, `Put` writes an updated row back, and `Delete` removes rows by key. Lemmas cover key uniqueness and deletion.
- `auth.dfy` — `POST /login` and `POST /logout` as functions. Each returns the response and the session that follows it.
- `catalogue.dfy` — the pure product rules: the missing-field report, the duplicate-name test, the partial update (`Patched`/`Changes`) and the read-only lookup `POST /api/products` (`GetProductDetails`).
- `cart.dfy` — the specification of the cart routes: a user's items (`OwnedBy`), what checkout keeps (`Retained`) and the cart listing (`Listing`), with lemmas about them.
- `store.dfy` — the `Store` class. It holds the three tables and the two id counters, and has one method per route that writes, plus `GetProducts` and `GetCartProducts`, whose source loops over rows. Each method takes the session's user id as `current`. `Valid()` is the store invariant. It says:
  - primary keys and usernames are unique;
  - every id handed out is below its counter;
  - every product and cart item belongs to an existing user.

  Every method preserves it. Three client methods at the end (`LampInCart`, `RemoveOthersItemScenario`, `CheckoutTwiceScenario`) use only the contracts. They show two things: another user's remove gets the same 404 as a missing item, and a second checkout is a no-op.

Behaviour of the code that the model keeps, including some a caller may not expect:

- **Login with a NULL password.** Login compares the request's password, which is absent or null as `None`, with the stored, nullable password. So a user whose password column is NULL is let in by a body without a password (App.py:23, App.py:56).
- **Boolean ids in the lookup.** The lookup's `isinstance(product_id, int)` accepts JSON booleans, because Python's `bool` is an `int`. So `{"id": true}` looks up product 1 instead of answering "ID should be an integer" (App.py:161). Any other non-integer id, a float included, gets the 400.
- **Id before name.** When the lookup body has both an id and a name, the id decides and the name is ignored (App.py:160-181).
- **Removing an item whose product is gone.** The code deletes and commits the cart item first, then fails while building the answer from the missing product (App.py:295-303). The model deletes the item and answers `Response(500, ServerError)`.
- **No cascade on product delete.** Deleting a product leaves the cart items that refer to it. The cart listing skips them (`Cart.ListingAfterDelete`), but only until a new product takes the deleted id. SQLite hands out the largest rowid plus one, so after the product with the highest id is deleted, the next `add_product` reuses its id. The stale cart items are then listed with the new product's name, price and description. The model's counters never reuse an id, so this does not happen in the model.
- **Duplicate names via update.** `update_product` does not check for a duplicate name, so only `add_product` keeps names distinct.
- **No ownership check on products.** Any logged-in user may delete or update any product.
- **Ids beyond 64 bits.** The URL converter and the lookup's integer test accept integers of any size, but SQLite's INTEGER is a signed 64-bit value. The driver refuses to bind a key outside that range, so the lookup raises an error before any row is read and the route answers 500 (`Schema.Bindable`). This applies to delete, update, add to cart, remove from cart and the lookup by id.
- **A refused login keeps the session.** Only a successful login replaces the session, so a client that is logged in and sends wrong credentials gets the 401 and stays logged in as before.
- **Staged checkout deletes.** Checkout's deletions are staged in a local sequence and committed together, as the session does before its one `commit` (App.py:346-348).

## Model

| member | source | states |
|---|---|---|
| `Auth.FindByUsername` | App.py:54 | Finds a user with exactly the given username. Finds none exactly when no user has it; an absent username matches nobody. |
| `Auth.Login` | App.py:51-64 | The answer is 200 iff some user matches both the username and the password (nullable on both sides). On success the session becomes that user's id and the welcome message names them. Every failure gives the same 401 message and leaves the caller's session as it was. |
| `Auth.Logout` | App.py:67-85 | Answers 200 and ends the session iff the session names an existing user. Otherwise the guard's 401 is returned and the session is left as it was. |
| `Catalogue.MissingFields` | App.py:92-98 | The report contains `name` iff the body lacks a name and `price` iff it lacks a price. It contains nothing else, and `name` comes before `price`. |
| `Catalogue.WithName` | App.py:182 | Returns exactly the products whose name equals the given name. |
| `Catalogue.Patched` | App.py:213-228 | The update keeps id and owner. Every field present in the body takes the body's value, and every absent field keeps the stored one. The result equals the stored product iff no present field differs from the stored value (`Changes`). |
| `Catalogue.GetProductDetails` | App.py:154-199 | A non-integer id gives 400. An integer id outside SQLite's 64-bit range gives 500. Any other integer (or boolean) id gives 200 with the product that has that key, or 404 iff there is none. Without an id, a name gives 200 with the views of exactly the products of that name, or 404 iff there are none. Neither key gives 400. |
| `Catalogue.ViewsOfNamed` | App.py:181-190 | The views listed for a name are exactly the views of the products with that name. |
| `Catalogue.IdTakesPrecedence` | App.py:157-181 | When an id is present, the answer does not depend on the name in the same body. |
| `Cart.OwnedBy` | App.py:317 | Returns exactly the cart items whose owner is the given user. |
| `Cart.Retained` | App.py:344-348 | Returns exactly the cart items whose owner is not the given user. |
| `Cart.ListingMembers` | App.py:320-331 | An entry is listed iff some cart item refers to an existing product, and the entry carries that product's current name, price and description under the item's id. |
| `Cart.ListingEmpty` | App.py:333-338 | The listing is empty, which makes the route answer 404, iff none of the items refers to an existing product. |
| `Cart.ListingAfterDelete` | App.py:320-322 | Listing after a product is deleted equals listing the cart without the items that refer to that product. |
| `Cart.DeleteOwnedIsRetained` | App.py:345-347 | Deleting by id exactly the ids that mark a user's items leaves `Retained` for that user. |
| `Cart.RetainedIdempotent` | App.py:344-351 | A second checkout deletes nothing more. |
| `Cart.CartEmptyAfterCheckout` | App.py:344-348 | After checkout the user owns no cart item, and the cart listing is empty. |
| `Tables.Get` | App.py:134 | The lookup by primary key returns a row of the table with that key. It returns none exactly when no row has that key. |
| `Tables.Put` | App.py:230-231 | After a row is written back, every row is either the new row or an old row with a different key. Every old row with a different key is still there. The new row is present exactly when some old row had its key. The set of keys is unchanged. |
| `Tables.GetAfterPut` | App.py:230-231 | After a row is written back, the lookup of its key finds the new row when that key was present. A lookup of any other key finds what it found before. |
| `Tables.Delete` | App.py:137 | Deleting by keys keeps exactly the rows whose key is not deleted. |
| `Tables.DeleteOne` | App.py:136-138 | With unique keys, deleting a present row's key removes exactly that row: the multiset loses that one row and the length drops by one. |
| `Tables.DeleteKeepsKeysUnique` | App.py:28 | Deleting rows keeps primary keys unique. |
| `Tables.DeleteTwice` | App.py:346-348 | Deleting one key set and then another equals deleting their union. |
| `Tables.GetAfterDelete` | App.py:321 | After a delete, looking up a key that was not deleted finds what it found before. |
| `Store.DeletingCartIsRetained` | App.py:344-347 | Deleting the ids of the user's shopping cart removes exactly that user's items and keeps every other user's items, in order. |
| `Store.Store.constructor` | App.py:20-43 | A valid store with the given users, no products and no cart items. Both id counters start at 1. |
| `Store.Store.AddProduct` | App.py:88-128 | Without a session: 401, nothing changes. Missing fields: 400 listing them, nothing changes. A taken name: 400, nothing changes. Otherwise exactly one product is appended: it has the next id, the body's name and price, description `""` when absent, and the current user as owner. The answer is 201 with its view. Users and cart items never change. |
| `Store.Store.DeleteProduct` | App.py:131-151 | An id outside SQLite's 64-bit range gives 500 and nothing changes. An unknown id gives 404 and nothing changes. Otherwise exactly that product is removed, and the answer is 200 with its view. Cart items are left untouched, so nothing cascades. |
| `Store.Store.UpdateProduct` | App.py:202-242 | An id outside SQLite's 64-bit range gives 500 and nothing changes. An unknown id gives 404 and nothing changes. If some present field differs, the product under that id becomes `Patched` and the answer is 200 with the new view. Otherwise the table is unchanged and the answer is "No changes detected" with 200. Other rows and the cart are unchanged. |
| `Store.Store.GetProducts` | App.py:245-259 | Answers 200 with one view per product, in table order. |
| `Store.Store.AddCartProduct` | App.py:262-286 | An id outside SQLite's 64-bit range gives 500 and nothing changes. An unknown product gives 400 and nothing changes. Otherwise one cart item is appended: the next id, the current user, the product's id, and a copy of its current name and description. The answer is 201 with the product's view. |
| `Store.Store.RemoveCartProduct` | App.py:289-311 | An id outside SQLite's 64-bit range gives 500 and nothing changes. A missing item and another user's item both give the same 404, and nothing changes. Otherwise exactly that item is removed. The answer is 200 with its product's view, or 500 when that product no longer exists. |
| `Store.Store.GetCartProducts` | App.py:314-338 | Without a session: 401. Otherwise the entries are `Listing` of the user's items: 200 with them when there are some, 404 "No products in the cart" when there are none. |
| `Store.Store.Checkout` | App.py:341-351 | With a session, the cart table becomes exactly the other users' items (`Retained`) and the answer is always 200. Products and users are unchanged. |

## Left out

- HTTP routing, `request.json` parsing and `jsonify`. Request bodies are typed records with optional fields, and responses are a status plus a `Body` value. A body that is not JSON and a field of the wrong JSON type are not modelled. Examples: a string price, a null name, a null description. The lookup's `id` is the exception.
- The SQLAlchemy session and SQLite. The tables are in-memory sequences, and `query.all()` returns rows in stored order. New ids come from one counter per table that never hands out an id twice. SQLite reuses the largest rowid after that row is deleted; that reuse, and what it does to stale cart items (described above), is not modelled. The counters are unbounded. SQLite does something else once the largest rowid reaches 2^63 − 1 (it picks unused rowids at random), and that is not modelled either.
- flask_login's cookie session, `load_user` and the `login_required` decorator. The session is the parameter `current`. The guard accepts it iff it names an existing user, and otherwise answers 401 "Unauthorized. Please log in.".
- The `created` and `updated` timestamps (they come from the wall clock).
- Floating-point prices. A price is an `int`, since the routes only compare prices for equality; NaN is not modelled.
- The concurrent check-then-insert race on duplicate names, and any other concurrency. The model handles one request at a time.
- The exact 500 page Flask shows after the failure in `remove_cart_product`. It is the marker `ServerError`.
- Store.Store.GetProducts: the listed objects omit the `created` key, because timestamps are left out.
- Store.Store.UpdateProduct: the success answer omits the `updated` timestamp, because timestamps are left out.
