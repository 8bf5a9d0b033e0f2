/**
 * The store behind the routes: the user, product and cart item tables and the
 * ids the next inserted rows receive. Each route that writes is a method of
 * `Store`; the session is the explicit parameter `current`, the id the session
 * cookie carries, and every method behind the login guard answers `NotLoggedIn`
 * and changes nothing when it does not name an existing user.
 *
 * The read-only routes POST /login, POST /logout and POST /api/products are the
 * functions `Auth.Login`, `Auth.Logout` and `Catalogue.GetProductDetails`,
 * applied to the tables of a `Store`.
 */
module Store {
  import opened Wrappers
  import opened Schema
  import opened Tables
  import opened Auth
  import opened Catalogue
  import opened Cart

  class Store {
    var users: seq<User>
    var products: seq<Product>
    var cartItems: seq<CartItem>
    /** The id the next product receives; ids are never handed out twice. */
    var nextProductId: nat
    /** The id the next cart item receives. */
    var nextCartItemId: nat

    /**
     * Primary keys are unique, usernames are unique, every id handed out is
     * below its counter, and every product and cart item belongs to a user.
     * A cart item's product may have been deleted: nothing cascades.
     */
    ghost predicate Valid()
      reads this
    {
      && KeysUnique(users, UserKey) && UsernamesUnique(users)
      && 1 <= nextProductId && ProductRows(products, users, nextProductId)
      && 1 <= nextCartItemId && CartRows(cartItems, users, nextCartItemId)
    }

    /** A store holding the given users and no products or cart items. */
    constructor (users: seq<User>)
      requires KeysUnique(users, UserKey) && UsernamesUnique(users)
      ensures Valid()
      ensures this.users == users && products == [] && cartItems == []
      ensures nextProductId == 1 && nextCartItemId == 1
    {
      this.users := users;
      products := [];
      cartItems := [];
      nextProductId := 1;
      nextCartItemId := 1;
    }

    /**
     * POST /api/products/add. Every missing field is reported at once; a name
     * that is already taken is refused; otherwise one product owned by the
     * current user is appended, its description "" when the body has none.
     */
    method AddProduct(current: Option<UserId>, req: ProductFields) returns (r: Response)
      requires Valid()
      modifies this
      ensures Valid()
      ensures users == old(users) && cartItems == old(cartItems) && nextCartItemId == old(nextCartItemId)
      ensures !Authenticated(old(users), current) ==> r == NotLoggedIn && unchanged(this)
      ensures Authenticated(old(users), current) && MissingFields(req) != [] ==>
        && r == Response(400, InvalidFields("Invalid product data", MissingFields(req)))
        && unchanged(this)
      ensures Authenticated(old(users), current) && MissingFields(req) == [] && NameTaken(old(products), req.name.value) ==>
        && r == Response(400, Detail("For existing products, be sure to enter a new name.",
                                     "Product with name '" + req.name.value + "' already exists"))
        && unchanged(this)
      ensures Authenticated(old(users), current) && MissingFields(req) == [] && !NameTaken(old(products), req.name.value) ==>
        var p := NewProduct(req, old(nextProductId), current.value);
        && products == old(products) + [p]
        && nextProductId == old(nextProductId) + 1
        && r == Response(201, WithProduct("Product added successfully", View(p)))
    {
      if !Authenticated(users, current) {
        return NotLoggedIn;
      }
      var missing := MissingFields(req);
      if missing != [] {
        return Response(400, InvalidFields("Invalid product data", missing));
      }
      if NameTaken(products, req.name.value) {
        return Response(400, Detail("For existing products, be sure to enter a new name.",
                                    "Product with name '" + req.name.value + "' already exists"));
      }
      var product := NewProduct(req, nextProductId, current.value);
      AppendKeepsKeysUnique(products, ProductKey, product);
      assert forall p | p in products + [product] :: p in products || p == product;
      products := products + [product];
      nextProductId := nextProductId + 1;
      r := Response(201, WithProduct("Product added successfully", View(product)));
    }

    /**
     * DELETE /api/products/delete/<id>. Any logged-in user may delete any
     * product. The cart items that refer to it stay in place.
     */
    method DeleteProduct(current: Option<UserId>, productId: nat) returns (r: Response)
      requires Valid()
      modifies this
      ensures Valid()
      ensures users == old(users) && cartItems == old(cartItems)
      ensures nextProductId == old(nextProductId) && nextCartItemId == old(nextCartItemId)
      ensures !Authenticated(old(users), current) ==> r == NotLoggedIn && products == old(products)
      ensures Authenticated(old(users), current) && !Bindable(productId) ==>
        r == Response(500, ServerError) && products == old(products)
      ensures Authenticated(old(users), current) && Bindable(productId) && Get(old(products), ProductKey, productId).None? ==>
        r == Response(404, Message("Product not found")) && products == old(products)
      ensures Authenticated(old(users), current) && Bindable(productId) && Get(old(products), ProductKey, productId).Some? ==>
        var p := Get(old(products), ProductKey, productId).value;
        && products == Delete(old(products), ProductKey, {productId})
        && multiset(products) == multiset(old(products)) - multiset{p}
        && r == Response(200, WithProduct("Product deleted successfully", View(p)))
    {
      if !Authenticated(users, current) {
        return NotLoggedIn;
      }
      if !Bindable(productId) {
        return Response(500, ServerError);
      }
      var found := Get(products, ProductKey, productId);
      if found.None? {
        return Response(404, Message("Product not found"));
      }
      var product := found.value;
      DeleteOne(products, ProductKey, product);
      DeleteKeepsKeysUnique(products, ProductKey, {productId});
      products := Delete(products, ProductKey, {productId});
      r := Response(200, WithProduct("Product deleted successfully", View(product)));
    }

    /**
     * PUT /api/products/update/<id>. Each field present in the body that
     * differs from the stored one is overwritten, and `updated` records
     * whether any was; with no change the product is left as it was.
     */
    method UpdateProduct(current: Option<UserId>, productId: nat, req: ProductFields) returns (r: Response)
      requires Valid()
      modifies this
      ensures Valid()
      ensures users == old(users) && cartItems == old(cartItems)
      ensures nextProductId == old(nextProductId) && nextCartItemId == old(nextCartItemId)
      ensures !Authenticated(old(users), current) ==> r == NotLoggedIn && products == old(products)
      ensures Authenticated(old(users), current) && !Bindable(productId) ==>
        r == Response(500, ServerError) && products == old(products)
      ensures Authenticated(old(users), current) && Bindable(productId) && Get(old(products), ProductKey, productId).None? ==>
        && r == Response(404, Detail("No products found", "No products found with ID " + IntToString(productId)))
        && products == old(products)
      ensures Authenticated(old(users), current) && Bindable(productId) && Get(old(products), ProductKey, productId).Some? ==>
        var p := Get(old(products), ProductKey, productId).value;
        && (Changes(p, req) ==>
              && products == Put(old(products), ProductKey, Patched(p, req))
              && Get(products, ProductKey, productId) == Some(Patched(p, req))
              && r == Response(200, WithProduct("Product updated successfully", View(Patched(p, req)))))
        && (!Changes(p, req) ==>
              products == old(products) && r == Response(200, Message("No changes detected")))
    {
      if !Authenticated(users, current) {
        return NotLoggedIn;
      }
      if !Bindable(productId) {
        return Response(500, ServerError);
      }
      var found := Get(products, ProductKey, productId);
      if found.None? {
        return Response(404, Detail("No products found", "No products found with ID " + IntToString(productId)));
      }
      ghost var stored := found.value;
      var product := found.value;
      var updated := false;
      if req.name.Some? && req.name.value != product.name {
        product := product.(name := req.name.value);
        updated := true;
      }
      if req.price.Some? && req.price.value != product.price {
        product := product.(price := req.price.value);
        updated := true;
      }
      if req.description.Some? && req.description.value != product.description {
        product := product.(description := req.description.value);
        updated := true;
      }
      assert product == Patched(stored, req) && updated == Changes(stored, req);
      if updated {
        ProductRowsAfterPut(products, users, nextProductId, stored, product);
        GetAfterPut(products, ProductKey, product, productId);
        products := Put(products, ProductKey, product);
        r := Response(200, WithProduct("Product updated successfully", View(product)));
      } else {
        r := Response(200, Message("No changes detected"));
      }
    }

    /** GET /api/products: every product, in table order. */
    method GetProducts() returns (r: Response)
      ensures r.status == 200 && r.body.Products?
      ensures |r.body.products| == |products|
      ensures forall i | 0 <= i < |products| :: r.body.products[i] == View(products[i])
    {
      var list: seq<ProductView> := [];
      for i := 0 to |products|
        invariant |list| == i
        invariant forall k | 0 <= k < i :: list[k] == View(products[k])
      {
        list := list + [View(products[i])];
      }
      r := Response(200, Products(list));
    }

    /**
     * POST /api/cart/add/<id>. Appends a cart item of the current user that
     * refers to the product and copies its present name and description.
     */
    method AddCartProduct(current: Option<UserId>, productId: nat) returns (r: Response)
      requires Valid()
      modifies this
      ensures Valid()
      ensures users == old(users) && products == old(products) && nextProductId == old(nextProductId)
      ensures !Authenticated(old(users), current) ==> r == NotLoggedIn && unchanged(this)
      ensures Authenticated(old(users), current) && !Bindable(productId) ==>
        r == Response(500, ServerError) && unchanged(this)
      ensures Authenticated(old(users), current) && Bindable(productId) && Get(old(products), ProductKey, productId).None? ==>
        && r == Response(400, Detail("Failed to add product to cart",
                                     "Product with ID " + IntToString(productId) + " not found"))
        && unchanged(this)
      ensures Authenticated(old(users), current) && Bindable(productId) && Get(old(products), ProductKey, productId).Some? ==>
        var p := Get(old(products), ProductKey, productId).value;
        && cartItems == old(cartItems) + [CartItem(old(nextCartItemId), current.value, p.id, p.name, p.description)]
        && nextCartItemId == old(nextCartItemId) + 1
        && r == Response(201, WithProduct("Product added to cart successfully", View(p)))
    {
      if !Authenticated(users, current) {
        return NotLoggedIn;
      }
      if !Bindable(productId) {
        return Response(500, ServerError);
      }
      var found := Get(products, ProductKey, productId);
      if found.None? {
        return Response(400, Detail("Failed to add product to cart",
                                    "Product with ID " + IntToString(productId) + " not found"));
      }
      var product := found.value;
      var item := CartItem(nextCartItemId, current.value, product.id, product.name, product.description);
      AppendKeepsKeysUnique(cartItems, CartItemKey, item);
      assert forall c | c in cartItems + [item] :: c in cartItems || c == item;
      cartItems := cartItems + [item];
      nextCartItemId := nextCartItemId + 1;
      r := Response(201, WithProduct("Product added to cart successfully", View(product)));
    }

    /**
     * DELETE /api/cart/remove/<id>. Only an item that exists and belongs to
     * the current user is deleted; both other cases give the same 404. When
     * the item's product was deleted earlier, the item is still removed and
     * the route then fails building its answer.
     */
    method RemoveCartProduct(current: Option<UserId>, cartItemId: nat) returns (r: Response)
      requires Valid()
      modifies this
      ensures Valid()
      ensures users == old(users) && products == old(products)
      ensures nextProductId == old(nextProductId) && nextCartItemId == old(nextCartItemId)
      ensures !Authenticated(old(users), current) ==> r == NotLoggedIn && cartItems == old(cartItems)
      ensures Authenticated(old(users), current) && !Bindable(cartItemId) ==>
        r == Response(500, ServerError) && cartItems == old(cartItems)
      ensures Authenticated(old(users), current) && Bindable(cartItemId) && !Owns(old(cartItems), current.value, cartItemId) ==>
        && r == Response(404, Message("Cart item not found or you are not authorized to delete it"))
        && cartItems == old(cartItems)
      ensures Authenticated(old(users), current) && Bindable(cartItemId) && Owns(old(cartItems), current.value, cartItemId) ==>
        var c := Get(old(cartItems), CartItemKey, cartItemId).value;
        && cartItems == Delete(old(cartItems), CartItemKey, {cartItemId})
        && multiset(cartItems) == multiset(old(cartItems)) - multiset{c}
        && (Get(products, ProductKey, c.productId).Some? ==>
              r == Response(200, WithProduct("Product removed from cart successfully",
                                             View(Get(products, ProductKey, c.productId).value))))
        && (Get(products, ProductKey, c.productId).None? ==> r == Response(500, ServerError))
    {
      if !Authenticated(users, current) {
        return NotLoggedIn;
      }
      if !Bindable(cartItemId) {
        return Response(500, ServerError);
      }
      var found := Get(cartItems, CartItemKey, cartItemId);
      if found.Some? && found.value.owner == current.value {
        var item := found.value;
        var product := Get(products, ProductKey, item.productId);
        DeleteOne(cartItems, CartItemKey, item);
        DeleteKeepsKeysUnique(cartItems, CartItemKey, {cartItemId});
        cartItems := Delete(cartItems, CartItemKey, {cartItemId});
        if product.Some? {
          r := Response(200, WithProduct("Product removed from cart successfully", View(product.value)));
        } else {
          r := Response(500, ServerError);
        }
      } else {
        r := Response(404, Message("Cart item not found or you are not authorized to delete it"));
      }
    }

    /**
     * GET /api/cart: the current user's cart items, in table order, each with
     * its product's current fields; items whose product is gone are skipped,
     * and an empty listing is a 404.
     */
    method GetCartProducts(current: Option<UserId>) returns (r: Response)
      ensures !Authenticated(users, current) ==> r == NotLoggedIn
      ensures Authenticated(users, current) ==>
        var entries := Listing(OwnedBy(cartItems, current.value), products);
        && (entries == [] ==> r == Response(404, Message("No products in the cart")))
        && (entries != [] ==> r == Response(200, CartEntries(entries)))
    {
      if !Authenticated(users, current) {
        return NotLoggedIn;
      }
      var mine := OwnedBy(cartItems, current.value);
      var list: seq<CartEntry> := [];
      for i := 0 to |mine|
        invariant list == Listing(mine[..i], products)
      {
        var product := Get(products, ProductKey, mine[i].productId);
        if product.Some? {
          list := list + [Entry(mine[i], product.value)];
        }
        ListingSnoc(mine, i, products);
      }
      assert mine[..|mine|] == mine;
      if list != [] {
        r := Response(200, CartEntries(list));
      } else {
        r := Response(404, Message("No products in the cart"));
      }
    }

    /**
     * POST /api/cart/checkout: deletes the current user's cart items one by
     * one and always answers 200.
     */
    method Checkout(current: Option<UserId>) returns (r: Response)
      requires Valid()
      modifies this
      ensures Valid()
      ensures users == old(users) && products == old(products)
      ensures nextProductId == old(nextProductId) && nextCartItemId == old(nextCartItemId)
      ensures !Authenticated(old(users), current) ==> r == NotLoggedIn && cartItems == old(cartItems)
      ensures Authenticated(old(users), current) ==>
        && r == Response(200, Message("Checkout successful, cart has been cleared."))
        && cartItems == Retained(old(cartItems), current.value)
    {
      if !Authenticated(users, current) {
        return NotLoggedIn;
      }
      var u := current.value;
      var shoppingCart := OwnedBy(cartItems, u);
      // The deletions are staged one by one and committed together.
      var staged := cartItems;
      assert KeySet(shoppingCart[..0], CartItemKey) == {};
      DeleteNone(cartItems, CartItemKey, {});
      var i := 0;
      while i < |shoppingCart|
        invariant 0 <= i <= |shoppingCart|
        invariant staged == Delete(cartItems, CartItemKey, KeySet(shoppingCart[..i], CartItemKey))
        modifies {}
      {
        CheckoutStep(cartItems, shoppingCart, i);
        staged := Delete(staged, CartItemKey, {shoppingCart[i].id});
        i := i + 1;
      }
      CheckoutResult(cartItems, users, nextCartItemId, u);
      cartItems := staged;
      r := Response(200, Message("Checkout successful, cart has been cleared."));
    }
  }

  /** The product table's part of `Store.Valid`. */
  ghost predicate ProductRows(ps: seq<Product>, users: seq<User>, next: int) {
    && KeysUnique(ps, ProductKey)
    && forall p | p in ps :: 1 <= p.id < next && IsUser(users, p.owner)
  }

  /** The cart item table's part of `Store.Valid`. */
  ghost predicate CartRows(items: seq<CartItem>, users: seq<User>, next: int) {
    && KeysUnique(items, CartItemKey)
    && forall c | c in items :: 1 <= c.id < next && IsUser(users, c.owner)
  }

  /** Writing back a product under its own id, with its owner kept, keeps the table valid. */
  lemma ProductRowsAfterPut(ps: seq<Product>, users: seq<User>, next: int, p: Product, x: Product)
    requires ProductRows(ps, users, next) && p in ps && x.id == p.id && x.owner == p.owner
    ensures ProductRows(Put(ps, ProductKey, x), users, next)
    ensures x in Put(ps, ProductKey, x)
  {
    var r := Put(ps, ProductKey, x);
    PutKeepsKeysUnique(ps, ProductKey, x);
    forall q | q in r ensures 1 <= q.id < next && IsUser(users, q.owner) {
      var k :| 0 <= k < |r| && r[k] == q;
      assert ps[k] in ps;
    }
    var k :| 0 <= k < |ps| && ps[k] == p;
    assert r[k] == x;
  }

  /** One turn of the checkout loop: deleting the next item of the cart extends the deleted prefix. */
  lemma CheckoutStep(items: seq<CartItem>, cart: seq<CartItem>, i: nat)
    requires i < |cart|
    ensures Delete(Delete(items, CartItemKey, KeySet(cart[..i], CartItemKey)), CartItemKey, {cart[i].id})
         == Delete(items, CartItemKey, KeySet(cart[..i + 1], CartItemKey))
  {
    DeleteTwice(items, CartItemKey, KeySet(cart[..i], CartItemKey), {cart[i].id});
    assert cart[..i + 1] == cart[..i] + [cart[i]];
    KeySetSnoc(cart[..i], CartItemKey, cart[i]);
  }

  /** What the checkout loop leaves behind: a valid table holding the other users' items. */
  lemma CheckoutResult(items: seq<CartItem>, users: seq<User>, next: int, u: UserId)
    requires CartRows(items, users, next)
    ensures var cart := OwnedBy(items, u);
      Delete(items, CartItemKey, KeySet(cart[..|cart|], CartItemKey)) == Retained(items, u)
    ensures CartRows(Retained(items, u), users, next)
  {
    var cart := OwnedBy(items, u);
    assert cart[..|cart|] == cart;
    DeletingCartIsRetained(items, u);
    CartRowsAfterDelete(items, users, next, KeySet(OwnedBy(items, u), CartItemKey));
  }

  /** Deleting cart items keeps the cart item table valid. */
  lemma CartRowsAfterDelete(items: seq<CartItem>, users: seq<User>, next: int, ids: set<CartItemId>)
    requires CartRows(items, users, next)
    ensures CartRows(Delete(items, CartItemKey, ids), users, next)
  {
    DeleteKeepsKeysUnique(items, CartItemKey, ids);
  }

  /**
   * Deleting, by id, the cart items `user.shopping_cart` lists leaves exactly
   * the items of the other users: since ids are unique, no other user's item
   * shares an id with one of `u`'s.
   */
  lemma DeletingCartIsRetained(items: seq<CartItem>, u: UserId)
    requires KeysUnique(items, CartItemKey)
    ensures Delete(items, CartItemKey, KeySet(OwnedBy(items, u), CartItemKey)) == Retained(items, u)
  {
    var cart := OwnedBy(items, u);
    var ids := KeySet(cart, CartItemKey);
    forall c | c in items ensures c.id in ids <==> c.owner == u {
      if c.id in ids {
        var y :| y in cart && y.id == c.id;
        SameKeySameRow(items, CartItemKey, c, y);
      }
    }
    DeleteOwnedIsRetained(items, ids, u);
  }

  /** Whether cart item `id` exists and belongs to user `u`. */
  predicate Owns(items: seq<CartItem>, u: UserId, id: CartItemId) {
    Get(items, CartItemKey, id).Some? && Get(items, CartItemKey, id).value.owner == u
  }

  /** A store with users 1 and 2 and user 1's product 1, "Lamp", in user 1's cart. */
  method LampInCart() returns (store: Store)
    ensures store.Valid() && fresh(store)
    ensures Authenticated(store.users, Some(1)) && Authenticated(store.users, Some(2))
    ensures store.products == [Product(1, "Lamp", 10, "", 1)]
    ensures store.cartItems == [CartItem(1, 1, 1, "Lamp", "")]
  {
    var alice := User(1, "alice", Some("a"));
    var bob := User(2, "bob", Some("b"));
    store := new Store([alice, bob]);
    assert alice in store.users && bob in store.users;
    var lamp := ProductFields(Some("Lamp"), Some(10), None);
    assert MissingFields(lamp) == [] && !NameTaken(store.products, "Lamp");
    var r := store.AddProduct(Some(1), lamp);
    r := store.AddCartProduct(Some(1), 1);
  }

  /** Another user's attempt to remove a cart item gets the same 404 as a missing item. */
  method RemoveOthersItemScenario() {
    var store := LampInCart();
    var r := store.RemoveCartProduct(Some(2), 1);
    assert r == Response(404, Message("Cart item not found or you are not authorized to delete it"));
    var missing := store.RemoveCartProduct(Some(1), 7);
    assert missing == r && store.cartItems == [CartItem(1, 1, 1, "Lamp", "")];
  }

  /** Checking out twice succeeds both times; afterwards the cart listing is a 404. */
  method CheckoutTwiceScenario() {
    var store := LampInCart();
    var r := store.Checkout(Some(1));
    assert r.status == 200 && store.cartItems == [];
    r := store.Checkout(Some(1));
    assert r.status == 200 && store.cartItems == [];
    r := store.GetCartProducts(Some(1));
    assert r.status == 404;
  }
}
