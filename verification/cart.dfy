/**
 * The specification side of the cart routes: whose items a route touches,
 * what the cart listing shows, and what checkout leaves behind.
 */
module Cart {
  import opened Wrappers
  import opened Schema
  import opened Tables

  /** The product a cart item refers to, used as a key to select cart items by product. */
  function ProductRef(c: CartItem): int { c.productId }

  /** `user.shopping_cart`: the cart items of user `u`, in table order. */
  function OwnedBy(items: seq<CartItem>, u: UserId): (r: seq<CartItem>)
    ensures forall c | c in r :: c in items && c.owner == u
    ensures forall c | c in items && c.owner == u :: c in r
  {
    if items == [] then []
    else (if items[0].owner == u then [items[0]] else []) + OwnedBy(items[1..], u)
  }

  /** The cart items of every user other than `u`, in table order. */
  function Retained(items: seq<CartItem>, u: UserId): (r: seq<CartItem>)
    ensures forall c | c in r :: c in items && c.owner != u
    ensures forall c | c in items && c.owner != u :: c in r
  {
    if items == [] then []
    else (if items[0].owner != u then [items[0]] else []) + Retained(items[1..], u)
  }

  /** The listing entry of cart item `c` whose product is `p`: the product's current fields. */
  function Entry(c: CartItem, p: Product): CartEntry {
    CartEntry(c.id, p.name, p.price, p.description)
  }

  /** The entry of one cart item, or nothing when its product no longer exists. */
  function EntryOf(c: CartItem, ps: seq<Product>): seq<CartEntry> {
    match Get(ps, ProductKey, c.productId)
    case Some(p) => [Entry(c, p)]
    case None => []
  }

  /** The cart listing of `items`, in order, skipping items whose product is gone. */
  function Listing(items: seq<CartItem>, ps: seq<Product>): (r: seq<CartEntry>)
    ensures |r| <= |items|
  {
    if items == [] then [] else EntryOf(items[0], ps) + Listing(items[1..], ps)
  }

  lemma {:induction false} ListingAppend(s: seq<CartItem>, t: seq<CartItem>, ps: seq<Product>)
    ensures Listing(s + t, ps) == Listing(s, ps) + Listing(t, ps)
  {
    if s == [] {
      assert s + t == t;
    } else {
      assert (s + t)[1..] == s[1..] + t;
      ListingAppend(s[1..], t, ps);
    }
  }

  /** Listing one more item extends the listing by that item's entry, if any. */
  lemma ListingSnoc(items: seq<CartItem>, i: nat, ps: seq<Product>)
    requires i < |items|
    ensures Listing(items[..i + 1], ps) == Listing(items[..i], ps) + EntryOf(items[i], ps)
  {
    var one := [items[i]];
    assert one[1..] == [];
    assert Listing(one, ps) == EntryOf(items[i], ps);
    ListingAppend(items[..i], one, ps);
    assert items[..i + 1] == items[..i] + one;
  }

  /**
   * An entry is listed exactly when some cart item of `items` refers to a
   * product that exists, and the entry shows that product's current fields.
   */
  lemma {:induction false} ListingMembers(items: seq<CartItem>, ps: seq<Product>, e: CartEntry)
    ensures e in Listing(items, ps) <==>
      exists c, p | c in items && p in ps :: Get(ps, ProductKey, c.productId) == Some(p) && e == Entry(c, p)
  {
    if items != [] {
      ListingMembers(items[1..], ps, e);
      assert forall c | c in items[1..] :: c in items;
      assert forall c | c in items :: c == items[0] || c in items[1..];
    }
  }

  /** The listing is empty exactly when none of the items refers to a product that exists. */
  lemma {:induction false} ListingEmpty(items: seq<CartItem>, ps: seq<Product>)
    ensures Listing(items, ps) == [] <==> forall c | c in items :: Get(ps, ProductKey, c.productId).None?
  {
    if items != [] {
      ListingEmpty(items[1..], ps);
      assert forall c | c in items[1..] :: c in items;
      assert forall c | c in items :: c == items[0] || c in items[1..];
    }
  }

  /**
   * Deleting product `pid` (with no cascade to the cart) makes the listing
   * skip exactly the cart items that refer to it.
   */
  lemma {:induction false} ListingAfterDelete(items: seq<CartItem>, ps: seq<Product>, pid: ProductId)
    ensures Listing(items, Delete(ps, ProductKey, {pid})) == Listing(Delete(items, ProductRef, {pid}), ps)
  {
    if items != [] {
      var c := items[0];
      ListingAfterDelete(items[1..], ps, pid);
      var gone := Delete(ps, ProductKey, {pid});
      assert Listing(items, gone) == EntryOf(c, gone) + Listing(items[1..], gone);
      if c.productId == pid {
        assert Get(gone, ProductKey, pid).None?;
        assert Delete(items, ProductRef, {pid}) == Delete(items[1..], ProductRef, {pid});
      } else {
        assert Delete(items, ProductRef, {pid}) == [c] + Delete(items[1..], ProductRef, {pid});
        GetAfterDelete(ps, ProductKey, {pid}, c.productId);
        ListingAppend([c], Delete(items[1..], ProductRef, {pid}), ps);
      }
    }
  }

  /**
   * Deleting by id every item whose id marks it as `u`'s leaves the items of
   * the other users, in order.
   */
  lemma {:induction false} DeleteOwnedIsRetained(items: seq<CartItem>, ids: set<CartItemId>, u: UserId)
    requires forall c | c in items :: c.id in ids <==> c.owner == u
    ensures Delete(items, CartItemKey, ids) == Retained(items, u)
  {
    if items != [] {
      assert forall c | c in items[1..] :: c in items;
      DeleteOwnedIsRetained(items[1..], ids, u);
    }
  }

  /** A second checkout finds nothing more to delete. */
  lemma {:induction false} RetainedIdempotent(items: seq<CartItem>, u: UserId)
    ensures Retained(Retained(items, u), u) == Retained(items, u)
  {
    if items != [] {
      var rest := Retained(items[1..], u);
      RetainedIdempotent(items[1..], u);
      if items[0].owner != u {
        var r := [items[0]] + rest;
        assert Retained(items, u) == r;
        assert r[0] == items[0] && r[1..] == rest;
        assert Retained(r, u) == [items[0]] + Retained(rest, u);
      } else {
        assert Retained(items, u) == rest;
      }
    }
  }

  /** After checkout `u` holds no cart item, so the cart listing is empty. */
  lemma {:induction false} CartEmptyAfterCheckout(items: seq<CartItem>, ps: seq<Product>, u: UserId)
    ensures OwnedBy(Retained(items, u), u) == []
    ensures Listing(OwnedBy(Retained(items, u), u), ps) == []
  {
    if items != [] {
      var rest := Retained(items[1..], u);
      CartEmptyAfterCheckout(items[1..], ps, u);
      if items[0].owner != u {
        var r := [items[0]] + rest;
        assert Retained(items, u) == r;
        assert r[0] == items[0] && r[1..] == rest;
      } else {
        assert Retained(items, u) == rest;
      }
    }
  }
}
