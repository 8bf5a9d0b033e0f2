/**
 * The rules of the product routes that do not depend on the store's mutable
 * state: which fields an add request lacks, what an update writes, and the
 * read-only lookup of POST /api/products.
 */
module Catalogue {
  import opened Wrappers
  import opened Schema
  import opened Tables

  /**
   * The product fields of an add or update request body; `None` stands for a
   * key the body does not contain.
   */
  datatype ProductFields = ProductFields(name: Option<string>, price: Option<Price>, description: Option<string>)

  /** The fields an add request lacks, reported together: `name` first, then `price`. */
  function MissingFields(req: ProductFields): (r: seq<string>)
    ensures "name" in r <==> req.name.None?
    ensures "price" in r <==> req.price.None?
    ensures forall f | f in r :: f == "name" || f == "price"
    ensures forall i, j | 0 <= i < j < |r| :: r[i] == "name" && r[j] == "price"
  {
    (if req.name.None? then ["name"] else []) + (if req.price.None? then ["price"] else [])
  }

  /** Whether some product already has exactly this name. */
  predicate NameTaken(ps: seq<Product>, name: string) {
    exists p | p in ps :: p.name == name
  }

  /** The product an add request creates, under the id the table hands out. */
  function NewProduct(req: ProductFields, id: ProductId, owner: UserId): Product
    requires req.name.Some? && req.price.Some?
  {
    Product(id, req.name.value, req.price.value, req.description.GetOr(""), owner)
  }

  /** The products whose name is exactly `name`, in table order. */
  function WithName(ps: seq<Product>, name: string): (r: seq<Product>)
    ensures forall p | p in r :: p in ps && p.name == name
    ensures forall p | p in ps && p.name == name :: p in r
    ensures |r| <= |ps|
  {
    if ps == [] then []
    else (if ps[0].name == name then [ps[0]] else []) + WithName(ps[1..], name)
  }

  /** Whether an update request names a field that differs from the stored one. */
  predicate Changes(p: Product, req: ProductFields) {
    || (req.name.Some? && req.name.value != p.name)
    || (req.price.Some? && req.price.value != p.price)
    || (req.description.Some? && req.description.value != p.description)
  }

  /**
   * The product after a partial update: every field present in the request
   * replaces the stored one. Writing a value equal to the stored one changes
   * nothing, so the result differs from `p` exactly when `Changes(p, req)`.
   */
  function Patched(p: Product, req: ProductFields): (r: Product)
    ensures r.id == p.id && r.owner == p.owner
    ensures r == p <==> !Changes(p, req)
    ensures req.name.Some? ==> r.name == req.name.value
    ensures req.price.Some? ==> r.price == req.price.value
    ensures req.description.Some? ==> r.description == req.description.value
    ensures req.name.None? ==> r.name == p.name
    ensures req.price.None? ==> r.price == p.price
    ensures req.description.None? ==> r.description == p.description
  {
    p.(name := req.name.GetOr(p.name), price := req.price.GetOr(p.price), description := req.description.GetOr(p.description))
  }

  /**
   * The value of the "id" key of a lookup body when it is not null: a JSON
   * integer, a JSON boolean (which Python counts as an integer, `True` being 1),
   * or any other JSON value.
   */
  datatype JsonId = IntId(i: int) | BoolId(b: bool) | OtherId

  /** The body of POST /api/products; `None` stands for a key that is absent or null. */
  datatype LookupRequest = LookupRequest(id: Option<JsonId>, name: Option<string>)

  /** The primary key an integer-typed id denotes. */
  function KeyOf(j: JsonId): int
    requires !j.OtherId?
  {
    match j
    case IntId(i) => i
    case BoolId(b) => if b then 1 else 0
  }

  /** How Python prints an integer-typed id. */
  function IdText(j: JsonId): string
    requires !j.OtherId?
  {
    match j
    case IntId(i) => IntToString(i)
    case BoolId(b) => if b then "True" else "False"
  }

  /**
   * POST /api/products: a product by id, else every product with a name.
   * An id that is present takes precedence over the name. An integer id that
   * does not fit SQLite's 64-bit INTEGER makes the lookup fail with a 500.
   */
  function GetProductDetails(ps: seq<Product>, req: LookupRequest): (r: Response)
    ensures req.id.Some? && req.id.value.OtherId? ==>
      r == Response(400, Detail("Invalid ID format", "ID should be an integer"))
    ensures req.id.Some? && !req.id.value.OtherId? && !Bindable(KeyOf(req.id.value)) ==>
      r == Response(500, ServerError)
    ensures req.id.Some? && !req.id.value.OtherId? && Bindable(KeyOf(req.id.value)) ==>
      && (r.status == 200 || r.status == 404)
      && (r.status == 200 <==> exists p | p in ps :: p.id == KeyOf(req.id.value))
      && (r.status == 200 ==> exists p | p in ps && p.id == KeyOf(req.id.value) :: r.body == Single(View(p)))
    ensures req.id.None? && req.name.Some? ==>
      && (r.status == 200 || r.status == 404)
      && (r.status == 200 <==> NameTaken(ps, req.name.value))
      && (r.status == 200 ==>
            && r.body.Products?
            && forall v :: v in r.body.products <==> exists p | p in ps && p.name == req.name.value :: v == View(p))
    ensures req.id.None? && req.name.None? ==>
      r == Response(400, Message("Please provide either 'id' or 'name' to search for products"))
  {
    if req.id.Some? then
      if req.id.value.OtherId? then
        Response(400, Detail("Invalid ID format", "ID should be an integer"))
      else if !Bindable(KeyOf(req.id.value)) then
        Response(500, ServerError)
      else
        match Get(ps, ProductKey, KeyOf(req.id.value))
        case Some(p) => Response(200, Single(View(p)))
        case None => Response(404, Detail("Product not found", "No product found with ID " + IdText(req.id.value)))
    else if req.name.Some? then
      var named := WithName(ps, req.name.value);
      if named != [] then
        assert named[0] in named;
        ViewsOfNamed(ps, req.name.value);
        Response(200, Products(Views(named)))
      else
        Response(404, Detail("No products found", "No products found with name '" + req.name.value + "'"))
    else
      Response(400, Message("Please provide either 'id' or 'name' to search for products"))
  }

  /** The views of the products named `name` are the views of exactly those products. */
  lemma ViewsOfNamed(ps: seq<Product>, name: string)
    ensures forall v :: v in Views(WithName(ps, name)) <==> exists p | p in ps && p.name == name :: v == View(p)
  {
    var named := WithName(ps, name);
    forall v ensures v in Views(named) <==> exists p | p in ps && p.name == name :: v == View(p) {
      if v in Views(named) {
        var k :| 0 <= k < |named| && Views(named)[k] == v;
        assert named[k] in named;
      }
      if exists p | p in ps && p.name == name :: v == View(p) {
        var p :| p in ps && p.name == name && v == View(p);
        var k :| 0 <= k < |named| && named[k] == p;
        assert Views(named)[k] == v;
      }
    }
  }

  /** A present id decides the answer alone: the name in the same body is never consulted. */
  lemma IdTakesPrecedence(ps: seq<Product>, id: JsonId, name: Option<string>)
    ensures GetProductDetails(ps, LookupRequest(Some(id), name)) == GetProductDetails(ps, LookupRequest(Some(id), None))
  {
  }
}
