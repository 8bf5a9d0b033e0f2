/**
 * The three tables of the store (users, products, cart items) and the shape of
 * the JSON responses the routes return.
 */
module Schema {
  import opened Wrappers

  type UserId = int
  type ProductId = int
  type CartItemId = int

  /** A price. The column is a float, but the routes only ever compare prices for equality. */
  type Price = int

  /** A row of the `user` table. The password column is nullable and stored in plain text. */
  datatype User = User(id: UserId, username: string, password: Option<string>)

  /** A row of the `product` table; `owner` is the user who created it. */
  datatype Product = Product(id: ProductId, name: string, price: Price, description: string, owner: UserId)

  /**
   * A row of the `cart_item` table: who holds it, which product it refers to, and
   * a copy of that product's name and description taken when it was added.
   */
  datatype CartItem = CartItem(id: CartItemId, owner: UserId, productId: ProductId, name: string, description: string)

  /**
   * SQLite stores an INTEGER in 64 bits, signed. The driver refuses to bind a
   * key outside that range, so a lookup by such a key fails with a server error
   * instead of finding nothing.
   */
  const MinSqlInteger: int := -0x8000_0000_0000_0000
  const MaxSqlInteger: int := 0x7FFF_FFFF_FFFF_FFFF

  predicate Bindable(key: int) {
    MinSqlInteger <= key <= MaxSqlInteger
  }

  function UserKey(u: User): int { u.id }
  function ProductKey(p: Product): int { p.id }
  function CartItemKey(c: CartItem): int { c.id }

  /** The JSON object a route reports for one product. */
  datatype ProductView = ProductView(id: ProductId, name: string, price: Price, description: string)

  /** One entry of the cart listing: the cart item's id and its product's current fields. */
  datatype CartEntry = CartEntry(cartItemId: CartItemId, name: string, price: Price, description: string)

  /** The JSON body of a response. */
  datatype Body =
    | Message(message: string)
    | Detail(message: string, error: string)
    | InvalidFields(message: string, missingFields: seq<string>)
    | WithProduct(message: string, product: ProductView)
    | Single(product: ProductView)
    | Products(products: seq<ProductView>)
    | CartEntries(entries: seq<CartEntry>)
    | ServerError

  datatype Response = Response(status: int, body: Body)

  function View(p: Product): ProductView {
    ProductView(p.id, p.name, p.price, p.description)
  }

  /** The views of `ps`, one per product, in the same order. */
  function Views(ps: seq<Product>): seq<ProductView>
  {
    seq(|ps|, i requires 0 <= i < |ps| => View(ps[i]))
  }

  /** Whether `id` names a row of the user table. */
  predicate IsUser(users: seq<User>, id: UserId) {
    exists u | u in users :: u.id == id
  }

  /** What the login guard accepts: a session bound to a user that exists. */
  predicate Authenticated(users: seq<User>, current: Option<UserId>) {
    current.Some? && IsUser(users, current.value)
  }

  /** The guard's answer to a request without a valid session. */
  const NotLoggedIn := Response(401, Message("Unauthorized. Please log in."))

  /** Python's `str` of an integer, used inside error messages. */
  function IntToString(i: int): string {
    if i < 0 then "-" + NatToString(-i) else NatToString(i)
  }

  function NatToString(n: nat): string {
    if n < 10 then [Digit(n)] else NatToString(n / 10) + [Digit(n % 10)]
  }

  function Digit(d: nat): char
    requires d < 10
  {
    "0123456789"[d]
  }
}
