/**
 * The storefront's records, as far as the modelled core reads them.
 * Prices and other JavaScript numbers are integers here (prices in cents).
 */
module Types {
  import opened Wrappers

  datatype Role = Customer | Seller | Admin

  datatype Address = Address(street: string, city: string, state: string, zip: string, country: string)

  /** A user as the client sees it (the server never sends the password). */
  datatype User = User(
    id: string,
    name: string,
    email: string,
    avatar: Option<string>,
    role: Role,
    joinedAt: string,
    address: Option<Address>)

  /**
   * A catalogue product. `category` is declared as a string but records without one
   * exist in the data (the admin overview counts them as "Other"), so it is optional.
   */
  datatype Product = Product(
    id: string,
    name: string,
    price: int,
    category: Option<string>,
    rating: int,
    stock: int,
    sellerId: string)

  /** One cart line: a snapshot of the product and how many of it. */
  datatype CartItem = CartItem(product: Product, quantity: int)

  /** The cart as exposed to the pages: the items and the two derived figures. */
  datatype Cart = Cart(items: seq<CartItem>, total: int, itemCount: int)

  datatype OrderStatus = Pending | Processing | Shipped | Delivered | Cancelled

  datatype Order = Order(id: string, userId: string, items: seq<CartItem>, total: int, status: OrderStatus)

  /** A seller's profile, as far as the admin dashboard reads it. */
  datatype SellerProfile = SellerProfile(id: string, isVerified: bool)

  /** A moderation report; its status is free text (`'pending'`, `'resolved'`, ...). */
  datatype Report = Report(id: string, status: string)

  function ProductIdOf(item: CartItem): string
  {
    item.product.id
  }
}
