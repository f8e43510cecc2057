/** The values that flow through the "create order" use case. */
module OrderDomain {

  type ProductId = string
  type CustomerId = string

  datatype Option<+T> = None | Some(value: T)

  /** What `execute` produces: the created value, or the `AppError` it throws. */
  datatype Result<+T, +E> = Success(value: T) | Failure(error: E)

  /** A customer row; only its identity matters when placing an order. */
  datatype Customer = Customer(id: CustomerId)

  /** One entry of the request body: a product id and the quantity wanted. */
  datatype RequestedProduct = RequestedProduct(id: ProductId, quantity: int)

  /** A product row: its unit price (in cents) and the units in stock. */
  datatype Product = Product(id: ProductId, price: int, quantity: int)

  /** A line of a created order; the price is a copy taken when the order is placed. */
  datatype OrderLine = OrderLine(productId: ProductId, quantity: int, price: int)

  datatype Order = Order(customer: Customer, lines: seq<OrderLine>)

  /** One entry of the batch passed to `updateQuantity`: the new stock of a product. */
  datatype StockUpdate = StockUpdate(id: ProductId, quantity: int)

  /** The four `AppError`s `execute` throws, each with the id its message names. */
  datatype OrderError =
    | CustomerNotFound
    | NoProductsFound
    | ProductNotFound(id: ProductId)
    | InsufficientStock(id: ProductId)
}
