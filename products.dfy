/** The product entity (models/Product.java) and the value-level parts of
    ProductService: building an entity from a request, overwriting one on
    update, and the two filtering queries. */
module Products {
  import opened Common

  datatype ProductStatus = Available | OutOfStock | Discontinued

  const DefaultStockQuantity: int := 0
  const DefaultStatus: ProductStatus := Available
  const MaxNameLength: nat := 100
  const MaxDescriptionLength: nat := 500

  /** A persisted product row; its id is the key of the product table.
      `status` is nullable: updateProduct copies a null status unchanged. */
  datatype Product = Product(
    name: string,
    description: Option<string>,
    price: Cents,
    stockQuantity: int,
    status: Option<ProductStatus>,
    createdAt: int)

  /** The fields a client sends to create or update a product (ProductDTO). */
  datatype ProductDto = ProductDto(
    name: string,
    description: Option<string>,
    price: Option<Cents>,
    stockQuantity: Option<int>,
    status: Option<ProductStatus>)

  /** `@NotBlank`: after trimming every character at or below U+0020, something is left. */
  predicate NotBlank(s: string) {
    exists i :: 0 <= i < |s| && s[i] > ' '
  }

  /** The Bean Validation constraints declared on the entity's fields: a
      non-blank name of at most 100 characters, an optional description of at
      most 500, and a price strictly above zero. The stock quantity is only
      required to be present; it has no lower bound. */
  predicate MeetsConstraints(p: Product)
    ensures MeetsConstraints(p) ==> 1 <= |p.name| <= MaxNameLength && p.price >= 1
  {
    && NotBlank(p.name)
    && |p.name| <= MaxNameLength
    && (p.description.Some? ==> |p.description.value| <= MaxDescriptionLength)
    && p.price > 0
  }

  /** `Product.builder().name(..).description(..).price(..).build()`: the
      fields left unset take their declared defaults. */
  function Built(name: string, description: Option<string>, price: Cents, now: int): (p: Product)
    ensures p.stockQuantity == 0 && p.status == Some(Available)
    ensures p.name == name && p.description == description && p.price == price
  {
    Product(name, description, price, DefaultStockQuantity, Some(DefaultStatus), now)
  }

  /** Persisting a candidate row: Bean Validation rejects it unless it meets
      the constraints, and rejects a null price or stock quantity (`@NotNull`). */
  function Validated(name: string, description: Option<string>, price: Option<Cents>,
                     stockQuantity: Option<int>, status: Option<ProductStatus>, createdAt: int): (r: Result<Product>)
    ensures r.Ok? ==> MeetsConstraints(r.value)
    ensures r.Err? ==> r.error == ConstraintViolation
    ensures r.Ok? <==> price.Some? && stockQuantity.Some?
                       && MeetsConstraints(Product(name, description, price.value, stockQuantity.value, status, createdAt))
  {
    if price.None? || stockQuantity.None? then Err(ConstraintViolation)
    else
      var p := Product(name, description, price.value, stockQuantity.value, status, createdAt);
      if MeetsConstraints(p) then Ok(p) else Err(ConstraintViolation)
  }

  /** createProduct: `convertToEntity` copies every field of the request and
      replaces a null status by AVAILABLE; the row is then validated. */
  function ToEntity(d: ProductDto, now: int): (r: Result<Product>)
    ensures r.Ok? ==> MeetsConstraints(r.value)
    ensures r.Ok? ==> && r.value.name == d.name && r.value.description == d.description
                      && Some(r.value.price) == d.price && Some(r.value.stockQuantity) == d.stockQuantity
                      && r.value.status == Some(d.status.GetOr(Available)) && r.value.createdAt == now
    ensures d.price.None? || d.stockQuantity.None? ==> r == Err(ConstraintViolation)
    ensures r.Ok? <==> && d.price.Some? && d.stockQuantity.Some?
                       && MeetsConstraints(Product(d.name, d.description, d.price.value, d.stockQuantity.value,
                                                   Some(d.status.GetOr(Available)), now))
    ensures r.Err? ==> r.error == ConstraintViolation
  {
    Validated(d.name, d.description, d.price, d.stockQuantity, Some(d.status.GetOr(DefaultStatus)), now)
  }

  /** updateProduct: the five setters overwrite name, description, price,
      stock quantity and status (a null status included); the creation time
      is kept; the row is then validated. */
  function Overwritten(existing: Product, d: ProductDto): (r: Result<Product>)
    ensures r.Ok? ==> MeetsConstraints(r.value)
    ensures r.Ok? ==> && r.value.name == d.name && r.value.description == d.description
                      && Some(r.value.price) == d.price && Some(r.value.stockQuantity) == d.stockQuantity
                      && r.value.status == d.status && r.value.createdAt == existing.createdAt
    ensures d.price.None? || d.stockQuantity.None? ==> r == Err(ConstraintViolation)
    ensures r.Ok? <==> && d.price.Some? && d.stockQuantity.Some?
                       && MeetsConstraints(Product(d.name, d.description, d.price.value, d.stockQuantity.value,
                                                   d.status, existing.createdAt))
    ensures r.Err? ==> r.error == ConstraintViolation
  {
    Validated(d.name, d.description, d.price, d.stockQuantity, d.status, existing.createdAt)
  }

  /** `findByStockQuantityLessThan(threshold)`: the products whose stock is
      strictly below the threshold. */
  function LowStock(products: map<nat, Product>, threshold: int): (r: map<nat, Product>)
    ensures forall id :: id in r <==> id in products && products[id].stockQuantity < threshold
    ensures forall id :: id in r ==> r[id] == products[id]
  {
    map id | id in products && products[id].stockQuantity < threshold :: products[id]
  }

  /** `price BETWEEN minPrice AND maxPrice`: inclusive at both ends. */
  function InPriceRange(products: map<nat, Product>, minPrice: Cents, maxPrice: Cents): (r: map<nat, Product>)
    ensures forall id :: id in r <==> id in products && minPrice <= products[id].price <= maxPrice
    ensures forall id :: id in r ==> r[id] == products[id]
  {
    map id | id in products && minPrice <= products[id].price <= maxPrice :: products[id]
  }
}
