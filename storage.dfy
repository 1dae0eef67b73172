/**
 * The rows of the database tables the core reads and writes, the in-memory
 * database that holds them, and the Flask session. A table is a sequence of
 * rows in the order a full `SELECT` returns them.
 */
module Storage {
  import opened Wrappers
  import opened Checks

  /** A row of `forgotPassTokens`. */
  datatype TokenRow = TokenRow(userId: int, token: string, creationTime: int)

  /** A row of `carts`: `uuid` is set for an anonymous cart, `userId` for a user's cart. */
  datatype CartRow = CartRow(id: int, uuid: Option<string>, userId: Option<int>, lastModTime: int)

  /** A row of `cartProducts`: one line of a cart. */
  datatype CartProductRow = CartProductRow(cartId: int, productId: int, amount: int)

  /** A row of `products`; `priceNet` is in hundredths of the currency unit. */
  datatype ProductRow = ProductRow(id: int, name: string, priceNet: int)

  /** One entry of a shipping-methods dictionary. */
  datatype ShippingMethod = ShippingMethod(cost: int, currency: string, name: string)

  /** A row of `draftOrders`; the shipping methods keep the dictionary's key order. */
  datatype DraftOrderRow = DraftOrderRow(
    uuid: string,
    products: seq<CartProductRow>,
    productsSumNet: int,
    shippingMethods: seq<(string, ShippingMethod)>,
    timestamp: int)

  class Database {
    var forgotPassTokens: seq<TokenRow>
    var carts: seq<CartRow>
    var cartProducts: seq<CartProductRow>
    var products: seq<ProductRow>
    var draftOrders: seq<DraftOrderRow>

    constructor(tokens: seq<TokenRow>, carts: seq<CartRow>, lines: seq<CartProductRow>, products: seq<ProductRow>)
      ensures forgotPassTokens == tokens && this.carts == carts && cartProducts == lines
      ensures this.products == products && draftOrders == []
    {
      forgotPassTokens := tokens;
      this.carts := carts;
      cartProducts := lines;
      this.products := products;
      draftOrders := [];
    }
  }

  /**
   * The keys of `flask.session` the core uses. `logged` is the truth of
   * `session.get('logged')`; an absent key is None.
   */
  class Session {
    var logged: bool
    var userId: Option<int>
    var draftOrderUuid: Option<string>
    var orderShippingMethods: Option<seq<(string, ShippingMethod)>>

    constructor(logged: bool, userId: Option<int>)
      ensures this.logged == logged && this.userId == userId
      ensures draftOrderUuid == None && orderShippingMethods == None
    {
      this.logged := logged;
      this.userId := userId;
      draftOrderUuid := None;
      orderShippingMethods := None;
    }
  }

  /** `DELETE FROM forgotPassTokens WHERE token = t`. */
  function TokensWithout(tokens: seq<TokenRow>, t: string): (r: seq<TokenRow>)
    ensures forall row :: row in r <==> row in tokens && row.token != t
    ensures IsSubseq(r, tokens)
    decreases |tokens|
  {
    if tokens == [] then []
    else
      var rest := TokensWithout(tokens[1..], t);
      if tokens[0].token != t then
        assert ([tokens[0]] + rest)[1..] == rest;
        [tokens[0]] + rest
      else
        SubseqSkip(rest, tokens);
        rest
  }

  /** `DELETE FROM forgotPassTokens WHERE creationTime <= threshold`: what remains. */
  function TokensNewerThan(tokens: seq<TokenRow>, threshold: int): (r: seq<TokenRow>)
    ensures forall row :: row in r <==> row in tokens && row.creationTime > threshold
    ensures IsSubseq(r, tokens)
    decreases |tokens|
  {
    if tokens == [] then []
    else
      var rest := TokensNewerThan(tokens[1..], threshold);
      if tokens[0].creationTime > threshold then
        assert ([tokens[0]] + rest)[1..] == rest;
        [tokens[0]] + rest
      else
        SubseqSkip(rest, tokens);
        rest
  }

  /** The carts whose id is not in `ids`, in table order. */
  function CartsWithout(carts: seq<CartRow>, ids: set<int>): (r: seq<CartRow>)
    ensures forall c :: c in r <==> c in carts && c.id !in ids
    ensures IsSubseq(r, carts)
    decreases |carts|
  {
    if carts == [] then []
    else
      var rest := CartsWithout(carts[1..], ids);
      if carts[0].id !in ids then
        assert ([carts[0]] + rest)[1..] == rest;
        [carts[0]] + rest
      else
        SubseqSkip(rest, carts);
        rest
  }

  /** The cart lines whose cart id is not in `ids`, in table order. */
  function LinesWithout(lines: seq<CartProductRow>, ids: set<int>): (r: seq<CartProductRow>)
    ensures forall l :: l in r <==> l in lines && l.cartId !in ids
    ensures IsSubseq(r, lines)
    decreases |lines|
  {
    if lines == [] then []
    else
      var rest := LinesWithout(lines[1..], ids);
      if lines[0].cartId !in ids then
        assert ([lines[0]] + rest)[1..] == rest;
        [lines[0]] + rest
      else
        SubseqSkip(rest, lines);
        rest
  }

  /** Removing one more id after a set of ids is removing their union. */
  lemma {:induction false} CartsWithoutTwice(carts: seq<CartRow>, ids: set<int>, id: int)
    ensures CartsWithout(CartsWithout(carts, ids), {id}) == CartsWithout(carts, ids + {id})
    decreases |carts|
  {
    if carts != [] {
      CartsWithoutTwice(carts[1..], ids, id);
    }
  }

  /** Removing the lines of one more cart after those of a set of carts is removing those of their union. */
  lemma {:induction false} LinesWithoutTwice(lines: seq<CartProductRow>, ids: set<int>, id: int)
    ensures LinesWithout(LinesWithout(lines, ids), {id}) == LinesWithout(lines, ids + {id})
    decreases |lines|
  {
    if lines != [] {
      LinesWithoutTwice(lines[1..], ids, id);
    }
  }

  /** `SELECT ... FROM products WHERE id = %s` with `fetchone`: the first row with that id. */
  function FindProduct(products: seq<ProductRow>, id: int): (r: Option<ProductRow>)
    ensures r.Some? ==> r.value in products && r.value.id == id
    ensures r.None? ==> forall p :: p in products ==> p.id != id
    decreases |products|
  {
    if products == [] then None
    else if products[0].id == id then Some(products[0])
    else FindProduct(products[1..], id)
  }

  /** The lookup returns the first row with the id. */
  lemma {:induction false} FindProductIsFirst(products: seq<ProductRow>, id: int, i: int)
    requires 0 <= i < |products| && products[i].id == id
    requires forall k :: 0 <= k < i ==> products[k].id != id
    ensures FindProduct(products, id) == Some(products[i])
    decreases i
  {
    if i > 0 {
      FindProductIsFirst(products[1..], id, i - 1);
    }
  }
}
