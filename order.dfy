/**
 * Draft orders (flaskr/order.py): `create_draft_order` picks the visitor's
 * cart, copies its lines, adds up their net prices and inserts one draft
 * row; `calculate_shipping_cost` offers the shipping methods only when that
 * succeeds.
 */
module Order {
  import opened Wrappers
  import opened Checks
  import opened Storage

  /** How the cart is looked up: by the session's user, or by the cart cookie. */
  datatype CartKey = ByUser(userId: int) | ByUuid(cookie: Option<string>)

  /** `WHERE userId = %s` / `WHERE uuid = %s`; a missing cookie is `NULL`, which no row equals. */
  predicate Matches(c: CartRow, key: CartKey) {
    match key
    case ByUser(u) => c.userId == Some(u)
    case ByUuid(u) => u.Some? && c.uuid == u
  }

  /** The lookup key the session selects; None when the session is logged in without a `user_id`. */
  function SessionCartKey(logged: bool, userId: Option<int>, cookie: Option<string>): (r: Option<CartKey>)
    ensures logged && userId.Some? ==> r == Some(ByUser(userId.value))
    ensures logged && userId.None? ==> r.None?
    ensures !logged ==> r == Some(ByUuid(cookie))
  {
    if logged then (if userId.Some? then Some(ByUser(userId.value)) else None)
    else Some(ByUuid(cookie))
  }

  /** `fetchone()` on the cart query: the first matching cart. */
  function FirstCart(carts: seq<CartRow>, key: CartKey): (r: Option<CartRow>)
    ensures r.Some? ==> r.value in carts && Matches(r.value, key)
    ensures r.None? ==> forall c :: c in carts ==> !Matches(c, key)
    decreases |carts|
  {
    if carts == [] then None
    else if Matches(carts[0], key) then Some(carts[0])
    else FirstCart(carts[1..], key)
  }

  /** The cart found is the first one in table order that matches. */
  lemma {:induction false} FirstCartIsFirst(carts: seq<CartRow>, key: CartKey, i: int)
    requires 0 <= i < |carts| && Matches(carts[i], key)
    requires forall k :: 0 <= k < i ==> !Matches(carts[k], key)
    ensures FirstCart(carts, key) == Some(carts[i])
    decreases i
  {
    if i > 0 {
      FirstCartIsFirst(carts[1..], key, i - 1);
    }
  }

  /** `SELECT * FROM cartProducts WHERE cartId = %s`: the cart's lines in table order. */
  function LinesOf(lines: seq<CartProductRow>, cartId: int): (r: seq<CartProductRow>)
    ensures forall l :: l in r <==> l in lines && l.cartId == cartId
    ensures IsSubseq(r, lines)
    decreases |lines|
  {
    if lines == [] then []
    else
      var rest := LinesOf(lines[1..], cartId);
      if lines[0].cartId == cartId then
        assert ([lines[0]] + rest)[1..] == rest;
        [lines[0]] + rest
      else
        SubseqSkip(rest, lines);
        rest
  }

  predicate AllPriced(products: seq<ProductRow>, lines: seq<CartProductRow>) {
    forall l :: l in lines ==> FindProduct(products, l.productId).Some?
  }

  /** The net value of the lines: the sum of price times amount. */
  function NetSum(products: seq<ProductRow>, lines: seq<CartProductRow>): int
    requires AllPriced(products, lines)
    decreases |lines|
  {
    if lines == [] then 0
    else FindProduct(products, lines[0].productId).value.priceNet * lines[0].amount + NetSum(products, lines[1..])
  }

  /**
   * The value the loop accumulates, line by line: None as soon as a line's
   * product is missing (`fetchone()` gives `None` and indexing it raises).
   */
  function LoopSum(products: seq<ProductRow>, lines: seq<CartProductRow>): Option<int>
    decreases |lines|
  {
    if lines == [] then Some(0)
    else
      match LoopSum(products, lines[..|lines| - 1])
      case None => None
      case Some(s) =>
        match FindProduct(products, lines[|lines| - 1].productId)
        case None => None
        case Some(p) => Some(s + p.priceNet * lines[|lines| - 1].amount)
  }

  lemma {:induction false} NetSumAppend(products: seq<ProductRow>, a: seq<CartProductRow>, l: CartProductRow)
    requires AllPriced(products, a + [l])
    ensures AllPriced(products, a)
    ensures NetSum(products, a + [l]) == NetSum(products, a) + FindProduct(products, l.productId).value.priceNet * l.amount
    decreases |a|
  {
    if a != [] {
      assert (a + [l])[1..] == a[1..] + [l];
      NetSumAppend(products, a[1..], l);
    }
  }

  /** The loop computes the net sum exactly when every line's product exists, and fails otherwise. */
  lemma {:induction false} LoopSumIsNetSum(products: seq<ProductRow>, lines: seq<CartProductRow>)
    ensures LoopSum(products, lines).Some? <==> AllPriced(products, lines)
    ensures AllPriced(products, lines) ==> LoopSum(products, lines) == Some(NetSum(products, lines))
    decreases |lines|
  {
    if lines != [] {
      var a, l := lines[..|lines| - 1], lines[|lines| - 1];
      assert lines == a + [l];
      LoopSumIsNetSum(products, a);
      if AllPriced(products, lines) {
        NetSumAppend(products, a, l);
      }
    }
  }

  /** The draft row `create_draft_order` inserts for these tables and this session, or None where it raises before the insert. */
  function DraftOrder(
    carts: seq<CartRow>, cartLines: seq<CartProductRow>, products: seq<ProductRow>,
    logged: bool, userId: Option<int>, cookie: Option<string>,
    methods: seq<(string, ShippingMethod)>, uuid: string, now: int): (r: Option<DraftOrderRow>)
    ensures var key := SessionCartKey(logged, userId, cookie);
      r.Some? <==> (key.Some? && FirstCart(carts, key.value).Some? &&
                    AllPriced(products, LinesOf(cartLines, FirstCart(carts, key.value).value.id)))
    ensures r.Some? ==>
      var lines := LinesOf(cartLines, FirstCart(carts, SessionCartKey(logged, userId, cookie).value).value.id);
      r.value == DraftOrderRow(uuid, lines, NetSum(products, lines), methods, now)
  {
    match SessionCartKey(logged, userId, cookie)
    case None => None
    case Some(key) =>
      match FirstCart(carts, key)
      case None => None
      case Some(cart) =>
        var lines := LinesOf(cartLines, cart.id);
        LoopSumIsNetSum(products, lines);
        match LoopSum(products, lines)
        case None => None
        case Some(sum) => Some(DraftOrderRow(uuid, lines, sum, methods, now))
  }

  /** The loop of `create_draft_order` over the cart's lines; None where a line's product is missing. */
  method SumLines(products: seq<ProductRow>, lines: seq<CartProductRow>) returns (sum: Option<int>)
    ensures sum == LoopSum(products, lines)
    ensures sum.Some? <==> AllPriced(products, lines)
    ensures sum.Some? ==> sum.value == NetSum(products, lines)
  {
    LoopSumIsNetSum(products, lines);
    var acc := 0;
    var i := 0;
    while i < |lines|
      invariant 0 <= i <= |lines|
      invariant LoopSum(products, lines[..i]) == Some(acc)
    {
      var p := FindProduct(products, lines[i].productId);
      assert lines[..i + 1][..i] == lines[..i];
      if p.None? {
        LoopSumIsNetSum(products, lines[..i + 1]);
        assert lines[i] in lines[..i + 1];
        return None;
      }
      acc := acc + p.value.priceNet * lines[i].amount;
      i := i + 1;
    }
    assert lines[..i] == lines;
    return Some(acc);
  }

  /**
   * `create_draft_order`. `draftUuid` and `now` stand for `uuid.uuid4()` and
   * `time.time()`; `insertSucceeds` says whether the database accepts the
   * insert and the commit.
   */
  method CreateDraftOrder(
    db: Database, session: Session, cookie: Option<string>, methods: seq<(string, ShippingMethod)>,
    draftUuid: string, now: int, insertSucceeds: bool) returns (ok: bool)
    modifies db`draftOrders, session`draftOrderUuid
    ensures var d := DraftOrder(db.carts, db.cartProducts, db.products, session.logged, session.userId,
                                cookie, methods, draftUuid, now);
      && (ok <==> d.Some? && insertSucceeds)
      && session.draftOrderUuid == (if d.Some? then Some(draftUuid) else old(session.draftOrderUuid))
      && db.draftOrders == old(db.draftOrders) + (if ok then [d.value] else [])
  {
    var key := SessionCartKey(session.logged, session.userId, cookie);
    if key.None? {
      return false;
    }
    var cart := FirstCart(db.carts, key.value);
    if cart.None? {
      return false;
    }
    var lines := LinesOf(db.cartProducts, cart.value.id);
    var sum := SumLines(db.products, lines);
    if sum.None? {
      return false;
    }
    var row := DraftOrderRow(draftUuid, lines, sum.value, methods, now);
    assert DraftOrder(db.carts, db.cartProducts, db.products, session.logged, session.userId,
                      cookie, methods, draftUuid, now) == Some(row);
    session.draftOrderUuid := Some(draftUuid);
    if !insertSucceeds {
      return false;
    }
    db.draftOrders := db.draftOrders + [row];
    return true;
  }

  /** A key of a Python dictionary literal: a repeated key keeps its first position and takes the later value. */
  function DictPut<V>(entries: seq<(string, V)>, k: string, v: V): (r: seq<(string, V)>)
    ensures (exists i :: 0 <= i < |entries| && entries[i].0 == k) ==> |r| == |entries|
    ensures forall i :: 0 <= i < |entries| && entries[i].0 == k && KeyAbsent(entries[..i], k) ==>
      r == entries[i := (k, v)]
    ensures KeyAbsent(entries, k) ==> r == entries + [(k, v)]
    decreases |entries|
  {
    if entries == [] then [(k, v)]
    else if entries[0].0 == k then
      assert forall i :: 0 < i < |entries| ==> !KeyAbsent(entries[..i], k) by {
        forall i | 0 < i < |entries| ensures !KeyAbsent(entries[..i], k) {
          assert entries[..i][0] == entries[0];
        }
      }
      [(k, v)] + entries[1..]
    else
      var tail := entries[1..];
      var r := [entries[0]] + DictPut(tail, k, v);
      forall i | 0 < i < |entries| && entries[i].0 == k && KeyAbsent(entries[..i], k)
        ensures r == entries[i := (k, v)]
      {
        var before := tail[..i - 1];
        assert KeyAbsent(before, k) by {
          forall j | 0 <= j < |before| ensures before[j].0 != k {
            assert before[j] == entries[..i][j + 1];
          }
        }
        assert tail[i - 1] == entries[i];
        assert r == [entries[0]] + tail[i - 1 := (k, v)];
      }
      assert KeyAbsent(entries, k) ==> KeyAbsent(tail, k) by {
        forall j | 0 <= j < |tail| ensures tail[j] == entries[j + 1] { }
      }
      r
  }

  /** No entry has the key `k`. */
  predicate KeyAbsent<V>(entries: seq<(string, V)>, k: string) {
    forall j :: 0 <= j < |entries| ==> entries[j].0 != k
  }

  /** The two example methods offered, keyed by two fresh identifiers. */
  function ShippingMethods(u1: string, u2: string): (r: seq<(string, ShippingMethod)>)
    ensures u1 != u2 ==> r == [(u1, ShippingMethod(100, "PLN", "Name of the method")),
                               (u2, ShippingMethod(200, "PLN", "Name of the method 2"))]
    ensures u1 == u2 ==> r == [(u1, ShippingMethod(200, "PLN", "Name of the method 2"))]
  {
    DictPut(DictPut([], u1, ShippingMethod(100, "PLN", "Name of the method")),
            u2, ShippingMethod(200, "PLN", "Name of the method 2"))
  }

  /** The response of `calculate_shipping_cost`. */
  datatype ShippingResponse = Failed | Offered(methods: seq<(string, ShippingMethod)>)

  /** `calculate_shipping_cost`: a 500 answer, with the methods left out of the session, unless the draft is stored. */
  method CalculateShippingCost(
    db: Database, session: Session, cookie: Option<string>, u1: string, u2: string,
    draftUuid: string, now: int, insertSucceeds: bool) returns (response: ShippingResponse)
    modifies db`draftOrders, session`draftOrderUuid, session`orderShippingMethods
    ensures var d := DraftOrder(db.carts, db.cartProducts, db.products, session.logged, session.userId,
                                cookie, ShippingMethods(u1, u2), draftUuid, now);
      && (response.Offered? <==> d.Some? && insertSucceeds)
      && (response.Offered? ==> response.methods == ShippingMethods(u1, u2))
      && session.orderShippingMethods ==
           (if response.Offered? then Some(ShippingMethods(u1, u2)) else old(session.orderShippingMethods))
      && session.draftOrderUuid == (if d.Some? then Some(draftUuid) else old(session.draftOrderUuid))
      && db.draftOrders == old(db.draftOrders) + (if response.Offered? then [d.value] else [])
  {
    var methods := ShippingMethods(u1, u2);
    var ok := CreateDraftOrder(db, session, cookie, methods, draftUuid, now, insertSucceeds);
    if !ok {
      return Failed;
    }
    session.orderShippingMethods := Some(methods);
    return Offered(methods);
  }
}
