/**
 * The expiry sweep (scripts/expired_db.py): delete the password-reset
 * tokens created at or before the token threshold, then every anonymous
 * cart last modified before the cart threshold, together with its lines.
 */
module ExpiredDb {
  import opened Wrappers
  import opened Checks
  import opened Storage
  import Auth

  /** `lastModTime < threshold and uuid is NOT NULL`. */
  predicate Expired(c: CartRow, threshold: int) {
    c.lastModTime < threshold && c.uuid.Some?
  }

  /** `SELECT * FROM carts WHERE lastModTime < %s and uuid is NOT NULL`, in table order. */
  function ExpiredCarts(carts: seq<CartRow>, threshold: int): (r: seq<CartRow>)
    ensures forall c :: c in r <==> c in carts && Expired(c, threshold)
    ensures IsSubseq(r, carts)
    decreases |carts|
  {
    if carts == [] then []
    else
      var rest := ExpiredCarts(carts[1..], threshold);
      if Expired(carts[0], threshold) then
        assert ([carts[0]] + rest)[1..] == rest;
        [carts[0]] + rest
      else
        SubseqSkip(rest, carts);
        rest
  }

  function IdsOf(cs: seq<CartRow>): set<int> {
    set c | c in cs :: c.id
  }

  lemma {:induction false} NoCartRemoved(carts: seq<CartRow>)
    ensures CartsWithout(carts, {}) == carts
    decreases |carts|
  {
    if carts != [] {
      NoCartRemoved(carts[1..]);
      assert [carts[0]] + carts[1..] == carts;
    }
  }

  lemma {:induction false} NoLineRemoved(lines: seq<CartProductRow>)
    ensures LinesWithout(lines, {}) == lines
    decreases |lines|
  {
    if lines != [] {
      NoLineRemoved(lines[1..]);
      assert [lines[0]] + lines[1..] == lines;
    }
  }

  /**
   * `delete_expired_forgot_pass_tokens`. The two clock reads are
   * `nowTokens` and `nowCarts`; the configured lifetimes are `tokenTtl` and
   * `cartTtl`.
   */
  method DeleteExpired(db: Database, nowTokens: int, tokenTtl: int, nowCarts: int, cartTtl: int)
    modifies db`forgotPassTokens, db`carts, db`cartProducts
    ensures db.forgotPassTokens == TokensNewerThan(old(db.forgotPassTokens), nowTokens - tokenTtl)
    ensures var gone := IdsOf(ExpiredCarts(old(db.carts), nowCarts - cartTtl));
      db.carts == CartsWithout(old(db.carts), gone) && db.cartProducts == LinesWithout(old(db.cartProducts), gone)
  {
    db.forgotPassTokens := TokensNewerThan(db.forgotPassTokens, nowTokens - tokenTtl);
    var expired := ExpiredCarts(db.carts, nowCarts - cartTtl);
    ghost var carts0, lines0 := db.carts, db.cartProducts;
    NoCartRemoved(carts0);
    NoLineRemoved(lines0);
    assert IdsOf(expired[..0]) == {};
    var i := 0;
    while i < |expired|
      invariant 0 <= i <= |expired|
      invariant db.forgotPassTokens == TokensNewerThan(old(db.forgotPassTokens), nowTokens - tokenTtl)
      invariant db.carts == CartsWithout(carts0, IdsOf(expired[..i]))
      invariant db.cartProducts == LinesWithout(lines0, IdsOf(expired[..i]))
    {
      var id := expired[i].id;
      CartsWithoutTwice(carts0, IdsOf(expired[..i]), id);
      LinesWithoutTwice(lines0, IdsOf(expired[..i]), id);
      assert expired[..i + 1] == expired[..i] + [expired[i]];
      assert IdsOf(expired[..i + 1]) == IdsOf(expired[..i]) + {id};
      db.cartProducts := LinesWithout(db.cartProducts, {id});
      db.carts := CartsWithout(db.carts, {id});
      i := i + 1;
    }
    assert expired[..i] == expired;
  }

  predicate UniqueCartIds(carts: seq<CartRow>) {
    forall i, j :: 0 <= i < j < |carts| ==> carts[i].id != carts[j].id
  }

  /** With unique cart ids, a cart survives the sweep exactly when it has not expired. */
  lemma CartSurvivesIffNotExpired(carts: seq<CartRow>, threshold: int, c: CartRow)
    requires UniqueCartIds(carts) && c in carts
    ensures c in CartsWithout(carts, IdsOf(ExpiredCarts(carts, threshold))) <==> !Expired(c, threshold)
  {
    var gone := IdsOf(ExpiredCarts(carts, threshold));
    if c.id in gone {
      var d :| d in ExpiredCarts(carts, threshold) && d.id == c.id;
      var i :| 0 <= i < |carts| && carts[i] == c;
      var j :| 0 <= j < |carts| && carts[j] == d;
      assert i == j;
    } else {
      assert !Expired(c, threshold);
    }
  }

  /**
   * Carts owned by a user (no `uuid`) are never deleted, nor is a cart
   * modified exactly at the threshold; a token created exactly at its
   * threshold is deleted.
   */
  lemma SweepBoundaries(tokens: seq<TokenRow>, t: TokenRow, tokenThreshold: int,
                        carts: seq<CartRow>, c: CartRow, cartThreshold: int)
    requires t in tokens && t.creationTime == tokenThreshold
    requires UniqueCartIds(carts) && c in carts && (c.uuid.None? || c.lastModTime == cartThreshold)
    ensures t !in TokensNewerThan(tokens, tokenThreshold)
    ensures c in CartsWithout(carts, IdsOf(ExpiredCarts(carts, cartThreshold)))
  {
    CartSurvivesIffNotExpired(carts, cartThreshold, c);
  }

  /** A line survives exactly when no expired cart has its cart id: a deleted cart leaves no line behind. */
  lemma LineSurvivesIffCartKept(lines: seq<CartProductRow>, carts: seq<CartRow>, threshold: int, l: CartProductRow)
    ensures l in LinesWithout(lines, IdsOf(ExpiredCarts(carts, threshold))) <==>
      l in lines && forall c :: c in carts && c.id == l.cartId ==> !Expired(c, threshold)
  {
    var gone := IdsOf(ExpiredCarts(carts, threshold));
    if l.cartId in gone {
      var d :| d in ExpiredCarts(carts, threshold) && d.id == l.cartId;
      assert d in carts && Expired(d, threshold);
    }
  }

  /**
   * The reset-link handler and the sweep disagree at the deadline: a token
   * opened at `creationTime + ttl` still gets the new-password page, while a
   * sweep at that same instant, with the same lifetime, deletes it.
   */
  lemma HandlerAndSweepAtDeadline(tokens: seq<TokenRow>, t: TokenRow, ttl: int, now: int)
    requires t in tokens && Auth.FindToken(tokens, t.token) == Some(t)
    requires now == t.creationTime + ttl
    ensures Auth.ResetLinkOutcome(tokens, t.token, ttl, now) == Auth.NewPasswordPage(t.token)
    ensures t !in TokensNewerThan(tokens, now - ttl)
  {
  }
}
