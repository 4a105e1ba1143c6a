/** The catalogue signature behind the product list's ETag: a string ending in a revision
    number that database triggers advance.  It changes exactly when what a customer can see
    may have changed. */
module Catalog {

  /** A product row; `details` stands for every column but the three named ones. */
  datatype Row = Row(published: bool, stock: nat, updatedAt: string, details: string)

  type Products = map<int, Row>

  datatype Shop = Shop(products: Products, catalogRev: nat, reviewsRev: string)

  /** The statements that write a product row, and the setting a moderated review advances. */
  datatype Statement =
    | Insert(id: int, row: Row)
    | Update(id: int, row: Row)
    | Delete(id: int)
    | SetReviewsRev(text: string)

  /** The WHEN clauses of the three triggers, for a statement that changes a row. */
  predicate Fires(products: Products, s: Statement) {
    match s
    case Insert(id, row) => id !in products && row.published
    case Update(id, row) => id in products && (row.published || products[id].published)
    case Delete(id) => id in products && products[id].published
    case SetReviewsRev(_) => false
  }

  function Written(products: Products, s: Statement): Products {
    match s
    case Insert(id, row) => if id in products then products else products[id := row]
    case Update(id, row) => if id in products then products[id := row] else products
    case Delete(id) => products - {id}
    case SetReviewsRev(_) => products
  }

  function Execute(shop: Shop, s: Statement): Shop {
    Shop(Written(shop.products, s),
         if Fires(shop.products, s) then shop.catalogRev + 1 else shop.catalogRev,
         if s.SetReviewsRev? then s.text else shop.reviewsRev)
  }

  function After(shop: Shop, run: seq<Statement>): Shop {
    if run == [] then shop else Execute(After(shop, run[..|run|-1]), run[|run|-1])
  }

  /** What a customer can see. */
  function Visible(products: Products): Products {
    map id | id in products && products[id].published :: products[id]
  }

  function Digits(n: nat): (s: string)
    ensures s != []
    ensures forall c | c in s :: '0' <= c <= '9'
  {
    if n < 10 then [('0' as int + n) as char] else Digits(n / 10) + [('0' as int + n % 10) as char]
  }

  lemma {:induction false} DigitsInjective(x: nat, y: nat)
    requires Digits(x) == Digits(y)
    ensures x == y
  {
    var s := Digits(x);
    assert s[|s|-1] == Digits(y)[|s|-1];
    if x >= 10 && y >= 10 {
      assert Digits(x / 10) == s[..|s|-1] == Digits(y / 10);
      DigitsInjective(x / 10, y / 10);
    }
  }

  /** `summary` is the first part, the count, latest edit and stock total of the visible rows:
      whatever it is, it depends on those rows only. */
  function Signature(summary: Products -> string, shop: Shop): string {
    summary(Visible(shop.products)) + ".r" + shop.reviewsRev + ".c" + Digits(shop.catalogRev)
  }

  /** The revision can be read off the end of a signature. */
  lemma LastDigits(a: string, b: string, x: nat, y: nat)
    requires a + ".c" + Digits(x) == b + ".c" + Digits(y)
    ensures x == y && a == b
  {
    var s, dx, dy := a + ".c" + Digits(x), Digits(x), Digits(y);
    assert s[|s|-1-|dx|] == 'c' && s[|s|-1-|dy|] == 'c';
    assert forall i | |s| - |dx| <= i < |s| :: s[i] in dx;
    assert forall i | |s| - |dy| <= i < |s| :: s[i] in dy;
    assert |dx| == |dy|;
    assert dx == s[|s|-|dx|..] == dy;
    assert a == s[..|s|-|dx|-2] == b;
    DigitsInjective(x, y);
  }

  /** The statement writes a row: it inserts a new one, or updates or deletes one that is there. */
  predicate Writes(products: Products, s: Statement) {
    !s.SetReviewsRev? && (s.Insert? <==> s.id !in products)
  }

  /** It writes a row that a customer can see before or after it. */
  predicate Touches(products: Products, s: Statement) {
    && Writes(products, s)
    && (s.id in Visible(products) || s.id in Visible(Written(products, s)))
  }

  /** The triggers fire exactly for such statements: not for a write to a draft that stays one. */
  lemma FiresIffTouches(products: Products, s: Statement)
    ensures Fires(products, s) <==> Touches(products, s)
  {
  }

  /** Some statement of the run wrote a row that was visible before or after it. */
  ghost predicate TouchesVisible(shop: Shop, run: seq<Statement>) {
    exists k | 0 <= k < |run| :: Touches(After(shop, run[..k]).products, run[k])
  }

  lemma StepVisible(shop: Shop, s: Statement)
    requires !Touches(shop.products, s)
    ensures Visible(Execute(shop, s).products) == Visible(shop.products)
  {
  }

  /** Editing a draft without publishing it leaves the revision, and with it every cached list. */
  lemma DraftEditKeepsSignature(summary: Products -> string, shop: Shop, id: int, row: Row)
    requires id in shop.products && !shop.products[id].published && !row.published
    ensures Signature(summary, Execute(shop, Update(id, row))) == Signature(summary, shop)
    ensures Execute(shop, Update(id, row)).products == shop.products[id := row]
  {
    StepVisible(shop, Update(id, row));
  }

  /** The revision advances over a run exactly when it touches something visible; a run that
      does not leaves the visible rows as they are. */
  lemma {:induction false} RevisionTells(shop: Shop, run: seq<Statement>)
    ensures After(shop, run).catalogRev >= shop.catalogRev
    ensures After(shop, run).catalogRev == shop.catalogRev <==> !TouchesVisible(shop, run)
    ensures !TouchesVisible(shop, run) ==> Visible(After(shop, run).products) == Visible(shop.products)
  {
    hide Fires, Written, Visible, Touches;
    if run != [] {
      var n := |run| - 1;
      RevisionTells(shop, run[..n]);
      FiresIffTouches(After(shop, run[..n]).products, run[n]);
      forall k | 0 <= k < n ensures run[..n][..k] == run[..k] {}
      if TouchesVisible(shop, run[..n]) {
        var k :| 0 <= k < n && Touches(After(shop, run[..n][..k]).products, run[..n][k]);
        assert Touches(After(shop, run[..k]).products, run[k]);
      } else if Touches(After(shop, run[..n]).products, run[n]) {
      } else {
        StepVisible(After(shop, run[..n]), run[n]);
        forall k | 0 <= k < |run| ensures !Touches(After(shop, run[..k]).products, run[k]) {
          if k < n { assert !Touches(After(shop, run[..n][..k]).products, run[..n][k]); }
        }
      }
    }
  }

  /** The signature is the same after a run exactly when the run touched nothing visible and
      left the reviews' revision where it was.  In particular editing drafts keeps it, and
      publishing or hiding a product changes it. */
  lemma SignatureUnchangedIff(summary: Products -> string, shop: Shop, run: seq<Statement>)
    ensures Signature(summary, After(shop, run)) == Signature(summary, shop) <==>
            !TouchesVisible(shop, run) && After(shop, run).reviewsRev == shop.reviewsRev
  {
    var after := After(shop, run);
    RevisionTells(shop, run);
    if Signature(summary, after) == Signature(summary, shop) {
      var a := summary(Visible(after.products)) + ".r" + after.reviewsRev;
      var b := summary(Visible(shop.products)) + ".r" + shop.reviewsRev;
      LastDigits(a, b, after.catalogRev, shop.catalogRev);
      var k := |summary(Visible(shop.products))| + 2;
      assert after.reviewsRev == a[k..] && shop.reviewsRev == b[k..];
    }
  }

  /** Two moments with one signature show the same products. */
  lemma SameSignatureSameProducts(summary: Products -> string, shop: Shop, run: seq<Statement>)
    requires Signature(summary, After(shop, run)) == Signature(summary, shop)
    ensures Visible(After(shop, run).products) == Visible(shop.products)
  {
    SignatureUnchangedIff(summary, shop, run);
    RevisionTells(shop, run);
  }
}
