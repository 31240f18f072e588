/** The product service: the catalog, tagged with positional ids, and the
    lookup of one product by an id given as text. The catalog file, once
    read and parsed, is the parameter `catalog`. */
module ProductService {
  import opened JsValues
  import opened JsParseInt

  /** `{ id: index, ...product }`: the index under "id", then every own
      property of the product, which overrides it (so a product that has its
      own "id" keeps it). */
  function WithId(product: Record, index: nat): Record {
    map["id" := Number(index as real)] + product
  }

  /** The id a tagged product is looked up by, `p.id`. */
  function IdOf(p: Record): JsValue {
    Get(p, "id")
  }

  /** `getProducts()`: the catalog in its order, each product tagged. */
  function GetProducts(catalog: seq<Record>): (r: seq<Record>)
    ensures |r| == |catalog|
    ensures forall i :: 0 <= i < |r| ==> r[i].Keys == catalog[i].Keys + {"id"}
    ensures forall i :: 0 <= i < |r| ==>
      r[i]["id"] == if "id" in catalog[i] then catalog[i]["id"] else Number(i as real)
    ensures forall i, k :: 0 <= i < |r| && k in catalog[i] ==> r[i][k] == catalog[i][k]
  {
    seq(|catalog|, i requires 0 <= i < |catalog| => WithId(catalog[i], i))
  }

  /** `products.find(p => p.id === id)`: the first product whose id is `id`. */
  function FindById(products: seq<Record>, id: JsValue): (r: Option<Record>)
    ensures r.None? <==> forall i :: 0 <= i < |products| ==> IdOf(products[i]) != id
    ensures r.Some? ==>
      exists i :: 0 <= i < |products| && products[i] == r.value && IdOf(products[i]) == id &&
        forall j :: 0 <= j < i ==> IdOf(products[j]) != id
  {
    if products == [] then None
    else if IdOf(products[0]) == id then Some(products[0])
    else
      var r := FindById(products[1..], id);
      assert forall j :: 1 <= j < |products| ==> products[j] == products[1..][j - 1];
      r
  }

  /** `getProductById(productId)`: None is `undefined`, for an id that
      `parseInt` reads as NaN and for one that no product carries. */
  function GetProductById(catalog: seq<Record>, productId: string): (r: Option<Record>)
    ensures r.Some? ==>
      ParseInt10(productId).Some? && r.value in GetProducts(catalog) &&
      IdOf(r.value) == Number(ParseInt10(productId).value as real)
  {
    match ParseInt10(productId)
    case None => None
    case Some(n) => FindById(GetProducts(catalog), Number(n as real))
  }

  /** No product of the catalog brings its own "id". */
  predicate NoOwnIds(catalog: seq<Record>) {
    forall i :: 0 <= i < |catalog| ==> "id" !in catalog[i]
  }

  // ---------------------------------------------------------------------
  // Properties

  /** Tagging loses nothing: removing "id" from a tagged product that had
      no id of its own gives the product back. */
  lemma UntagRestoresProduct(catalog: seq<Record>, i: nat)
    requires i < |catalog| && "id" !in catalog[i]
    ensures GetProducts(catalog)[i] - {"id"} == catalog[i]
  {
    var r := GetProducts(catalog)[i];
    assert (r - {"id"}).Keys == catalog[i].Keys;
  }

  /** An id that is not a number is not found. */
  lemma NaNIsNotFound(catalog: seq<Record>, productId: string)
    requires ParseInt10(productId).None?
    ensures GetProductById(catalog, productId).None?
  {
  }

  /** In a tagged catalog whose ids are the positions, each product
      carries its own position and nothing else. */
  lemma PositionalIds(catalog: seq<Record>, i: nat)
    requires NoOwnIds(catalog) && i < |catalog|
    ensures IdOf(GetProducts(catalog)[i]) == Number(i as real)
    ensures GetProducts(catalog)[i] == WithId(catalog[i], i)
  {
  }

  /** When ids come from the positions, looking up a position in range
      finds the product at that position. */
  lemma {:induction false} FindAtPosition(catalog: seq<Record>, n: nat)
    requires NoOwnIds(catalog) && n < |catalog|
    ensures FindById(GetProducts(catalog), Number(n as real)) == Some(WithId(catalog[n], n))
  {
    var products := GetProducts(catalog);
    var id := Number(n as real);
    PositionalIds(catalog, n);
    var r := FindById(products, id);
    var i :| 0 <= i < |products| && products[i] == r.value && IdOf(products[i]) == id &&
      forall j :: 0 <= j < i ==> IdOf(products[j]) != id;
    PositionalIds(catalog, i);
    assert Number(i as real) == Number(n as real);
    assert i == n;
  }

  /** When ids come from the positions, an id in range finds the product at
      that position. */
  lemma FoundAtIndex(catalog: seq<Record>, productId: string, n: nat)
    requires NoOwnIds(catalog) && n < |catalog|
    requires ParseInt10(productId) == Some(n)
    ensures GetProductById(catalog, productId) == Some(WithId(catalog[n], n))
  {
    FindAtPosition(catalog, n);
  }

  /** When ids come from the positions, a negative or out-of-range id finds
      nothing rather than some other product. */
  lemma {:induction false} OutOfRangeIsNotFound(catalog: seq<Record>, productId: string, n: int)
    requires NoOwnIds(catalog) && (n < 0 || n >= |catalog|)
    requires ParseInt10(productId) == Some(n)
    ensures GetProductById(catalog, productId).None?
  {
    var products := GetProducts(catalog);
    forall i | 0 <= i < |products|
      ensures IdOf(products[i]) != Number(n as real)
    {
      PositionalIds(catalog, i);
    }
  }

  /** End to end: the decimal text of a position, as a route parameter,
      finds the product at that position. */
  lemma DecimalIdFindsProduct(catalog: seq<Record>, n: nat)
    requires NoOwnIds(catalog) && n < |catalog|
    ensures GetProductById(catalog, Decimal(n)) == Some(WithId(catalog[n], n))
  {
    ParseDecimal(n, "", "");
    assert "" + Decimal(n) + "" == Decimal(n);
    FoundAtIndex(catalog, Decimal(n), n);
  }

  /** `find` stops at the first match: a record with the id sought that
      no other match precedes is the one returned. */
  lemma {:induction false} FindByIdIsFirst(products: seq<Record>, id: JsValue, i: nat)
    requires i < |products| && IdOf(products[i]) == id
    requires forall j :: 0 <= j < i ==> IdOf(products[j]) != id
    ensures FindById(products, id) == Some(products[i])
  {
    var r := FindById(products, id);
    var k :| 0 <= k < |products| && products[k] == r.value && IdOf(products[k]) == id &&
      forall j :: 0 <= j < k ==> IdOf(products[j]) != id;
    assert !(k < i) && !(i < k);
  }

  /** Among several products that carry the same id, the first one in
      catalog order is found. */
  lemma FirstOfDuplicatesIsFound(catalog: seq<Record>, productId: string, n: int, i: nat)
    requires ParseInt10(productId) == Some(n)
    requires i < |catalog| && IdOf(GetProducts(catalog)[i]) == Number(n as real)
    requires forall j :: 0 <= j < i ==> IdOf(GetProducts(catalog)[j]) != Number(n as real)
    ensures GetProductById(catalog, productId) == Some(GetProducts(catalog)[i])
  {
    FindByIdIsFirst(GetProducts(catalog), Number(n as real), i);
  }
}
