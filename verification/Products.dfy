/**
 The product entity (src/Domain/Entity/Product.php): a code, a status, the import
 date and twenty nullable descriptive attributes, with the feed-driven `create`, the
 partial-overwrite `update`, the two status changes and `toArray`.
 */
module Products {
  import opened Core
  import opened ProductCodes
  import opened ProductStatuses

  /** The twenty descriptive attributes, one per column of the products table. */
  datatype Attr =
    | Url | Creator | CreatedT | LastModifiedT | ProductName | Quantity | Brands
    | Categories | Labels | Cities | PurchasePlaces | Stores | IngredientsText | Traces
    | ServingSize | ServingQuantity | NutriscoreScore | NutriscoreGrade | MainCategory
    | ImageUrl

  /** The attributes in the order of the constructor's parameters and of `toArray`. */
  const AttrOrder: seq<Attr> :=
    [ Url, Creator, CreatedT, LastModifiedT, ProductName, Quantity, Brands, Categories,
      Labels, Cities, PurchasePlaces, Stores, IngredientsText, Traces, ServingSize,
      ServingQuantity, NutriscoreScore, NutriscoreGrade, MainCategory, ImageUrl ]

  const AllAttrs: set<Attr> := set a | a in AttrOrder

  lemma AllAttrsComplete(a: Attr)
    ensures a in AllAttrs
  {
    assert a in AttrOrder;
  }

  /** The array key of each attribute, in the feed payload and in `toArray`. */
  function Key(a: Attr): string {
    match a
    case Url => "url"
    case Creator => "creator"
    case CreatedT => "created_t"
    case LastModifiedT => "last_modified_t"
    case ProductName => "product_name"
    case Quantity => "quantity"
    case Brands => "brands"
    case Categories => "categories"
    case Labels => "labels"
    case Cities => "cities"
    case PurchasePlaces => "purchase_places"
    case Stores => "stores"
    case IngredientsText => "ingredients_text"
    case Traces => "traces"
    case ServingSize => "serving_size"
    case ServingQuantity => "serving_quantity"
    case NutriscoreScore => "nutriscore_score"
    case NutriscoreGrade => "nutriscore_grade"
    case MainCategory => "main_category"
    case ImageUrl => "image_url"
  }

  /** A value for every attribute; `JNull` is a null column. */
  type Attributes = m: map<Attr, Json> | m.Keys == AllAttrs
    witness map a | a in AllAttrs :: JNull

  function At(m: Attributes, a: Attr): Json {
    AllAttrsComplete(a);
    m[a]
  }

  /** A decoded feed record or request body, as far as the entity reads it: the `code`
      key after its int cast (`None` when the key is missing or null) and the values of
      the attribute keys that are present. Values arrive already typed. */
  datatype Payload = Payload(code: Option<int>, fields: map<Attr, Json>)

  /** PHP's `isset($data[key])`: the key is present and its value is not null. */
  predicate IsSet(d: Payload, a: Attr) {
    a in d.fields && d.fields[a] != JNull
  }

  /** PHP's `$data[key] ?? null`. */
  function Lookup(d: Payload, a: Attr): (v: Json)
    ensures IsSet(d, a) ==> v == d.fields[a]
    ensures !IsSet(d, a) ==> v == JNull
  {
    if IsSet(d, a) then d.fields[a] else JNull
  }

  /** The attributes `update` can overwrite: all but the two feed timestamps. */
  predicate Updatable(a: Attr) {
    a != CreatedT && a != LastModifiedT
  }

  datatype Product = Product(
    code: ProductCode,
    status: ProductStatus,
    importedDate: Timestamp,
    attrs: Attributes)

  /** `Product::create($code, $data)`: a draft stamped with the current time, each
      attribute taken from the payload or null. */
  function Create(code: ProductCode, d: Payload, now: Timestamp): (p: Product)
    ensures p.code == code && p.status == Draft && p.importedDate == now
    ensures forall a :: At(p.attrs, a) == Lookup(d, a)
  {
    Product(code, Draft, now, map a | a in AllAttrs :: Lookup(d, a))
  }

  /** `$product->update($data)`: an updatable attribute takes the payload's value when
      its key is set; everything else is kept. */
  function Update(p: Product, d: Payload): (q: Product)
    ensures q.code == p.code && q.status == p.status && q.importedDate == p.importedDate
    ensures forall a :: IsSet(d, a) && Updatable(a) ==> At(q.attrs, a) == d.fields[a]
    ensures forall a :: !(IsSet(d, a) && Updatable(a)) ==> At(q.attrs, a) == At(p.attrs, a)
  {
    var attrs: Attributes :=
      map a | a in AllAttrs :: if Updatable(a) && IsSet(d, a) then d.fields[a] else p.attrs[a];
    p.(attrs := attrs)
  }

  /** `publish()`: only the status changes. */
  function Publish(p: Product): (q: Product)
    ensures q.status == Published
    ensures q.code == p.code && q.importedDate == p.importedDate && q.attrs == p.attrs
  {
    p.(status := Published)
  }

  /** `moveToTrash()`: only the status changes. */
  function MoveToTrash(p: Product): (q: Product)
    ensures q.status == Trash
    ensures q.code == p.code && q.importedDate == p.importedDate && q.attrs == p.attrs
  {
    p.(status := Trash)
  }

  /** The attribute entries of `toArray`, in constructor order. */
  function AttrEntries(m: Attributes, order: seq<Attr>): (r: seq<(string, Json)>)
    ensures |r| == |order|
    ensures forall i :: 0 <= i < |order| ==> r[i] == (Key(order[i]), At(m, order[i]))
  {
    if order == [] then [] else [(Key(order[0]), At(m, order[0]))] + AttrEntries(m, order[1..])
  }

  /** The fixed leading part of a product array: code, status and import date. */
  function Heading(code: int, status: string, imported: Timestamp): seq<(string, Json)> {
    [("code", JInt(code)), ("status", JString(status)), ("imported_t", JTime(imported))]
  }

  /** `toArray()`. */
  function ToArray(p: Product): (r: seq<(string, Json)>)
    ensures |r| == 3 + |AttrOrder|
    ensures r[..3] == Heading(p.code.value, Value(p.status), p.importedDate)
    ensures forall i :: 0 <= i < |AttrOrder| ==> r[3 + i] == (Key(AttrOrder[i]), At(p.attrs, AttrOrder[i]))
  {
    var h := Heading(p.code.value, Value(p.status), p.importedDate);
    var t := AttrEntries(p.attrs, AttrOrder);
    assert (h + t)[..3] == h;
    h + t
  }

  // ----- properties -----

  /** Distinct attributes have distinct keys. */
  lemma KeyInjective(a: Attr, b: Attr)
    requires Key(a) == Key(b)
    ensures a == b
  {
  }

  lemma AttrOrderDistinct()
    ensures forall i, j :: 0 <= i < j < |AttrOrder| ==> AttrOrder[i] != AttrOrder[j]
  {
  }

  /** No attribute key clashes with the three leading keys. */
  lemma KeyNotHeading(a: Attr)
    ensures Key(a) != "code" && Key(a) != "status" && Key(a) != "imported_t"
  {
  }

  /** The keys of `toArray` are pairwise distinct, so each column appears exactly once. */
  lemma ToArrayKeysDistinct(p: Product)
    ensures forall i, j :: 0 <= i < j < |ToArray(p)| ==> ToArray(p)[i].0 != ToArray(p)[j].0
  {
    var r := ToArray(p);
    forall i, j | 0 <= i < j < |r|
      ensures r[i].0 != r[j].0
    {
      if 3 <= i {
        AttrOrderDistinct();
        if Key(AttrOrder[i - 3]) == Key(AttrOrder[j - 3]) {
          KeyInjective(AttrOrder[i - 3], AttrOrder[j - 3]);
        }
      } else {
        assert r[i] == r[..3][i];
        if 3 <= j {
          KeyNotHeading(AttrOrder[j - 3]);
        } else {
          assert r[j] == r[..3][j];
        }
      }
    }
  }

  /** Applying the same payload twice is the same as applying it once. */
  lemma UpdateIdempotent(p: Product, d: Payload)
    ensures Update(Update(p, d), d) == Update(p, d)
  {
    var once := Update(p, d);
    var twice := Update(once, d);
    assert twice.attrs == once.attrs by {
      forall a | a in AllAttrs
        ensures twice.attrs[a] == once.attrs[a]
      {
        assert At(twice.attrs, a) == At(once.attrs, a);
      }
    }
  }

  /** Re-importing an unchanged record is a no-op: updating a product created from a
      payload with that same payload leaves it as it was. */
  lemma UpdateOfCreated(code: ProductCode, d: Payload, now: Timestamp)
    ensures Update(Create(code, d, now), d) == Create(code, d, now)
  {
    var p := Create(code, d, now);
    var q := Update(p, d);
    assert q.attrs == p.attrs by {
      forall a | a in AllAttrs
        ensures q.attrs[a] == p.attrs[a]
      {
        assert At(q.attrs, a) == At(p.attrs, a);
      }
    }
  }

  /** `toArray` loses nothing: two products with the same array are the same product. */
  lemma ToArrayInjective(p: Product, q: Product)
    requires ToArray(p) == ToArray(q)
    ensures p == q
  {
    assert p.code.value == q.code.value;
    assert Value(p.status) == Value(q.status);
    EqualsIsSameStatus(p.status, q.status);
    assert p.attrs == q.attrs by {
      forall a | a in AllAttrs
        ensures p.attrs[a] == q.attrs[a]
      {
        var i :| 0 <= i < |AttrOrder| && AttrOrder[i] == a;
        assert ToArray(p)[3 + i] == ToArray(q)[3 + i];
        assert At(p.attrs, a) == At(q.attrs, a);
      }
    }
  }
}
