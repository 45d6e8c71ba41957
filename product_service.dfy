/** ProductService: a school's products with their `PRnnn` codes, their
    variants and their images. Unlike the other services, update checks the
    admin against the school the request names, and delete checks no admin
    at all. */
module ProductService {
  import opened Common
  import opened Numbers
  import opened Admin
  import opened Store
  import opened Listing
  import opened Codes
  import opened ProductVariants

  /** The message the product service gives for each refusal of the loose
      admin check. */
  function AdminMessage(d: Denial): string {
    match d
    case AdminNotFound => "Admin not found."
    case MissingData => "Invalid response from SMS."
    case WrongSchool(_) => "Admin not part of this school."
    case NoPermission => "Admin has no permission for product operations."
    case _ => "Admin validation failed."
  }

  const VARIANTS_REQUIRED := "At least one variant is required when HasVariants = true"
  const PRICES_REQUIRED := "MRP, PurchasePrice, and Quantity are required when HasVariants = false"

  /** The validation block shared by create and update: a product with
      variants needs at least one, a simple product needs its MRP, purchase
      price and quantity. */
  function ShapeError<V>(hasVariants: bool, variants: Option<seq<V>>,
                         mrp: Option<Money>, purchasePrice: Option<Money>, quantity: Option<Int32>): (e: Option<string>)
    ensures e.None? <==>
      (hasVariants && variants.Some? && |variants.value| > 0)
      || (!hasVariants && mrp.Some? && purchasePrice.Some? && quantity.Some?)
    ensures e.Some? && hasVariants ==> e.value == VARIANTS_REQUIRED
    ensures e.Some? && !hasVariants ==> e.value == PRICES_REQUIRED
  {
    if hasVariants then
      if variants.None? || |variants.value| == 0 then Some(VARIANTS_REQUIRED) else None
    else
      if mrp.None? || purchasePrice.None? || quantity.None? then Some(PRICES_REQUIRED) else None
  }

  // ----- images -----

  /** `/uploads/products/{schoolId}/{productId}/{fileName}`. */
  function ImageUrl(schoolId: Int32, productId: int, fileName: string): string {
    "/uploads/products/" + IntToString(schoolId) + "/" + IntToString(productId) + "/" + fileName
  }

  /** Within one product's folder, distinct files get distinct URLs. */
  lemma ImageUrlInjective(schoolId: Int32, productId: int, f1: string, f2: string)
    requires ImageUrl(schoolId, productId, f1) == ImageUrl(schoolId, productId, f2)
    ensures f1 == f2
  {
    var folder := "/uploads/products/" + IntToString(schoolId) + "/" + IntToString(productId) + "/";
    assert ImageUrl(schoolId, productId, f1) == folder + f1;
    assert ImageUrl(schoolId, productId, f2) == folder + f2;
    assert f1 == (folder + f1)[|folder|..];
    assert f2 == (folder + f2)[|folder|..];
  }

  lemma UnionUpdate<T>(a: map<int, T>, b: map<int, T>, k: int, v: T)
    ensures a + b[k := v] == (a + b)[k := v]
  {
  }

  /** The image row for the file at position `k - start`. */
  function ImageAt(productId: int, schoolId: Int32, fileNames: seq<string>, start: int, k: int): ProductImage
    requires start <= k < start + |fileNames|
  {
    var f := fileNames[k - start];
    ProductImage(k, productId, ImageUrl(schoolId, productId, f), f)
  }

  /** The image rows `SaveImagesAsync` adds, numbered from `start`. */
  function NewImages(productId: int, schoolId: Int32, fileNames: seq<string>, start: int): map<int, ProductImage> {
    map k | start <= k < start + |fileNames| :: ImageAt(productId, schoolId, fileNames, start, k)
  }

  /** Adding the image of one more file to `rows` plus the images so far
      gives `rows` plus the images of one file more. */
  lemma NewImagesSnoc(rows: map<int, ProductImage>, productId: int, schoolId: Int32, fileNames: seq<string>,
                      i: nat, start: int)
    requires i < |fileNames|
    ensures (rows + NewImages(productId, schoolId, fileNames[..i], start))[start + i :=
              ImageAt(productId, schoolId, fileNames, start, start + i)]
         == rows + NewImages(productId, schoolId, fileNames[..i + 1], start)
  {
    assert fileNames[..i + 1][i] == fileNames[i];
    UnionUpdate(rows, NewImages(productId, schoolId, fileNames[..i], start), start + i,
                ImageAt(productId, schoolId, fileNames, start, start + i));
  }

  /** Images numbered from the counter, for a stored product, keep the
      images table valid. */
  lemma NewImagesKeepValid(images: Table<ProductImage>, products: map<int, Product>, productId: int,
                           schoolId: Int32, fileNames: seq<string>)
    requires ImagesValid(images, products) && productId in products
    ensures ImagesValid(Table(images.rows + NewImages(productId, schoolId, fileNames, images.nextId),
                              images.nextId + |fileNames|), products)
  {
  }

  /** The `foreach` of SaveImagesAsync: one image row per file, numbered
      from `start`, added to `rows`. */
  method AppendImages(rows: map<int, ProductImage>, start: int, productId: int, schoolId: Int32, fileNames: seq<string>)
    returns (added: map<int, ProductImage>, next: int)
    ensures added == rows + NewImages(productId, schoolId, fileNames, start)
    ensures next == start + |fileNames|
  {
    added, next := rows, start;
    var i := 0;
    while i < |fileNames|
      invariant 0 <= i <= |fileNames|
      invariant added == rows + NewImages(productId, schoolId, fileNames[..i], start)
      invariant next == start + i
    {
      NewImagesSnoc(rows, productId, schoolId, fileNames, i, start);
      added := added[start + i := ImageAt(productId, schoolId, fileNames, start, start + i)];
      next := next + 1;
      i := i + 1;
    }
    assert fileNames[..i] == fileNames;
  }

  /** SaveImagesAsync: one image row per stored file, under the folder of
      `schoolId` and the product. The file names (a fresh GUID plus the
      upload's extension) are given. */
  method SaveImages(db: Db, productId: int, schoolId: Int32, fileNames: seq<string>)
    requires db.Valid() && productId in db.products.rows
    modifies db
    ensures db.Valid()
    ensures db.State() == old(db.State()).(images := Table(
      old(db.images.rows) + NewImages(productId, schoolId, fileNames, old(db.images.nextId)),
      old(db.images.nextId) + |fileNames|))
  {
    var added, next := AppendImages(db.images.rows, db.images.nextId, productId, schoolId, fileNames);
    NewImagesKeepValid(db.images, db.products.rows, productId, schoolId, fileNames);
    // the one SaveChangesAsync after the loop
    db.images := Table(added, next);
  }

  /** The product's images whose id the request lists, and only those. */
  function RemoveImages(images: map<int, ProductImage>, productId: int, removeIds: Option<seq<int>>)
    : (r: map<int, ProductImage>)
    ensures forall k :: k in r ==> k in images && r[k] == images[k]
    ensures forall k :: k in images && !(removeIds.Some? && images[k].productId == productId && k in removeIds.value) ==> k in r
    ensures removeIds.Some? ==> forall k :: k in r ==> r[k].productId != productId || k !in removeIds.value
  {
    if removeIds.None? then images
    else map k | k in images && !(images[k].productId == productId && k in removeIds.value) :: images[k]
  }

  // ----- variants of a new product -----

  /** The variant row for the entry at position `k - start`. */
  function VariantAt(productId: int, fs: seq<VariantFields>, start: int, k: int): ProductVariant
    requires start <= k < start + |fs|
  {
    ProductVariant(k, productId, fs[k - start])
  }

  /** The variant rows a create adds, numbered from `start`. */
  function NewVariants(productId: int, fs: seq<VariantFields>, start: int): map<int, ProductVariant> {
    map k | start <= k < start + |fs| :: VariantAt(productId, fs, start, k)
  }

  /** Adding the variant of one more entry to `rows` plus the variants so
      far gives `rows` plus the variants of one entry more. */
  lemma NewVariantsSnoc(rows: map<int, ProductVariant>, productId: int, fs: seq<VariantFields>, i: nat, start: int)
    requires i < |fs|
    ensures (rows + NewVariants(productId, fs[..i], start))[start + i := VariantAt(productId, fs, start, start + i)]
         == rows + NewVariants(productId, fs[..i + 1], start)
  {
    assert fs[..i + 1][i] == fs[i];
    UnionUpdate(rows, NewVariants(productId, fs[..i], start), start + i, VariantAt(productId, fs, start, start + i));
  }

  /** Variants numbered from the counter, for a stored product, keep the
      variants table valid. */
  lemma NewVariantsKeepValid(variants: Table<ProductVariant>, products: map<int, Product>, productId: int,
                             fs: seq<VariantFields>)
    requires VariantsValid(variants, products) && productId in products
    ensures VariantsValid(Table(variants.rows + NewVariants(productId, fs, variants.nextId),
                                variants.nextId + |fs|), products)
  {
  }

  /** The `foreach` of CreateAsync: one variant row per entry, in order,
      numbered from `start`, added to `rows`. */
  method AppendVariants(rows: map<int, ProductVariant>, start: int, productId: int, fs: seq<VariantFields>)
    returns (added: map<int, ProductVariant>, next: int)
    ensures added == rows + NewVariants(productId, fs, start)
    ensures next == start + |fs|
  {
    added, next := rows, start;
    var i := 0;
    while i < |fs|
      invariant 0 <= i <= |fs|
      invariant added == rows + NewVariants(productId, fs[..i], start)
      invariant next == start + i
    {
      NewVariantsSnoc(rows, productId, fs, i, start);
      added := added[start + i := VariantAt(productId, fs, start, start + i)];
      next := next + 1;
      i := i + 1;
    }
    assert fs[..i] == fs;
  }

  /** The variants of a new product, added by CreateAsync. */
  method AddVariants(db: Db, productId: int, fs: seq<VariantFields>)
    requires db.Valid() && productId in db.products.rows
    modifies db
    ensures db.Valid()
    ensures db.State() == old(db.State()).(variants := Table(
      old(db.variants.rows) + NewVariants(productId, fs, old(db.variants.nextId)),
      old(db.variants.nextId) + |fs|))
  {
    var added, next := AppendVariants(db.variants.rows, db.variants.nextId, productId, fs);
    NewVariantsKeepValid(db.variants, db.products.rows, productId, fs);
    // the one SaveChangesAsync after the loop
    db.variants := Table(added, next);
  }

  // ----- product codes -----

  /** `k` is the id of the school's product with the highest id, the one
      `OrderByDescending(x => x.Id).FirstOrDefault` returns. */
  predicate IsLatest(products: map<int, Product>, schoolId: Int32, k: int) {
    && k in products && products[k].schoolId == schoolId
    && forall j :: j in products && products[j].schoolId == schoolId ==> j <= k
  }

  /** The loop state of the search for the latest product: `latest` is the
      school's highest id among the keys `done`, `None` when there is none. */
  predicate LatestAmong(products: map<int, Product>, schoolId: Int32, done: set<int>, latest: Option<int>) {
    match latest
    case None => forall k :: k in done && k in products ==> products[k].schoolId != schoolId
    case Some(l) =>
      && l in done && l in products && products[l].schoolId == schoolId
      && forall j :: j in done && j in products && products[j].schoolId == schoolId ==> j <= l
  }

  /** The query of GenerateProductCodeAsync: the id of the school's product
      with the highest id, `None` when the school has none. */
  method FindLatest(products: map<int, Product>, schoolId: Int32) returns (latest: Option<int>)
    ensures latest.None? <==> forall k :: k in products ==> products[k].schoolId != schoolId
    ensures latest.Some? ==> IsLatest(products, schoolId, latest.value)
  {
    var pending := products.Keys;
    ghost var done: set<int> := {};
    latest := None;
    while pending != {}
      invariant pending <= products.Keys && done == products.Keys - pending
      invariant LatestAmong(products, schoolId, done, latest)
      decreases pending
    {
      var k := Pick(pending);
      if products[k].schoolId == schoolId && (latest.None? || k > latest.value) {
        latest := Some(k);
      }
      pending := pending - {k};
      done := done + {k};
    }
    assert done == products.Keys;
  }

  /** GenerateProductCodeAsync: the code after the code of the school's
      latest product, `PR001` for a school without products. */
  method GenerateProductCode(db: Db, schoolId: Int32) returns (code: string)
    requires db.Valid()
    ensures |code| >= 5 && code[..2] == "PR"
    ensures (forall k :: k in db.products.rows ==> db.products.rows[k].schoolId != schoolId) ==> code == FIRST_PRODUCT_CODE
    ensures forall k :: IsLatest(db.products.rows, schoolId, k) ==> code == NextProductCode(Some(db.products.rows[k].productCode))
  {
    var products := db.products.rows;
    var latest := FindLatest(products, schoolId);
    if latest.None? {
      code := NextProductCode(None);
    } else {
      var l := latest.value;
      assert |products[l].productCode| >= 2;
      code := NextProductCode(Some(products[l].productCode));
      forall k | IsLatest(products, schoolId, k)
        ensures k == l
      {
      }
    }
  }

  // ----- the response -----

  datatype VariantView = VariantView(
    id: int, attributeId: Int32, attributeName: string, attributeValue: string,
    mrp: Money, purchasePrice: Money, quantity: Int32, reorderLevel: Int32)

  /** ProductResponseDto. The variants and images are keyed by their row id,
      since the response lists them in no order the source fixes. */
  datatype ProductView = ProductView(
    id: int, productCode: string, name: string, categoryId: int, categoryName: string,
    hasVariants: bool, status: string, remarks: Option<string>,
    mrp: Option<Money>, purchasePrice: Option<Money>, quantity: Option<Int32>, reorderLevel: Option<Int32>,
    variants: map<int, VariantView>, images: map<int, string>)

  /** The name of the category, or "" when it is gone. */
  function CategoryName(categories: map<int, Category>, id: int): string {
    if id in categories then categories[id].name else ""
  }

  /** The name of the attribute, or "" when it is gone. */
  function AttributeName(attributes: map<int, CategoryAttribute>, id: int): string {
    if id in attributes then attributes[id].name else ""
  }

  function VariantViewOf(attributes: map<int, CategoryAttribute>, v: ProductVariant): VariantView {
    var f := v.fields;
    VariantView(v.id, f.attributeId, AttributeName(attributes, f.attributeId), f.attributeValue,
                f.mrp, f.purchasePrice, f.quantity, f.reorderLevel)
  }

  /** The response's variants of product `pid`. */
  function VariantViews(t: Tables, pid: int): map<int, VariantView> {
    map k | k in t.variants.rows && t.variants.rows[k].productId == pid :: VariantViewOf(t.attributes.rows, t.variants.rows[k])
  }

  /** The response's image URLs of product `pid`. */
  function ImageUrls(t: Tables, pid: int): map<int, string> {
    map k | k in t.images.rows && t.images.rows[k].productId == pid :: t.images.rows[k].imageUrl
  }

  /** The response for product `p`: with its variants (GetAsync) or without
      them (GetAllAsync). */
  function View(t: Tables, p: Product, withVariants: bool): (v: ProductView)
    ensures v.id == p.id && v.productCode == p.productCode && v.name == p.name && v.categoryId == p.categoryId
    ensures v.hasVariants == p.hasVariants && v.remarks == p.remarks && v.mrp == p.mrp
    ensures v.purchasePrice == p.purchasePrice && v.quantity == p.quantity && v.reorderLevel == p.reorderLevel
    ensures p.isActive ==> v.status == "Active"
    ensures !p.isActive ==> v.status == "Inactive"
    ensures p.categoryId in t.categories.rows ==> v.categoryName == t.categories.rows[p.categoryId].name
    ensures p.categoryId !in t.categories.rows ==> v.categoryName == ""
    ensures !withVariants ==> v.variants == map[]
  {
    ProductView(
      p.id, p.productCode, p.name, p.categoryId, CategoryName(t.categories.rows, p.categoryId),
      p.hasVariants, if p.isActive then "Active" else "Inactive", p.remarks,
      p.mrp, p.purchasePrice, p.quantity, p.reorderLevel,
      if withVariants then VariantViews(t, p.id) else map[],
      ImageUrls(t, p.id))
  }

  /** The images of a product's response are the URLs of exactly its image
      rows; with variants, its variants are exactly its variant rows, each
      carrying that row's id, value, quantity and price. */
  lemma ViewRows(t: Tables, p: Product, withVariants: bool)
    ensures var v := View(t, p, withVariants);
      && (forall k :: k in v.images <==> k in t.images.rows && t.images.rows[k].productId == p.id)
      && (forall k :: k in v.images ==> v.images[k] == t.images.rows[k].imageUrl)
      && (withVariants ==> forall k :: k in v.variants <==> k in t.variants.rows && t.variants.rows[k].productId == p.id)
      && (forall k :: k in v.variants ==> v.variants[k] == VariantViewOf(t.attributes.rows, t.variants.rows[k]))
  {
  }

  /** Two stores that agree on product `pid`'s variant rows and on the
      attribute table give it the same variants in its response. */
  lemma VariantViewsAgree(t: Tables, t': Tables, pid: int)
    requires t'.attributes.rows == t.attributes.rows
    requires forall k :: (k in t'.variants.rows && t'.variants.rows[k].productId == pid)
                     <==> (k in t.variants.rows && t.variants.rows[k].productId == pid)
    requires forall k :: k in t'.variants.rows && t'.variants.rows[k].productId == pid ==> t'.variants.rows[k] == t.variants.rows[k]
    ensures VariantViews(t', pid) == VariantViews(t, pid)
  {
    var own, own' := VariantViews(t, pid), VariantViews(t', pid);
    forall k
      ensures k in own' <==> k in own
      ensures k in own ==> own'[k] == own[k]
    {
      if k in t.variants.rows && t.variants.rows[k].productId == pid {
        assert t'.variants.rows[k] == t.variants.rows[k];
      }
    }
  }

  /** Two stores that agree on product `pid`'s image rows give it the same
      images in its response. */
  lemma ImageUrlsAgree(t: Tables, t': Tables, pid: int)
    requires forall k :: (k in t'.images.rows && t'.images.rows[k].productId == pid)
                     <==> (k in t.images.rows && t.images.rows[k].productId == pid)
    requires forall k :: k in t'.images.rows && t'.images.rows[k].productId == pid ==> t'.images.rows[k] == t.images.rows[k]
    ensures ImageUrls(t', pid) == ImageUrls(t, pid)
  {
    var imgs, imgs' := ImageUrls(t, pid), ImageUrls(t', pid);
    forall k
      ensures k in imgs' <==> k in imgs
      ensures k in imgs ==> imgs'[k] == imgs[k]
    {
      if k in t.images.rows && t.images.rows[k].productId == pid {
        assert t'.images.rows[k] == t.images.rows[k];
      }
    }
  }

  /** A product's response depends on its own variant and image rows and on
      the category and attribute tables, and on nothing else. */
  lemma ViewDependsOnOwnRows(t: Tables, t': Tables, p: Product, withVariants: bool)
    requires t'.categories.rows == t.categories.rows && t'.attributes.rows == t.attributes.rows
    requires forall k :: (k in t'.variants.rows && t'.variants.rows[k].productId == p.id)
                     <==> (k in t.variants.rows && t.variants.rows[k].productId == p.id)
    requires forall k :: k in t'.variants.rows && t'.variants.rows[k].productId == p.id ==> t'.variants.rows[k] == t.variants.rows[k]
    requires forall k :: (k in t'.images.rows && t'.images.rows[k].productId == p.id)
                     <==> (k in t.images.rows && t.images.rows[k].productId == p.id)
    requires forall k :: k in t'.images.rows && t'.images.rows[k].productId == p.id ==> t'.images.rows[k] == t.images.rows[k]
    ensures View(t', p, withVariants) == View(t, p, withVariants)
  {
    VariantViewsAgree(t, t', p.id);
    ImageUrlsAgree(t, t', p.id);
  }

  /** GetAsync. */
  function Get(db: Db, id: int): (r: Response<ProductView>)
    reads db
    ensures r.success <==> id in db.products.rows
    ensures r.success ==> r.status == OK && r.message == None && r.data == Some(View(db.State(), db.products.rows[id], true))
    ensures !r.success ==> r == Failure(NOT_FOUND, "Product not found")
  {
    if id in db.products.rows then Response(true, OK, None, Some(View(db.State(), db.products.rows[id], true)))
    else Failure(NOT_FOUND, "Product not found")
  }

  /** The `foreach` of GetAllAsync: one response per product, in order,
      without their variants. */
  method Views(t: Tables, rows: seq<Product>) returns (views: seq<ProductView>)
    ensures |views| == |rows|
    ensures forall j :: 0 <= j < |rows| ==> views[j] == View(t, rows[j], false)
  {
    views := [];
    var i := 0;
    while i < |rows|
      invariant 0 <= i <= |rows| && |views| == i
      invariant forall j :: 0 <= j < i ==> views[j] == View(t, rows[j], false)
    {
      views := views + [View(t, rows[i], false)];
      i := i + 1;
    }
  }

  /** GetAllAsync: the school's products, newest id first, without their
      variants. */
  method GetAll(db: Db, schoolId: Int32) returns (r: Response<seq<ProductView>>)
    requires forall k :: k in db.products.rows ==> db.products.rows[k].id == k
    ensures r.success && r.status == OK && r.message == None && r.data.Some?
    ensures forall v :: v in r.data.value ==>
      v.id in db.products.rows && db.products.rows[v.id].schoolId == schoolId && v == View(db.State(), db.products.rows[v.id], false)
    ensures forall k :: k in db.products.rows && db.products.rows[k].schoolId == schoolId ==>
      exists i :: 0 <= i < |r.data.value| && r.data.value[i].id == k
    ensures forall i, j :: 0 <= i < j < |r.data.value| ==> r.data.value[i].id > r.data.value[j].id
  {
    var t := db.State();
    var ids, rows := ListWhereNewestFirst(t.products.rows, (p: Product) => p.schoolId == schoolId);
    var views := Views(t, rows);
    assert forall j :: 0 <= j < |views| ==> views[j].id == ids[j] && rows[j] == t.products.rows[ids[j]];
    forall k | k in t.products.rows && t.products.rows[k].schoolId == schoolId
      ensures exists i :: 0 <= i < |views| && views[i].id == k
    {
      var i :| 0 <= i < |ids| && ids[i] == k;
      assert views[i].id == k;
    }
    r := Response(true, OK, None, Some(views));
  }

  // ----- create -----

  /** A product stored under the counter keeps the tables valid. */
  lemma NewProductKeepsValid(t: Tables, p: Product)
    requires ValidTables(t) && p.id == t.products.nextId && |p.productCode| >= 2
    ensures ValidTables(t.(products := Table(t.products.rows[p.id := p], p.id + 1)))
  {
  }

  /** The transaction of CreateAsync: the product row, then its variants
      (only for a product with variants), then its images. */
  method StoreNewProduct(db: Db, p: Product, vs: seq<VariantFields>, imageNames: seq<string>)
    requires db.Valid() && p.id == db.products.nextId && |p.productCode| >= 2
    requires !p.hasVariants ==> vs == []
    modifies db
    ensures db.Valid()
    ensures db.State() == old(db.State()).(
      products := Table(old(db.products.rows)[p.id := p], p.id + 1),
      variants := Table(old(db.variants.rows) + NewVariants(p.id, vs, old(db.variants.nextId)),
                        old(db.variants.nextId) + |vs|),
      images := Table(old(db.images.rows) + NewImages(p.id, p.schoolId, imageNames, old(db.images.nextId)),
                      old(db.images.nextId) + |imageNames|))
  {
    ghost var t0 := db.State();
    NewProductKeepsValid(t0, p);
    db.products := Table(db.products.rows[p.id := p], p.id + 1);
    ghost var t1 := db.State();
    assert t1 == t0.(products := Table(t0.products.rows[p.id := p], p.id + 1));
    if p.hasVariants {
      AddVariants(db, p.id, vs);
    } else {
      assert t1.variants.rows + NewVariants(p.id, vs, t1.variants.nextId) == t1.variants.rows;
    }
    ghost var t2 := db.State();
    assert t2 == t1.(variants := Table(t1.variants.rows + NewVariants(p.id, vs, t1.variants.nextId),
                                       t1.variants.nextId + |vs|));
    SaveImages(db, p.id, p.schoolId, imageNames);
  }

  /** The product CreateAsync stores for a request that passed validation:
      id `pid`, code `code`, active. */
  function NewProduct(pid: int, dto: ProductCreate, code: string, now: Timestamp): Product {
    Product(pid, dto.schoolId, dto.adminId, dto.name, code, dto.categoryId, dto.hasVariants,
            dto.mrp, dto.purchasePrice, dto.quantity, dto.reorderLevel, dto.remarks, true, now)
  }

  /** The variants a create request stores: its list for a product with
      variants, none otherwise. */
  function CreatedVariants(dto: ProductCreate): seq<VariantFields> {
    if dto.hasVariants && dto.variants.Some? then dto.variants.value else []
  }

  /** The part of CreateAsync after validation: the product is stored with
      the next code of its school, then its variants and its images, and the
      response is that of GetAsync for the new product. */
  method AddProduct(db: Db, dto: ProductCreate, imageNames: seq<string>, now: Timestamp)
    returns (r: Response<ProductView>)
    requires db.Valid()
    modifies db
    ensures db.Valid()
    ensures var pid := old(db.products.nextId);
      && pid in db.products.rows
      && db.products.rows[pid] == NewProduct(pid, dto, db.products.rows[pid].productCode, now)
      && db.State() == old(db.State()).(
           products := Table(old(db.products.rows)[pid := db.products.rows[pid]], pid + 1),
           variants := Table(old(db.variants.rows) + NewVariants(pid, CreatedVariants(dto), old(db.variants.nextId)),
                             old(db.variants.nextId) + |CreatedVariants(dto)|),
           images := Table(old(db.images.rows) + NewImages(pid, dto.schoolId, imageNames, old(db.images.nextId)),
                           old(db.images.nextId) + |imageNames|))
      && r == Get(db, pid) && r.success && r.status == OK
    ensures var pid := old(db.products.nextId);
      (forall k :: k in old(db.products.rows) ==> old(db.products.rows[k]).schoolId != dto.schoolId) ==>
        db.products.rows[pid].productCode == FIRST_PRODUCT_CODE
    ensures var pid := old(db.products.nextId);
      forall k :: IsLatest(old(db.products.rows), dto.schoolId, k) ==>
        db.products.rows[pid].productCode == NextProductCode(Some(old(db.products.rows[k]).productCode))
    ensures IsLatest(db.products.rows, dto.schoolId, old(db.products.nextId))
  {
    var code := GenerateProductCode(db, dto.schoolId);
    var pid := db.products.nextId;
    var p := NewProduct(pid, dto, code, now);
    StoreNewProduct(db, p, CreatedVariants(dto), imageNames);
    r := Get(db, pid);
  }

  /** CreateAsync: the admin, the category (of the same school) and the
      shape of the request are checked in that order before anything is
      stored. */
  method Create(db: Db, users: UserDirectory, dto: ProductCreate, imageNames: seq<string>, now: Timestamp)
    returns (r: Response<ProductView>)
    requires db.Valid()
    modifies db
    ensures db.Valid()
    ensures var verdict := LooseDecision(users(dto.adminId), dto.schoolId);
      var categoryFound := dto.categoryId in old(db.categories.rows) && old(db.categories.rows[dto.categoryId]).schoolId == dto.schoolId;
      var shape := ShapeError(dto.hasVariants, dto.variants, dto.mrp, dto.purchasePrice, dto.quantity);
      && (verdict.Denied? ==>
            r == Failure(FORBIDDEN, AdminMessage(verdict.reason)) && db.State() == old(db.State()))
      && (verdict.Allowed? && !categoryFound ==>
            r == Failure(NOT_FOUND, "Category not found") && db.State() == old(db.State()))
      && (verdict.Allowed? && categoryFound && shape.Some? ==>
            r == Failure(UNPROCESSABLE, shape.value) && db.State() == old(db.State()))
      && (verdict.Allowed? && categoryFound && shape.None? ==>
            var pid := old(db.products.nextId);
            && pid in db.products.rows
            && db.products.rows[pid] == NewProduct(pid, dto, db.products.rows[pid].productCode, now)
            && db.State() == old(db.State()).(
                 products := Table(old(db.products.rows)[pid := db.products.rows[pid]], pid + 1),
                 variants := Table(old(db.variants.rows) + NewVariants(pid, CreatedVariants(dto), old(db.variants.nextId)),
                                   old(db.variants.nextId) + |CreatedVariants(dto)|),
                 images := Table(old(db.images.rows) + NewImages(pid, dto.schoolId, imageNames, old(db.images.nextId)),
                                 old(db.images.nextId) + |imageNames|))
            && r == Get(db, pid) && r.success && r.status == OK)
    ensures r.success ==> var pid := old(db.products.nextId);
      && (forall k :: k in old(db.products.rows) ==> old(db.products.rows[k]).schoolId != dto.schoolId) ==>
           db.products.rows[pid].productCode == FIRST_PRODUCT_CODE
    ensures r.success ==> var pid := old(db.products.nextId);
      forall k :: IsLatest(old(db.products.rows), dto.schoolId, k) ==>
        db.products.rows[pid].productCode == NextProductCode(Some(old(db.products.rows[k]).productCode))
    ensures r.success ==> IsLatest(db.products.rows, dto.schoolId, old(db.products.nextId))
  {
    var verdict := LooseDecision(users(dto.adminId), dto.schoolId);
    if verdict.Denied? {
      return Failure(FORBIDDEN, AdminMessage(verdict.reason));
    }
    if !(dto.categoryId in db.categories.rows && db.categories.rows[dto.categoryId].schoolId == dto.schoolId) {
      return Failure(NOT_FOUND, "Category not found");
    }
    var shape := ShapeError(dto.hasVariants, dto.variants, dto.mrp, dto.purchasePrice, dto.quantity);
    if shape.Some? {
      return Failure(UNPROCESSABLE, shape.value);
    }
    r := AddProduct(db, dto, imageNames, now);
  }

  // ----- update -----

  /** The variants after an update: untouched for a simple product, else
      reconciled with the request's list (`None` when the list names an id
      that is not one of the product's variants). */
  function VariantsAfter(variants: map<int, ProductVariant>, next: int, id: int, dto: ProductUpdate): Option<Applied> {
    if !dto.hasVariants then Some(Applied(variants, next))
    else if dto.variants.None? then Reconcile(variants, id, [], next)
    else Reconcile(variants, id, dto.variants.value, next)
  }

  /** The reconciliation loop of UpdateAsync: remove the product's variants
      the list does not name, then overwrite or insert entry by entry. On an
      unknown id it stops with only the variants table changed, for the
      caller to roll back. */
  method ReconcileVariants(db: Db, pid: int, entries: seq<VariantUpdate>) returns (ok: bool)
    requires db.Valid() && pid in db.products.rows
    modifies db
    ensures ok <==> Reconcile(old(db.variants.rows), pid, entries, old(db.variants.nextId)).Some?
    ensures ok ==> db.Valid()
    ensures ok ==> var a := Reconcile(old(db.variants.rows), pid, entries, old(db.variants.nextId)).value;
      db.State() == old(db.State()).(variants := Table(a.variants, a.next))
    ensures db.State() == old(db.State()).(variants := db.variants)
  {
    var incoming := IncomingIds(entries);
    var owned := OwnedIds(db.variants.rows, pid);
    ghost var next0 := db.variants.nextId;
    db.variants := db.variants.(rows := RemoveUnlisted(db.variants.rows, pid, incoming));
    ghost var base := db.variants.rows;
    ApplyEntriesFailsIff(base, owned, pid, entries, next0);
    var i := 0;
    while i < |entries|
      invariant 0 <= i <= |entries|
      invariant ApplyEntries(base, owned, pid, entries[..i], next0) == Some(Applied(db.variants.rows, db.variants.nextId))
      invariant db.State() == old(db.State()).(variants := db.variants)
    {
      var e := entries[i];
      assert entries[..i + 1][..i] == entries[..i];
      if e.id.Some? {
        if e.id.value !in owned {
          assert e.id.value in incoming;
          return false;
        }
        db.variants := db.variants.(rows := db.variants.rows[e.id.value := ProductVariant(e.id.value, pid, e.fields)]);
      } else {
        var k := db.variants.nextId;
        db.variants := Table(db.variants.rows[k := ProductVariant(k, pid, e.fields)], k + 1);
      }
      i := i + 1;
    }
    assert entries[..i] == entries;
    ReconcileShape(old(db.variants.rows), pid, entries, next0);
    ok := true;
  }

  /** The image part of UpdateAsync: the listed images of the product go,
      then the new files are stored under `schoolId`. */
  method ReplaceImages(db: Db, productId: int, schoolId: Int32, removeIds: Option<seq<int>>, fileNames: seq<string>)
    requires db.Valid() && productId in db.products.rows
    modifies db
    ensures db.Valid()
    ensures db.State() == old(db.State()).(images := Table(
      RemoveImages(old(db.images.rows), productId, removeIds)
        + NewImages(productId, schoolId, fileNames, old(db.images.nextId)),
      old(db.images.nextId) + |fileNames|))
  {
    var kept := db.images.(rows := RemoveImages(db.images.rows, productId, removeIds));
    db.images := kept;
    SaveImages(db, productId, schoolId, fileNames);
  }

  /** The product's fields as an update request rewrites them. */
  function Updated(p: Product, dto: ProductUpdate): Product {
    p.(name := dto.name, hasVariants := dto.hasVariants, mrp := dto.mrp,
       purchasePrice := dto.purchasePrice, quantity := dto.quantity,
       reorderLevel := dto.reorderLevel, remarks := dto.remarks)
  }

  /** The transaction of UpdateAsync, for a request that passed validation:
      the product's fields, its variants (for a product with variants), the
      removal of the listed images of this product, and new images stored
      under the product's own school; an unknown variant id rolls all of it
      back. */
  method ApplyUpdate(db: Db, id: int, dto: ProductUpdate, newImageNames: seq<string>)
    returns (r: Response<ProductView>)
    requires db.Valid() && id in db.products.rows
    requires dto.hasVariants ==> dto.variants.Some?
    modifies db
    ensures db.Valid()
    ensures var after := VariantsAfter(old(db.variants.rows), old(db.variants.nextId), id, dto);
      && (after.None? ==> r == Failure(INTERNAL_ERROR, "Failed to update") && db.State() == old(db.State()))
      && (after.Some? ==>
            var p := old(db.products.rows[id]);
            && db.State() == old(db.State()).(
                 products := old(db.products).(rows := old(db.products.rows)[id := Updated(p, dto)]),
                 variants := Table(after.value.variants, after.value.next),
                 images := Table(RemoveImages(old(db.images.rows), id, dto.removeImageIds)
                                 + NewImages(id, p.schoolId, newImageNames, old(db.images.nextId)),
                                 old(db.images.nextId) + |newImageNames|))
            && r == Get(db, id) && r.success && r.status == OK)
  {
    var saved := db.State();
    var p := db.products.rows[id];
    db.products := db.products.(rows := db.products.rows[id := Updated(p, dto)]);
    if dto.hasVariants {
      var ok := ReconcileVariants(db, id, dto.variants.value);
      if !ok {
        db.Restore(saved);
        return Failure(INTERNAL_ERROR, "Failed to update");
      }
    }
    ReplaceImages(db, id, p.schoolId, dto.removeImageIds, newImageNames);
    r := Get(db, id);
  }

  /** UpdateAsync. Found by id, checked against the admin and school the
      request names and validated before the transaction. */
  method Update(db: Db, users: UserDirectory, id: int, dto: ProductUpdate, newImageNames: seq<string>)
    returns (r: Response<ProductView>)
    requires db.Valid()
    modifies db
    ensures db.Valid()
    ensures id !in old(db.products.rows) ==>
      r == Failure(NOT_FOUND, "Product not found") && db.State() == old(db.State())
    ensures id in old(db.products.rows) ==>
      var verdict := LooseDecision(users(dto.adminId), dto.schoolId);
      var shape := ShapeError(dto.hasVariants, dto.variants, dto.mrp, dto.purchasePrice, dto.quantity);
      var after := VariantsAfter(old(db.variants.rows), old(db.variants.nextId), id, dto);
      && (verdict.Denied? ==>
            r == Failure(FORBIDDEN, AdminMessage(verdict.reason)) && db.State() == old(db.State()))
      && (verdict.Allowed? && shape.Some? ==>
            r == Failure(UNPROCESSABLE, shape.value) && db.State() == old(db.State()))
      && (verdict.Allowed? && shape.None? && after.None? ==>
            r == Failure(INTERNAL_ERROR, "Failed to update") && db.State() == old(db.State()))
      && (verdict.Allowed? && shape.None? && after.Some? ==>
            var p := old(db.products.rows[id]);
            && db.State() == old(db.State()).(
                 products := old(db.products).(rows := old(db.products.rows)[id := Updated(p, dto)]),
                 variants := Table(after.value.variants, after.value.next),
                 images := Table(RemoveImages(old(db.images.rows), id, dto.removeImageIds)
                                 + NewImages(id, p.schoolId, newImageNames, old(db.images.nextId)),
                                 old(db.images.nextId) + |newImageNames|))
            && r == Get(db, id) && r.success && r.status == OK)
  {
    if id !in db.products.rows {
      return Failure(NOT_FOUND, "Product not found");
    }
    var verdict := LooseDecision(users(dto.adminId), dto.schoolId);
    if verdict.Denied? {
      return Failure(FORBIDDEN, AdminMessage(verdict.reason));
    }
    var shape := ShapeError(dto.hasVariants, dto.variants, dto.mrp, dto.purchasePrice, dto.quantity);
    if shape.Some? {
      return Failure(UNPROCESSABLE, shape.value);
    }
    r := ApplyUpdate(db, id, dto, newImageNames);
  }

  // ----- delete -----

  function VariantsOfOthers(variants: map<int, ProductVariant>, productId: int): map<int, ProductVariant> {
    map k | k in variants && variants[k].productId != productId :: variants[k]
  }

  function ImagesOfOthers(images: map<int, ProductImage>, productId: int): map<int, ProductImage> {
    map k | k in images && images[k].productId != productId :: images[k]
  }

  /** DeleteAsync: no admin check; the product goes with its variants and
      its images. */
  method Delete(db: Db, id: int) returns (r: Response<bool>)
    requires db.Valid()
    modifies db
    ensures db.Valid()
    ensures id !in old(db.products.rows) ==>
      r == Response(false, NOT_FOUND, Some("Product not found"), Some(false)) && db.State() == old(db.State())
    ensures id in old(db.products.rows) ==>
      && r == Response(true, OK, Some("Product deleted"), Some(true))
      && db.State() == old(db.State()).(
           products := old(db.products).(rows := old(db.products.rows) - {id}),
           variants := old(db.variants).(rows := VariantsOfOthers(old(db.variants.rows), id)),
           images := old(db.images).(rows := ImagesOfOthers(old(db.images.rows), id)))
    ensures r.success ==> Get(db, id) == Failure(NOT_FOUND, "Product not found")
    ensures forall q :: q in db.products.rows ==> Get(db, q) == old(Get(db, q))
  {
    if id !in db.products.rows {
      return Response(false, NOT_FOUND, Some("Product not found"), Some(false));
    }
    ghost var t := db.State();
    db.variants := db.variants.(rows := VariantsOfOthers(db.variants.rows, id));
    db.images := db.images.(rows := ImagesOfOthers(db.images.rows, id));
    db.products := db.products.(rows := db.products.rows - {id});
    forall q | q in db.products.rows
      ensures View(db.State(), db.products.rows[q], true) == View(t, t.products.rows[q], true)
    {
      ViewDependsOnOwnRows(t, db.State(), t.products.rows[q], true);
    }
    r := Response(true, OK, Some("Product deleted"), Some(true));
  }
}
