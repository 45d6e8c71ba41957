/** How a category's products are sized (the `SizeType` enum). Kept in a
    module of its own because its first member is called `None`. */
module Sizes {
  datatype SizeType = None | Letter | Number
}

/** The catalogue and vendor store the four services share: one table per
    entity, keyed by the generated id, with the identity counter of each
    table. */
module Store {
  import opened Common
  import Sizes

  /** A category row, with the size fields the category service reads and
      writes. */
  datatype Category = Category(
    id: int,
    schoolId: Int32,
    adminId: Guid,
    name: string,
    hasSizeVariants: bool,
    sizeType: Sizes.SizeType,
    availableSizes: Option<string>,
    imageUrl: Option<string>,
    isActive: bool,
    createdAt: Timestamp)

  /** A category attribute (a name and its list of values, e.g. "Colour"). */
  datatype CategoryAttribute = CategoryAttribute(
    id: int,
    schoolId: Int32,
    adminId: Guid,
    name: string,
    values: seq<string>,
    isActive: bool,
    createdAt: Timestamp)

  datatype Product = Product(
    id: int,
    schoolId: Int32,
    adminId: Guid,
    name: string,
    productCode: string,
    categoryId: int,
    hasVariants: bool,
    mrp: Option<Money>,
    purchasePrice: Option<Money>,
    quantity: Option<Int32>,
    reorderLevel: Option<Int32>,
    remarks: Option<string>,
    isActive: bool,
    createdAt: Timestamp)

  /** The six fields a product variant is created or overwritten with. */
  datatype VariantFields = VariantFields(
    attributeId: Int32,
    attributeValue: string,
    mrp: Money,
    purchasePrice: Money,
    quantity: Int32,
    reorderLevel: Int32)

  datatype ProductVariant = ProductVariant(id: int, productId: int, fields: VariantFields)

  datatype ProductImage = ProductImage(id: int, productId: int, imageUrl: string, fileName: string)

  /** The contact and bank fields of a vendor, written on create and update. */
  datatype VendorDetails = VendorDetails(
    companyName: string,
    gstNumber: string,
    contactPerson: string,
    designation: Option<string>,
    phone: string,
    email: string,
    address: string,
    bankName: Option<string>,
    accountNumber: Option<string>,
    ifscCode: Option<string>,
    productsSupplied: string)

  datatype Vendor = Vendor(
    id: int,
    schoolId: Int32,
    adminId: Guid,
    vendorCode: Option<string>,
    details: VendorDetails,
    isActive: bool,
    createdAt: Timestamp)

  // ----- request bodies -----

  datatype CategoryCreate = CategoryCreate(
    schoolId: Int32, adminId: Guid, name: string,
    hasSizeVariants: bool, sizeType: Sizes.SizeType, availableSizes: Option<string>)

  datatype CategoryUpdate = CategoryUpdate(
    name: string, hasSizeVariants: bool, sizeType: Sizes.SizeType,
    availableSizes: Option<string>, isActive: bool)

  datatype AttributeCreate = AttributeCreate(attributeName: string, values: seq<string>, schoolId: Int32, adminId: Guid)

  datatype AttributeUpdate = AttributeUpdate(attributeName: string, values: seq<string>, isActive: bool)

  datatype VendorCreate = VendorCreate(schoolId: Int32, adminId: Guid, details: VendorDetails)

  datatype VendorUpdate = VendorUpdate(details: VendorDetails, isActive: bool)

  datatype ProductCreate = ProductCreate(
    name: string, schoolId: Int32, adminId: Guid, categoryId: int, hasVariants: bool,
    mrp: Option<Money>, purchasePrice: Option<Money>, quantity: Option<Int32>,
    reorderLevel: Option<Int32>, remarks: Option<string>,
    variants: Option<seq<VariantFields>>)

  /** A variant in an update request: `id` is `None` for a new variant. */
  datatype VariantUpdate = VariantUpdate(id: Option<int>, fields: VariantFields)

  datatype ProductUpdate = ProductUpdate(
    name: string, hasVariants: bool,
    mrp: Option<Money>, purchasePrice: Option<Money>, quantity: Option<Int32>,
    reorderLevel: Option<Int32>, remarks: Option<string>,
    variants: Option<seq<VariantUpdate>>, removeImageIds: Option<seq<int>>,
    schoolId: Int32, adminId: Guid)

  // ----- the store -----

  /** One table: its rows keyed by id, and the value its identity column
      gives the next row inserted. */
  datatype Table<R> = Table(rows: map<int, R>, nextId: int)

  /** A snapshot of every table. */
  datatype Tables = Tables(
    categories: Table<Category>,
    attributes: Table<CategoryAttribute>,
    products: Table<Product>,
    variants: Table<ProductVariant>,
    images: Table<ProductImage>,
    vendors: Table<Vendor>)

  // Each table's rows sit under their own ids, below the table's identity
  // counter, which starts at 1. One predicate per table, so that a change to
  // one table leaves the others' facts as they were.

  predicate CategoriesValid(t: Table<Category>) {
    1 <= t.nextId && forall k :: k in t.rows ==> t.rows[k].id == k && 1 <= k < t.nextId
  }

  predicate AttributesValid(t: Table<CategoryAttribute>) {
    1 <= t.nextId && forall k :: k in t.rows ==> t.rows[k].id == k && 1 <= k < t.nextId
  }

  /** Also: every product code has the two-character prefix the code
      generator cuts off. */
  predicate ProductsValid(t: Table<Product>) {
    && 1 <= t.nextId
    && (forall k :: k in t.rows ==> t.rows[k].id == k && 1 <= k < t.nextId)
    && (forall k :: k in t.rows ==> |t.rows[k].productCode| >= 2)
  }

  /** Also: every variant belongs to a stored product. */
  predicate VariantsValid(t: Table<ProductVariant>, products: map<int, Product>) {
    && 1 <= t.nextId
    && (forall k :: k in t.rows ==> t.rows[k].id == k && 1 <= k < t.nextId)
    && (forall k :: k in t.rows ==> t.rows[k].productId in products)
  }

  /** Also: every image belongs to a stored product. */
  predicate ImagesValid(t: Table<ProductImage>, products: map<int, Product>) {
    && 1 <= t.nextId
    && (forall k :: k in t.rows ==> t.rows[k].id == k && 1 <= k < t.nextId)
    && (forall k :: k in t.rows ==> t.rows[k].productId in products)
  }

  predicate VendorsValid(t: Table<Vendor>) {
    1 <= t.nextId && forall k :: k in t.rows ==> t.rows[k].id == k && 1 <= k < t.nextId
  }

  /** The store's invariant: every table valid, variants and images
      referring to the stored products. */
  predicate ValidTables(t: Tables) {
    && CategoriesValid(t.categories) && AttributesValid(t.attributes) && ProductsValid(t.products)
    && VariantsValid(t.variants, t.products.rows) && ImagesValid(t.images, t.products.rows)
    && VendorsValid(t.vendors)
  }

  /** The database the services share. Each service operation reads and
      assigns these tables; a transaction is a snapshot taken with `State`
      and put back with `Restore`. */
  class Db {
    var categories: Table<Category>
    var attributes: Table<CategoryAttribute>
    var products: Table<Product>
    var variants: Table<ProductVariant>
    var images: Table<ProductImage>
    var vendors: Table<Vendor>

    function State(): Tables
      reads this
    {
      Tables(categories, attributes, products, variants, images, vendors)
    }

    predicate Valid()
      reads this
    {
      ValidTables(State())
    }

    /** An empty database whose identity columns start at 1. */
    constructor ()
      ensures Valid()
      ensures State() == Tables(Table(map[], 1), Table(map[], 1), Table(map[], 1),
                                Table(map[], 1), Table(map[], 1), Table(map[], 1))
    {
      categories, attributes, products := Table(map[], 1), Table(map[], 1), Table(map[], 1);
      variants, images, vendors := Table(map[], 1), Table(map[], 1), Table(map[], 1);
    }

    /** Rolling a transaction back: every table returns to the snapshot. */
    method Restore(t: Tables)
      modifies this
      ensures State() == t
    {
      categories, attributes, products := t.categories, t.attributes, t.products;
      variants, images, vendors := t.variants, t.images, t.vendors;
    }
  }
}
