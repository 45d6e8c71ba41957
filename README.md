# EStore catalog and vendor services in Dafny

EStore is a school store back end. Its catalog and vendor services keep six tables:

- categories, with optional size variants and an image;
- category attributes, such as "Colour" with its list of values;
- products, each with a `PRnnn` code unique within its school;
- product variants;
- product images;
- vendors, each with a `Vnnn` code.

Every write first asks a remote user service whether the admin belongs to the school and holds the `super_admin` or `store_admin` role. Every operation answers with a `Result`: a success flag, an HTTP status code, a message and optional data.

The model keeps the store in one class, `Store.Db`. Its six tables are `Table` values: a map from id to row, plus the identity counter that numbers the next row. Each service operation is a method on that store:

- **Checks:** it runs the service's checks in the service's order (404, 403, 409, 422, as each service has them).
- **Result:** it returns the `Response` the service builds.
- **Postcondition:** the `ensures` states the whole new state, and that nothing else changes.
- **Refusals:** a refused request leaves the store exactly as it was.
- **Transactions:** a transaction that fails is rolled back to its snapshot.

**Admin check.** It is a pure decision over a parsed JSON answer. The answer comes from a `UserDirectory` parameter, which stands in for the HTTP call. The check exists in two variants:

- the strict one, in CategoryService and VendorService;
- the loose one, in ProductService and CategoryAttributeService.

They differ, and `Admin.StrictAcceptsWhatLooseRefuses` exhibits an admin that only the strict variant accepts.

**Store invariant.** `Db.Valid` holds for every table:

- every row sits under its own id, below the counter;
- every variant and image belongs to a stored product;
- every product code is at least two characters long.

Every write method preserves it. Name uniqueness (`Uniqueness.UniqueWithin`) and "each vendor's code is the code of its id" (`VendorService.CodesMatchIds`) are preserved as well.

**Where the model follows the code rather than the description of the design:**

- ProductService.UpdateAsync checks the admin and school named in the request, not those of the stored product.
- ProductService.DeleteAsync checks no admin at all.
- A successful product create answers with the 200 response of GetAsync, not 201.
- The category and vendor update checks a name against every other row of every school. The attribute update checks it only within the attribute's school.
- Failed deletes carry `Data = false`, since `Result<bool>.Data` is a plain `bool`.
- The category entity file declares no size or image fields, and the context file declares no table except categories. The model follows the fields and tables that the services read and write.

## Model

| member | source | states |
|---|---|---|
| Admin.StringRoles | EStore.Services/Repositories/CategoryService.cs:72-75 | the strict roles list holds exactly the strings among the array's elements, and is never longer than the array |
| Admin.GetStrings | EStore.Services/Repositories/ProductService.cs:54-57 | whenever no element makes `GetString` throw, the loose roles list has one entry per array element: the string for a JSON string, null for a JSON null |
| Admin.AnyAllowedStringRoles | EStore.Services/Repositories/CategoryService.cs:72-83 | the strict role test passes exactly when some string element of the array is an allowed role |
| Admin.GetStringsReads | EStore.Services/Repositories/ProductService.cs:54-61 | `GetString` succeeds exactly when every element is a string or null, and then the loose test passes exactly when some string element is an allowed role |
| Admin.StrictAllowedIff | EStore.Services/Repositories/CategoryService.cs:36-92 | the strict check accepts exactly when the admin id is not empty, the answer says success, and its data carries a numeric schoolId equal to the target and an allowed role |
| Admin.LooseAllowedIff | EStore.Services/Repositories/ProductService.cs:37-71 | the loose check accepts exactly when the answer grants access and every role element is a string or null |
| Admin.LooseImpliesStrict | EStore.Services/Repositories/CategoryAttributeService.cs:30-64 | for a non-empty admin id, whatever the loose check accepts the strict check accepts too |
| Admin.StrictAcceptsWhatLooseRefuses | EStore.Services/Repositories/VendorService.cs:64-72 | an answer whose roles contain a number next to `store_admin` is accepted by the strict check and refused by the loose one |
| Admin.FailClosed | EStore.Services/Repositories/VendorService.cs:76-82 | a failed call, or an answer that is not an object, is refused by both checks |
| Admin.LooseReasons | EStore.Services/Repositories/CategoryAttributeService.cs:37-63 | the loose check never refuses for an empty id, a missing schoolId or missing roles; those cases end in the caught exception |
| Admin.AllowedRoleIgnoresCase | EStore.Services/Repositories/ProductService.cs:59-61 | two role strings that differ only in the case of letters are both allowed or both not |
| Common.FoldCase | EStore.Services/Repositories/ProductService.cs:61 | `OrdinalIgnoreCase` maps a lower-case ASCII letter to its upper-case letter and leaves every other character alone |
| Numbers.DigitsShape | EStore.Services/Repositories/VendorService.cs:190 | `ToString` of a natural number has at least one digit and no leading zero |
| Numbers.PadLeftShape | EStore.Services/Repositories/VendorService.cs:190 | `PadLeft(width, c)` is `width` long, or the string itself when longer, and ends with the string |
| Numbers.TrimStart | EStore.Services/Repositories/ProductService.cs:89 | the white space `int.TryParse` skips: the result is a suffix of the input that does not start with white space |
| Numbers.TrimEnd | EStore.Services/Repositories/ProductService.cs:89 | the result is a prefix of the input that does not end with white space |
| Numbers.ValueOfDigits | EStore.Services/Repositories/VendorService.cs:190 | the digits `ToString` writes denote the number |
| Numbers.ValueOfLeadingZeros | EStore.Services/Repositories/VendorService.cs:190 | leading zeros do not change the value of a digit string |
| Numbers.PadLeftValue | EStore.Services/Repositories/VendorService.cs:190 | zero padding keeps a digit string all digits and keeps its value |
| Numbers.TrimDigits | EStore.Services/Repositories/ProductService.cs:89 | a string with no white space at either end is parsed as it stands |
| Numbers.ParseSignedDigits | EStore.Services/Repositories/ProductService.cs:89 | `int.TryParse` of an optional minus sign followed by digits gives the signed value when it fits in 32 bits |
| Numbers.Format000RoundTrip | EStore.Services/Repositories/ProductService.cs:89-93 | `int.TryParse` reads back every 32-bit number that `ToString("000")` writes |
| Numbers.IntToStringRoundTrip | EStore.Services/Repositories/ProductService.cs:248 | `int.TryParse` reads back every 32-bit number that `ToString()` writes |
| Numbers.Format000Small | EStore.Services/Repositories/ProductService.cs:93 | below 1000, `ToString("000")` is exactly the hundreds, tens and units digits |
| Numbers.PadLeftExamples | EStore.Services/Repositories/VendorService.cs:190 | 7 pads to "007", 1234 stays "1234", and -5 formats as "-005" |
| Ordering.OrdinalReflexive | EStore.Services/Repositories/CategoryService.cs:120 | ordinal order is reflexive |
| Ordering.OrdinalTotal | EStore.Services/Repositories/CategoryService.cs:120 | ordinal order is total |
| Ordering.OrdinalTransitive | EStore.Services/Repositories/VendorService.cs:90 | ordinal order is transitive |
| Ordering.OrdinalAntisymmetric | EStore.Services/Repositories/CategoryAttributeService.cs:72 | ordinal order is antisymmetric, so it orders names totally |
| Ordering.OrdinalCommonPrefix | EStore.Services/Repositories/ProductService.cs:93 | strings with a common prefix compare as their remainders do |
| Ordering.OrdinalCons | EStore.Services/Repositories/CategoryService.cs:120 | strings compare by their first characters first, then by the rest |
| Listing.InsertPosition | EStore.Services/Repositories/CategoryService.cs:120 | a row goes after every row whose key is not greater and before every later row |
| Listing.InsertSorted | EStore.Services/Repositories/CategoryService.cs:120 | inserting there keeps the rows sorted and puts the id and the row at the same place |
| Listing.ListWhere | EStore.Services/Repositories/CategoryService.cs:117-121 | `Where(keep).OrderBy(key)`: every kept row exactly once, under its id, sorted by key |
| Listing.InsertDescending | EStore.Services/Repositories/ProductService.cs:324 | inserting an id before the first smaller id keeps the ids strictly decreasing |
| Listing.ListWhereNewestFirst | EStore.Services/Repositories/ProductService.cs:320-325 | `Where(keep).OrderByDescending(Id)`: every kept row exactly once, ids strictly decreasing |
| Uniqueness.UniquePut | EStore.Services/Repositories/CategoryService.cs:191-197 | storing a row whose name is free in its school keeps names unique within each school |
| Uniqueness.UniqueRemove | EStore.Services/Repositories/CategoryService.cs:397 | removing a row keeps names unique |
| Codes.Increment32 | EStore.Services/Repositories/ProductService.cs:92 | `number++` adds one, and `int.MaxValue` wraps to `int.MinValue` |
| Codes.NextProductCode | EStore.Services/Repositories/ProductService.cs:84-93 | no latest code, or a blank one, gives `PR001`; every code starts with `PR` and has at least five characters |
| Codes.NextProductCodeNonBlank | EStore.Services/Repositories/ProductService.cs:87-93 | a non-blank code is followed by `PR` and its suffix's number plus one, written with at least three digits |
| Codes.NextProductCodeOfNumber | EStore.Services/Repositories/ProductService.cs:87-93 | when the text after the first two characters parses as `n`, the next code carries `n + 1` |
| Codes.NextProductCodeIncrements | EStore.Services/Repositories/ProductService.cs:87-93 | `PRn` is followed by `PR(n+1)` for every `n` below `int.MaxValue` |
| Codes.NextProductCodeUnparsable | EStore.Services/Repositories/ProductService.cs:89-90 | a suffix that does not parse counts as 0, so the next code is `PR001` |
| Codes.NextProductCodeOfNonNumeric | EStore.Services/Repositories/ProductService.cs:87-93 | any two-character prefix followed by a non-number is followed by `PR001` |
| Codes.FormatOne | EStore.Services/Repositories/ProductService.cs:93 | 1 formats as "001" |
| Codes.ThreeDigitsOrdered | EStore.Services/Repositories/ProductService.cs:93 | below 1000, a larger number formats to an ordinally greater string |
| Codes.NextProductCodeSortsAfter | EStore.Services/Repositories/ProductService.cs:87-93 | up to `PR999`, each new code sorts strictly after the one it follows |
| Codes.NthProductCode | EStore.Services/Repositories/ProductService.cs:76-94 | the code of a school's k-th product, created one after another, has at least five characters; its value is stated by ProductCodeSequence |
| Codes.FirstProductCode | EStore.Services/Repositories/ProductService.cs:84-85 | a school's first product gets `PR001` |
| Codes.ProductCodeStep | EStore.Services/Repositories/ProductService.cs:87-93 | if the (k-1)-th code is `PR(k-1)`, the k-th is `PRk` |
| Codes.ProductCodeSequence | EStore.Services/Repositories/ProductService.cs:76-94 | sequential creation numbers a school's products `PR001`, `PR002`, ..., `PRk` |
| Codes.VendorCodeRoundTrip | EStore.Services/Repositories/VendorService.cs:190 | the digits of a vendor code parse back to the vendor's id |
| Codes.VendorCodeInjective | EStore.Services/Repositories/VendorService.cs:190 | distinct ids get distinct vendor codes |
| Codes.VendorCodeExamples | EStore.Services/Repositories/VendorService.cs:190 | id 7 gets "V007" and id 1234 gets "V1234" |
| Store.Db.constructor | EStore.Entity/Models/ApplicationDbContext.cs:7-10 | an empty store whose identity counters start at 1 satisfies the invariant |
| Store.Db.Restore | EStore.Services/Repositories/ProductService.cs:493-497 | a rollback puts every table back to the snapshot |
| CategoryService.CheckSizes | EStore.Services/Repositories/CategoryService.cs:199-224 | 422 exactly when size variants are on and the size type is None or the sizes are blank, with the service's message; without size variants the fields are cleared |
| CategoryService.CheckSizesConsistent | EStore.Services/Repositories/CategoryService.cs:297-319 | whatever the request says, the sizes that pass are consistent: none without size variants, a type and non-blank sizes with them |
| CategoryService.CheckSizesIdempotent | EStore.Services/Repositories/CategoryService.cs:202-224 | sizes that are already consistent pass unchanged |
| CategoryService.GetById | EStore.Services/Repositories/CategoryService.cs:146-177 | 200 with the stored row exactly when the id exists, otherwise 404 "Category not found" |
| CategoryService.GetAll | EStore.Services/Repositories/CategoryService.cs:115-142 | exactly the school's categories, each once, ordered by name |
| CategoryService.Create | EStore.Services/Repositories/CategoryService.cs:180-262 | 403, then 409 for a name taken in the school, then 422 from the size check, each with nothing written; otherwise the one new row under the next id, answered with 201; keeps names unique per school |
| CategoryService.Update | EStore.Services/Repositories/CategoryService.cs:266-369 | 404, then 403 against the stored admin and school, then 409 for a name taken by any other category, then 422; only name, sizes and active flag change, and the image only when a new one is given |
| CategoryService.Delete | EStore.Services/Repositories/CategoryService.cs:375-407 | 404, then 403; otherwise exactly that category is removed and nothing else changes |
| AttributeService.OwnNameIsFree | EStore.Services/Repositories/CategoryAttributeService.cs:195-204 | keeping an attribute's own name never conflicts |
| AttributeService.OtherSchoolDoesNotConflict | EStore.Services/Repositories/CategoryAttributeService.cs:195-204 | a name used only in other schools does not block a rename |
| AttributeService.GetById | EStore.Services/Repositories/CategoryAttributeService.cs:94-120 | 200 with the stored row exactly when the id exists, otherwise 404 "Attribute not found" |
| AttributeService.GetAll | EStore.Services/Repositories/CategoryAttributeService.cs:68-90 | exactly the school's attributes, each once, ordered by name |
| AttributeService.Create | EStore.Services/Repositories/CategoryAttributeService.cs:124-171 | 403, then 409 for a name taken in the school; otherwise one new row with the values as sent, in order, answered with 201; keeps names unique per school |
| AttributeService.Update | EStore.Services/Repositories/CategoryAttributeService.cs:175-228 | 404, then 403 against the stored admin and school, then 409 within that school; only name, values and active flag change |
| AttributeService.Delete | EStore.Services/Repositories/CategoryAttributeService.cs:232-264 | 404, then 403; otherwise exactly that attribute is removed |
| VendorService.CodesDistinct | EStore.Services/Repositories/VendorService.cs:187-192 | while each code is the code of its own id, no two vendors share a code |
| VendorService.GetById | EStore.Services/Repositories/VendorService.cs:122-156 | 200 with the stored row exactly when the id exists, otherwise 404 "Vendor not found" |
| VendorService.GetAll | EStore.Services/Repositories/VendorService.cs:85-119 | exactly the school's vendors, each once, ordered by company name |
| VendorService.Create | EStore.Services/Repositories/VendorService.cs:159-222 | 403, then 409 for a company name taken in the school; otherwise one new row whose code is "V" plus its id padded to three digits, answered with 201; keeps names unique and codes matching ids |
| VendorService.Update | EStore.Services/Repositories/VendorService.cs:225-282 | 404, then 403 against the stored admin and school, then 409 for a name taken by any other vendor; only the contact and bank details and the active flag change; code, school, admin and creation time are kept |
| VendorService.Delete | EStore.Services/Repositories/VendorService.cs:285-307 | 404, then 403; otherwise exactly that vendor is removed |
| ProductVariants.NewFields | EStore.Services/Repositories/ProductService.cs:453-465 | the fields inserted are exactly those of the entries without an id, and there are at most as many as entries |
| ProductVariants.ApplyEntriesFailsIff | EStore.Services/Repositories/ProductService.cs:441-466 | the entry loop fails exactly when an entry names an id that is not one of the product's variants |
| ProductVariants.ApplyEntriesShape | EStore.Services/Repositories/ProductService.cs:441-466 | when every named id is owned, named variants get the fields of their last entry and each entry without an id adds one variant, in request order |
| ProductVariants.ReconcileFailsIff | EStore.Services/Repositories/ProductService.cs:435-468 | reconciliation fails exactly when the request names a variant id the product does not own |
| ProductVariants.ReconcileShape | EStore.Services/Repositories/ProductService.cs:435-468 | after reconciliation the product's variants are exactly the named ones, overwritten, plus one new variant per unnamed entry; other products' variants are untouched |
| ProductService.ShapeError | EStore.Services/Repositories/ProductService.cs:122-154 | 422 exactly when a product with variants has none, or a simple product lacks MRP, purchase price or quantity, with the service's message |
| ProductService.ImageUrlInjective | EStore.Services/Repositories/ProductService.cs:248 | within one product's folder, distinct file names give distinct URLs |
| ProductService.NewImagesKeepValid | EStore.Services/Repositories/ProductService.cs:236-252 | images numbered from the counter for a stored product keep the image table valid |
| ProductService.AppendImages | EStore.Services/Repositories/ProductService.cs:236-250 | the loop adds exactly one image row per file, numbered from the counter, with the file's URL |
| ProductService.SaveImages | EStore.Services/Repositories/ProductService.cs:229-253 | only the image table changes, by exactly those rows |
| ProductService.RemoveImages | EStore.Services/Repositories/ProductService.cs:471-483 | exactly the images of this product whose ids are listed go; every other image stays, unchanged |
| ProductService.NewVariantsKeepValid | EStore.Services/Repositories/ProductService.cs:184-199 | variants numbered from the counter for a stored product keep the variant table valid |
| ProductService.AppendVariants | EStore.Services/Repositories/ProductService.cs:186-197 | the loop adds exactly one variant per entry, in order, with its six fields copied |
| ProductService.AddVariants | EStore.Services/Repositories/ProductService.cs:184-199 | only the variant table changes, by exactly those rows |
| ProductService.FindLatest | EStore.Services/Repositories/ProductService.cs:78-82 | the id of the school's product with the highest id, and none exactly when the school has no product |
| ProductService.GenerateProductCode | EStore.Services/Repositories/ProductService.cs:76-94 | `PR001` for a school without products, otherwise the code after the code of its latest product |
| ProductService.View | EStore.Services/Repositories/ProductService.cs:273-305 | the response copies the product's fields, says "Active" or "Inactive", and names the category, or "" when it is gone |
| ProductService.ViewRows | EStore.Services/Repositories/ProductService.cs:290-304 | the response's images are exactly the product's image URLs, and its variants are exactly its variant rows, each with all its fields and its attribute's name, or "" when the attribute is gone |
| ProductService.VariantViewsAgree | EStore.Services/Repositories/ProductService.cs:291-304 | a product's variants in the response depend only on its own variant rows and the attribute table |
| ProductService.ImageUrlsAgree | EStore.Services/Repositories/ProductService.cs:290 | a product's images in the response depend only on its own image rows |
| ProductService.ViewDependsOnOwnRows | EStore.Services/Repositories/ProductService.cs:273-305 | a product's response depends only on its own rows and the category and attribute tables |
| ProductService.Get | EStore.Services/Repositories/ProductService.cs:258-313 | 200 with the product's response exactly when the id exists, otherwise 404 "Product not found" |
| ProductService.Views | EStore.Services/Repositories/ProductService.cs:329-351 | one response per product, in order, without variants |
| ProductService.GetAll | EStore.Services/Repositories/ProductService.cs:318-360 | exactly the school's products, each as its response without variants, newest id first |
| ProductService.NewProductKeepsValid | EStore.Services/Repositories/ProductService.cs:160-179 | a product stored under the counter keeps the store valid |
| ProductService.StoreNewProduct | EStore.Services/Repositories/ProductService.cs:156-207 | the product row, then its variants, then its images, and nothing else |
| ProductService.AddProduct | EStore.Services/Repositories/ProductService.cs:156-210 | the new product under the next id with its school's next code (`PR001` for the first), one variant per entry only with variants, one image per file, answered with GetAsync's 200; it becomes the school's latest product |
| ProductService.Create | EStore.Services/Repositories/ProductService.cs:99-226 | 403, then 404 for a category not in the school, then 422, each with nothing written; otherwise as AddProduct |
| ProductService.ReconcileVariants | EStore.Services/Repositories/ProductService.cs:435-468 | succeeds exactly when reconciliation does, and then the variant table is the reconciled one; nothing but the variant table changes |
| ProductService.ReplaceImages | EStore.Services/Repositories/ProductService.cs:471-488 | the product's listed images go and the new files are added |
| ProductService.ApplyUpdate | EStore.Services/Repositories/ProductService.cs:422-498 | an unknown variant id gives 500 "Failed to update" with the store unchanged; otherwise seven fields change, the variants are reconciled (untouched for a simple product), the images are replaced, and the answer is GetAsync's |
| ProductService.Update | EStore.Services/Repositories/ProductService.cs:365-499 | 404, then 403 against the request's admin and school, then 422, each with nothing written; otherwise as ApplyUpdate |
| ProductService.Delete | EStore.Services/Repositories/ProductService.cs:505-539 | 404 with nothing written, otherwise the product, exactly its variants and exactly its images go, and every other product's response is unchanged |

## Left out

- **The user service's HTTP call, token forwarding and JSON parsing:** network I/O. The parsed answer for each admin id is the `UserDirectory` parameter. `None` stands for a call that throws.
- **Writing, copying and deleting image files:** filesystem I/O. This covers product images, the category image, the folder delete on product delete and the old-image delete on category update. The stored URL of a category image is an input. The GUID file names of product images are inputs.
- **`DateTime.UtcNow`:** a clock. Creation times are an input `now`.
- **Logging and async/await:** left out, since neither changes the state of the store.
- **Transactions:** not modelled as an engine feature. A rollback is a snapshot that `Store.Db.Restore` puts back.
- **Database failures:** the 500 answers of create and delete for a failing database are not modelled. The only modelled 500 is the unknown variant id on product update.
- **Database collation:** names are compared and ordered ordinally.
- **Case-insensitive role matching:** only ASCII letters are folded. Other Unicode case mappings are left out.
- **The order of a product's images and variants in its response:** the source fixes no order, so they are maps keyed by row id.
- **Ties between equal names in a listing:** they follow the model's insertion order, which the source does not fix.
- **Identity counters:** they are unbounded. The overflow of 32-bit ids is not modelled.
- **Cascading deletes:** `Product.CategoryId` is declared as a required foreign key to the category, but the context file maps no products table, so no cascade is configured anywhere. CategoryService.Delete removes only the category; the model keeps the category's products, whose responses then show an empty category name. It does not model a database that would delete those products with the category or refuse the delete.
- **Entity Framework navigation fix-up of variants added during the same update:** not modelled. `First` looks only at the variants loaded before the update.
- **Prices:** `decimal` prices are opaque values, since no arithmetic is done on them.
- **The image removal loop of product update:** modelled as one assignment of the remaining images.
- **The controllers and their routing:** left out, including their defaulting of a null status code to "200" or "201".
- **Purchases, purchase items, invoice entries and `CategoryUpdateDto.AttributeIds`:** they have no service code.
- **The category–attribute join table:** no service writes it.
- **Concurrent requests:** not modelled, including two creates racing for the same product code.
- ProductService.GetAll: requires only that every product row sits under its own id, which is all the listing needs; it is not stated for an invalid store.
- Codes.NextProductCode: requires the latest code to have at least two characters when it is not blank, because `Substring(2)` throws otherwise; the store invariant guarantees this for stored codes.
