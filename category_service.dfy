/** CategoryService: categories of a school, with the size-variant rules
    and an optional image. */
module CategoryService {
  import opened Common
  import opened Numbers
  import opened Admin
  import opened Store
  import opened Listing
  import opened Uniqueness
  import Sizes

  /** The message the category service gives for each refusal of the
      strict admin check. */
  function AdminMessage(d: Denial, schoolId: Int32): string {
    match d
    case AdminIdRequired => "AdminId is required."
    case AdminNotFound => "Admin not found in SMS."
    case MissingData => "SMS response missing data."
    case MissingSchoolId => "Invalid or missing schoolId in SMS response."
    case WrongSchool(adminSchool) =>
      "Admin belongs to school " + IntToString(adminSchool) + ", not " + IntToString(schoolId) + "."
    case MissingRoles => "Roles missing in SMS response."
    case NoPermission => "Admin does not have permission."
    case ValidationFailed => "Failed to validate admin user."
  }

  /** The outcome of the size validation: the size fields to store, or the
      reason for a 422. */
  datatype SizeCheck = SizeOk(sizeType: Sizes.SizeType, availableSizes: Option<string>) | SizeError(message: string)

  const SIZE_TYPE_REQUIRED := "SizeType is required when HasSizeVariants = true"
  const AVAILABLE_SIZES_REQUIRED := "AvailableSizes is required when HasSizeVariants = true"

  /** The size validation shared by create and update: without size variants
      the size fields are cleared whatever was sent; with them, a size type
      and a non-blank list of sizes are required. */
  function CheckSizes(hasSizeVariants: bool, sizeType: Sizes.SizeType, availableSizes: Option<string>): (r: SizeCheck)
    ensures r.SizeError? <==> hasSizeVariants && (sizeType == Sizes.None || IsNullOrWhiteSpace(availableSizes))
    ensures r.SizeError? ==> r.message == if sizeType == Sizes.None then SIZE_TYPE_REQUIRED else AVAILABLE_SIZES_REQUIRED
    ensures r.SizeOk? && hasSizeVariants ==> r.sizeType == sizeType && r.availableSizes == availableSizes
  {
    if !hasSizeVariants then SizeOk(Sizes.None, None)
    else if sizeType == Sizes.None then SizeError(SIZE_TYPE_REQUIRED)
    else if IsNullOrWhiteSpace(availableSizes) then SizeError(AVAILABLE_SIZES_REQUIRED)
    else SizeOk(sizeType, availableSizes)
  }

  /** What a stored category's size fields look like when the service wrote
      them: no size type and no sizes without size variants, a size type and
      a non-blank list of sizes with them. */
  predicate SizesConsistent(hasSizeVariants: bool, sizeType: Sizes.SizeType, availableSizes: Option<string>) {
    if hasSizeVariants then sizeType != Sizes.None && !IsNullOrWhiteSpace(availableSizes)
    else sizeType == Sizes.None && availableSizes == None
  }

  /** Whatever the request says, the sizes that pass the check are consistent. */
  lemma CheckSizesConsistent(hasSizeVariants: bool, sizeType: Sizes.SizeType, availableSizes: Option<string>)
    ensures var r := CheckSizes(hasSizeVariants, sizeType, availableSizes);
      r.SizeOk? ==> SizesConsistent(hasSizeVariants, r.sizeType, r.availableSizes)
  {
  }

  /** Sizes that are already consistent pass the check unchanged: the
      normalisation is idempotent. */
  lemma CheckSizesIdempotent(hasSizeVariants: bool, sizeType: Sizes.SizeType, availableSizes: Option<string>)
    requires SizesConsistent(hasSizeVariants, sizeType, availableSizes)
    ensures CheckSizes(hasSizeVariants, sizeType, availableSizes) == SizeOk(sizeType, availableSizes)
  {
  }

  function Name(c: Category): string { c.name }
  function School(c: Category): int { c.schoolId }

  /** `Categories.AnyAsync(c => c.Name == name && c.SchoolId == schoolId)`. */
  predicate NameTakenInSchool(categories: map<int, Category>, name: string, schoolId: Int32) {
    exists k | k in categories :: categories[k].name == name && categories[k].schoolId == schoolId
  }

  /** `Categories.AnyAsync(x => x.Name == name && x.Id != id)`: every school. */
  predicate NameTakenByOther(categories: map<int, Category>, name: string, id: int) {
    exists k | k in categories :: k != id && categories[k].name == name
  }

  /** GetByIdAsync. */
  function GetById(db: Db, id: int): (r: Response<Category>)
    reads db
    ensures r.success <==> id in db.categories.rows
    ensures r.success ==> r.status == OK && r.data == Some(db.categories.rows[id])
    ensures !r.success ==> r == Failure(NOT_FOUND, "Category not found")
  {
    if id in db.categories.rows then Response(true, OK, None, Some(db.categories.rows[id]))
    else Failure(NOT_FOUND, "Category not found")
  }

  /** GetAllAsync: the school's categories ordered by name. */
  method GetAll(db: Db, schoolId: Int32) returns (r: Response<seq<Category>>)
    requires db.Valid()
    ensures r.success && r.status == OK && r.message == Some("Categories retrieved") && r.data.Some?
    ensures forall c :: c in r.data.value ==> c.id in db.categories.rows && db.categories.rows[c.id] == c && c.schoolId == schoolId
    ensures forall k :: k in db.categories.rows && db.categories.rows[k].schoolId == schoolId ==> db.categories.rows[k] in r.data.value
    ensures forall i, j :: 0 <= i < j < |r.data.value| ==> r.data.value[i].id != r.data.value[j].id
    ensures SortedBy(r.data.value, Name)
  {
    var ids, rows := ListWhere(db.categories.rows, (c: Category) => c.schoolId == schoolId, Name);
    forall c | c in rows
      ensures c.id in db.categories.rows && db.categories.rows[c.id] == c && c.schoolId == schoolId
    {
      var i :| 0 <= i < |rows| && rows[i] == c;
      assert ids[i] in db.categories.rows && rows[i] == db.categories.rows[ids[i]];
      assert db.categories.rows[ids[i]].id == ids[i];
    }
    forall k | k in db.categories.rows && db.categories.rows[k].schoolId == schoolId
      ensures db.categories.rows[k] in rows
    {
      var i :| 0 <= i < |ids| && ids[i] == k;
      assert rows[i] == db.categories.rows[k];
    }
    forall i, j | 0 <= i < j < |rows|
      ensures rows[i].id != rows[j].id
    {
      assert rows[i] == db.categories.rows[ids[i]] && rows[j] == db.categories.rows[ids[j]];
    }
    r := Response(true, OK, Some("Categories retrieved"), Some(rows));
  }

  /** CreateAsync. `imageUrl` is where the uploaded image was saved, `None`
      when the request has no image; `now` is the creation time. */
  method Create(db: Db, users: UserDirectory, dto: CategoryCreate, imageUrl: Option<string>, now: Timestamp)
    returns (r: Response<Category>)
    requires db.Valid()
    modifies db
    ensures db.Valid()
    ensures var verdict := StrictDecision(dto.adminId, users(dto.adminId), dto.schoolId);
      && (verdict.Denied? ==>
            r == Failure(FORBIDDEN, AdminMessage(verdict.reason, dto.schoolId)) && db.State() == old(db.State()))
      && (verdict.Allowed? && NameTakenInSchool(old(db.categories.rows), dto.name, dto.schoolId) ==>
            r == Failure(CONFLICT, "Category already exists") && db.State() == old(db.State()))
      && (verdict.Allowed? && !NameTakenInSchool(old(db.categories.rows), dto.name, dto.schoolId) ==>
            match CheckSizes(dto.hasSizeVariants, dto.sizeType, dto.availableSizes)
            case SizeError(message) =>
              r == Failure(UNPROCESSABLE, message) && db.State() == old(db.State())
            case SizeOk(sizeType, availableSizes) =>
              var c := Category(old(db.categories.nextId), dto.schoolId, dto.adminId, dto.name,
                                dto.hasSizeVariants, sizeType, availableSizes, imageUrl, true, now);
              && r == Response(true, CREATED, Some("Category created"), Some(c))
              && db.State() == old(db.State()).(categories := Table(old(db.categories.rows)[c.id := c], c.id + 1)))
    ensures r.success ==> GetById(db, r.data.value.id) == Response(true, OK, None, r.data)
    ensures r.success ==> SizesConsistent(r.data.value.hasSizeVariants, r.data.value.sizeType, r.data.value.availableSizes)
    ensures old(UniqueWithin(db.categories.rows, Name, School)) ==> UniqueWithin(db.categories.rows, Name, School)
  {
    var verdict := StrictDecision(dto.adminId, users(dto.adminId), dto.schoolId);
    if verdict.Denied? {
      return Failure(FORBIDDEN, AdminMessage(verdict.reason, dto.schoolId));
    }
    if NameTakenInSchool(db.categories.rows, dto.name, dto.schoolId) {
      return Failure(CONFLICT, "Category already exists");
    }
    var sizes := CheckSizes(dto.hasSizeVariants, dto.sizeType, dto.availableSizes);
    if sizes.SizeError? {
      return Failure(UNPROCESSABLE, sizes.message);
    }
    CheckSizesConsistent(dto.hasSizeVariants, dto.sizeType, dto.availableSizes);
    var c := Category(db.categories.nextId, dto.schoolId, dto.adminId, dto.name,
                      dto.hasSizeVariants, sizes.sizeType, sizes.availableSizes, imageUrl, true, now);
    if UniqueWithin(db.categories.rows, Name, School) {
      UniquePut(db.categories.rows, Name, School, c.id, c);
    }
    db.categories := Table(db.categories.rows[c.id := c], c.id + 1);
    r := Response(true, CREATED, Some("Category created"), Some(c));
  }

  /** UpdateAsync. The admin is checked against the stored category's admin
      and school; `newImageUrl` is where a newly uploaded image was saved,
      `None` when the request has none. */
  method Update(db: Db, users: UserDirectory, id: int, dto: CategoryUpdate, newImageUrl: Option<string>)
    returns (r: Response<Category>)
    requires db.Valid()
    modifies db
    ensures db.Valid()
    ensures id !in old(db.categories.rows) ==>
      r == Failure(NOT_FOUND, "Category not found") && db.State() == old(db.State())
    ensures id in old(db.categories.rows) ==>
      var c := old(db.categories.rows[id]);
      var verdict := StrictDecision(c.adminId, users(c.adminId), c.schoolId);
      && (verdict.Denied? ==>
            r == Failure(FORBIDDEN, AdminMessage(verdict.reason, c.schoolId)) && db.State() == old(db.State()))
      && (verdict.Allowed? && NameTakenByOther(old(db.categories.rows), dto.name, id) ==>
            r == Failure(CONFLICT, "Category name already exists") && db.State() == old(db.State()))
      && (verdict.Allowed? && !NameTakenByOther(old(db.categories.rows), dto.name, id) ==>
            match CheckSizes(dto.hasSizeVariants, dto.sizeType, dto.availableSizes)
            case SizeError(message) =>
              r == Failure(UNPROCESSABLE, message) && db.State() == old(db.State())
            case SizeOk(sizeType, availableSizes) =>
              var c' := c.(name := dto.name, hasSizeVariants := dto.hasSizeVariants, sizeType := sizeType,
                           availableSizes := availableSizes, isActive := dto.isActive,
                           imageUrl := if newImageUrl.Some? then newImageUrl else c.imageUrl);
              && r == Response(true, OK, Some("Category updated"), Some(c'))
              && db.State() == old(db.State()).(categories := old(db.categories).(rows := old(db.categories.rows)[id := c'])))
    ensures r.success ==> var c := r.data.value;
      && c.id == id && c.schoolId == old(db.categories.rows[id].schoolId) && c.adminId == old(db.categories.rows[id].adminId)
      && c.createdAt == old(db.categories.rows[id].createdAt)
      && SizesConsistent(c.hasSizeVariants, c.sizeType, c.availableSizes)
    ensures old(UniqueWithin(db.categories.rows, Name, School)) ==> UniqueWithin(db.categories.rows, Name, School)
  {
    if id !in db.categories.rows {
      return Failure(NOT_FOUND, "Category not found");
    }
    var c := db.categories.rows[id];
    var verdict := StrictDecision(c.adminId, users(c.adminId), c.schoolId);
    if verdict.Denied? {
      return Failure(FORBIDDEN, AdminMessage(verdict.reason, c.schoolId));
    }
    if NameTakenByOther(db.categories.rows, dto.name, id) {
      return Failure(CONFLICT, "Category name already exists");
    }
    var sizes := CheckSizes(dto.hasSizeVariants, dto.sizeType, dto.availableSizes);
    if sizes.SizeError? {
      return Failure(UNPROCESSABLE, sizes.message);
    }
    CheckSizesConsistent(dto.hasSizeVariants, dto.sizeType, dto.availableSizes);
    var imageUrl := c.imageUrl;
    if newImageUrl.Some? {
      imageUrl := newImageUrl;
    }
    var c' := c.(name := dto.name, hasSizeVariants := dto.hasSizeVariants, sizeType := sizes.sizeType,
                 availableSizes := sizes.availableSizes, isActive := dto.isActive, imageUrl := imageUrl);
    if UniqueWithin(db.categories.rows, Name, School) {
      UniquePut(db.categories.rows, Name, School, id, c');
    }
    db.categories := db.categories.(rows := db.categories.rows[id := c']);
    r := Response(true, OK, Some("Category updated"), Some(c'));
  }

  /** DeleteAsync: removes exactly the one category. */
  method Delete(db: Db, users: UserDirectory, id: int) returns (r: Response<bool>)
    requires db.Valid()
    modifies db
    ensures db.Valid()
    ensures id !in old(db.categories.rows) ==>
      r == Response(false, NOT_FOUND, Some("Category not found"), Some(false)) && db.State() == old(db.State())
    ensures id in old(db.categories.rows) ==>
      var c := old(db.categories.rows[id]);
      var verdict := StrictDecision(c.adminId, users(c.adminId), c.schoolId);
      && (verdict.Denied? ==>
            r == Response(false, FORBIDDEN, Some(AdminMessage(verdict.reason, c.schoolId)), Some(false))
            && db.State() == old(db.State()))
      && (verdict.Allowed? ==>
            r == Response(true, OK, Some("Category deleted"), Some(true))
            && db.State() == old(db.State()).(categories := old(db.categories).(rows := old(db.categories.rows) - {id})))
    ensures r.success ==> GetById(db, id) == Failure(NOT_FOUND, "Category not found")
  {
    if id !in db.categories.rows {
      return Response(false, NOT_FOUND, Some("Category not found"), Some(false));
    }
    var c := db.categories.rows[id];
    var verdict := StrictDecision(c.adminId, users(c.adminId), c.schoolId);
    if verdict.Denied? {
      return Response(false, FORBIDDEN, Some(AdminMessage(verdict.reason, c.schoolId)), Some(false));
    }
    db.categories := db.categories.(rows := db.categories.rows - {id});
    r := Response(true, OK, Some("Category deleted"), Some(true));
  }
}
