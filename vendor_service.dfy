/** VendorService: the suppliers of a school, each with a `Vnnn` code
    derived from its generated id. */
module VendorService {
  import opened Common
  import opened Numbers
  import opened Admin
  import opened Store
  import opened Listing
  import opened Uniqueness
  import opened Codes

  /** The message the vendor service gives for each refusal of the strict
      admin check. */
  function AdminMessage(d: Denial, schoolId: Int32): string {
    match d
    case AdminIdRequired => "AdminId is required."
    case AdminNotFound => "Admin not found."
    case MissingData => "Invalid SMS response."
    case MissingSchoolId => "SchoolId missing."
    case WrongSchool(adminSchool) =>
      "Admin belongs to school " + IntToString(adminSchool) + ", not " + IntToString(schoolId) + "."
    case MissingRoles => "Roles missing."
    case NoPermission => "Admin does not have permission."
    case ValidationFailed => "Failed to validate admin."
  }

  function CompanyName(v: Vendor): string { v.details.companyName }
  function School(v: Vendor): int { v.schoolId }

  /** `Vendors.AnyAsync(v => v.CompanyName == name && v.SchoolId == schoolId)`. */
  predicate NameTakenInSchool(vendors: map<int, Vendor>, name: string, schoolId: Int32) {
    exists k | k in vendors :: vendors[k].details.companyName == name && vendors[k].schoolId == schoolId
  }

  /** `Vendors.AnyAsync(x => x.CompanyName == name && x.Id != id)`: every school. */
  predicate NameTakenByOther(vendors: map<int, Vendor>, name: string, id: int) {
    exists k | k in vendors :: k != id && vendors[k].details.companyName == name
  }

  /** Every vendor that has a code carries the code of its own id. */
  predicate CodesMatchIds(vendors: map<int, Vendor>) {
    forall k :: k in vendors && vendors[k].vendorCode.Some? ==> vendors[k].vendorCode.value == VendorCode(k)
  }

  /** While codes match ids, two vendors never share a code. */
  lemma CodesDistinct(vendors: map<int, Vendor>, j: int, k: int)
    requires CodesMatchIds(vendors)
    requires j in vendors && k in vendors && j != k
    requires 0 <= j <= INT32_MAX && 0 <= k <= INT32_MAX
    requires vendors[j].vendorCode.Some? && vendors[k].vendorCode.Some?
    ensures vendors[j].vendorCode != vendors[k].vendorCode
  {
    if vendors[j].vendorCode == vendors[k].vendorCode {
      VendorCodeInjective(j, k);
    }
  }

  /** GetByIdAsync. */
  function GetById(db: Db, id: int): (r: Response<Vendor>)
    reads db
    ensures r.success <==> id in db.vendors.rows
    ensures r.success ==> r.status == OK && r.data == Some(db.vendors.rows[id])
    ensures !r.success ==> r == Failure(NOT_FOUND, "Vendor not found")
  {
    if id in db.vendors.rows then Response(true, OK, None, Some(db.vendors.rows[id]))
    else Failure(NOT_FOUND, "Vendor not found")
  }

  /** GetAllAsync: the school's vendors ordered by company name. */
  method GetAll(db: Db, schoolId: Int32) returns (r: Response<seq<Vendor>>)
    requires db.Valid()
    ensures r.success && r.status == OK && r.message == Some("Vendors retrieved") && r.data.Some?
    ensures forall v :: v in r.data.value ==> v.id in db.vendors.rows && db.vendors.rows[v.id] == v && v.schoolId == schoolId
    ensures forall k :: k in db.vendors.rows && db.vendors.rows[k].schoolId == schoolId ==> db.vendors.rows[k] in r.data.value
    ensures forall i, j :: 0 <= i < j < |r.data.value| ==> r.data.value[i].id != r.data.value[j].id
    ensures SortedBy(r.data.value, CompanyName)
  {
    var ids, rows := ListWhere(db.vendors.rows, (v: Vendor) => v.schoolId == schoolId, CompanyName);
    forall v | v in rows
      ensures v.id in db.vendors.rows && db.vendors.rows[v.id] == v && v.schoolId == schoolId
    {
      var i :| 0 <= i < |rows| && rows[i] == v;
      assert ids[i] in db.vendors.rows && rows[i] == db.vendors.rows[ids[i]];
      assert db.vendors.rows[ids[i]].id == ids[i];
    }
    forall k | k in db.vendors.rows && db.vendors.rows[k].schoolId == schoolId
      ensures db.vendors.rows[k] in rows
    {
      var i :| 0 <= i < |ids| && ids[i] == k;
      assert rows[i] == db.vendors.rows[k];
    }
    forall i, j | 0 <= i < j < |rows|
      ensures rows[i].id != rows[j].id
    {
      assert rows[i] == db.vendors.rows[ids[i]] && rows[j] == db.vendors.rows[ids[j]];
    }
    r := Response(true, OK, Some("Vendors retrieved"), Some(rows));
  }

  /** CreateAsync: the vendor is stored without a code, and once its id is
      generated the code `V` + the id padded to three digits is written. */
  method Create(db: Db, users: UserDirectory, dto: VendorCreate, now: Timestamp) returns (r: Response<Vendor>)
    requires db.Valid()
    modifies db
    ensures db.Valid()
    ensures var verdict := StrictDecision(dto.adminId, users(dto.adminId), dto.schoolId);
      && (verdict.Denied? ==>
            r == Failure(FORBIDDEN, AdminMessage(verdict.reason, dto.schoolId)) && db.State() == old(db.State()))
      && (verdict.Allowed? && NameTakenInSchool(old(db.vendors.rows), dto.details.companyName, dto.schoolId) ==>
            r == Failure(CONFLICT, "Vendor already exists") && db.State() == old(db.State()))
      && (verdict.Allowed? && !NameTakenInSchool(old(db.vendors.rows), dto.details.companyName, dto.schoolId) ==>
            var id := old(db.vendors.nextId);
            var v := Vendor(id, dto.schoolId, dto.adminId, Some(VendorCode(id)), dto.details, true, now);
            && r == Response(true, CREATED, Some("Vendor created"), Some(v))
            && db.State() == old(db.State()).(vendors := Table(old(db.vendors.rows)[id := v], id + 1)))
    ensures r.success ==> GetById(db, r.data.value.id) == Response(true, OK, None, r.data)
    ensures old(UniqueWithin(db.vendors.rows, CompanyName, School)) ==> UniqueWithin(db.vendors.rows, CompanyName, School)
    ensures old(CodesMatchIds(db.vendors.rows)) ==> CodesMatchIds(db.vendors.rows)
  {
    var verdict := StrictDecision(dto.adminId, users(dto.adminId), dto.schoolId);
    if verdict.Denied? {
      return Failure(FORBIDDEN, AdminMessage(verdict.reason, dto.schoolId));
    }
    if NameTakenInSchool(db.vendors.rows, dto.details.companyName, dto.schoolId) {
      return Failure(CONFLICT, "Vendor already exists");
    }
    var id := db.vendors.nextId;
    ghost var t0 := db.State();
    ghost var before := db.vendors.rows;
    var v := Vendor(id, dto.schoolId, dto.adminId, None, dto.details, true, now);
    db.vendors := Table(db.vendors.rows[id := v], id + 1);
    // the second save: the code is derived from the generated id
    v := v.(vendorCode := Some(VendorCode(id)));
    db.vendors := db.vendors.(rows := db.vendors.rows[id := v]);
    assert db.vendors.rows == before[id := v];
    if UniqueWithin(before, CompanyName, School) {
      UniquePut(before, CompanyName, School, id, v);
    }
    r := Response(true, CREATED, Some("Vendor created"), Some(v));
  }

  /** UpdateAsync: the admin is checked against the stored vendor's admin and
      school; the code is kept. */
  method Update(db: Db, users: UserDirectory, id: int, dto: VendorUpdate) returns (r: Response<Vendor>)
    requires db.Valid()
    modifies db
    ensures db.Valid()
    ensures id !in old(db.vendors.rows) ==>
      r == Failure(NOT_FOUND, "Vendor not found") && db.State() == old(db.State())
    ensures id in old(db.vendors.rows) ==>
      var v := old(db.vendors.rows[id]);
      var verdict := StrictDecision(v.adminId, users(v.adminId), v.schoolId);
      && (verdict.Denied? ==>
            r == Failure(FORBIDDEN, AdminMessage(verdict.reason, v.schoolId)) && db.State() == old(db.State()))
      && (verdict.Allowed? && NameTakenByOther(old(db.vendors.rows), dto.details.companyName, id) ==>
            r == Failure(CONFLICT, "Vendor name already exists") && db.State() == old(db.State()))
      && (verdict.Allowed? && !NameTakenByOther(old(db.vendors.rows), dto.details.companyName, id) ==>
            var v' := v.(details := dto.details, isActive := dto.isActive);
            && r == Response(true, OK, Some("Vendor updated"), Some(v'))
            && db.State() == old(db.State()).(vendors := old(db.vendors).(rows := old(db.vendors.rows)[id := v'])))
    ensures r.success ==> var v := r.data.value;
      && v.id == id && v.vendorCode == old(db.vendors.rows[id].vendorCode)
      && v.schoolId == old(db.vendors.rows[id].schoolId) && v.adminId == old(db.vendors.rows[id].adminId)
      && v.createdAt == old(db.vendors.rows[id].createdAt)
    ensures old(UniqueWithin(db.vendors.rows, CompanyName, School)) ==> UniqueWithin(db.vendors.rows, CompanyName, School)
    ensures old(CodesMatchIds(db.vendors.rows)) ==> CodesMatchIds(db.vendors.rows)
  {
    if id !in db.vendors.rows {
      return Failure(NOT_FOUND, "Vendor not found");
    }
    var v := db.vendors.rows[id];
    var verdict := StrictDecision(v.adminId, users(v.adminId), v.schoolId);
    if verdict.Denied? {
      return Failure(FORBIDDEN, AdminMessage(verdict.reason, v.schoolId));
    }
    if NameTakenByOther(db.vendors.rows, dto.details.companyName, id) {
      return Failure(CONFLICT, "Vendor name already exists");
    }
    var v' := v.(details := dto.details, isActive := dto.isActive);
    if UniqueWithin(db.vendors.rows, CompanyName, School) {
      UniquePut(db.vendors.rows, CompanyName, School, id, v');
    }
    db.vendors := db.vendors.(rows := db.vendors.rows[id := v']);
    r := Response(true, OK, Some("Vendor updated"), Some(v'));
  }

  /** DeleteAsync: removes exactly the one vendor. */
  method Delete(db: Db, users: UserDirectory, id: int) returns (r: Response<bool>)
    requires db.Valid()
    modifies db
    ensures db.Valid()
    ensures id !in old(db.vendors.rows) ==>
      r == Response(false, NOT_FOUND, Some("Vendor not found"), Some(false)) && db.State() == old(db.State())
    ensures id in old(db.vendors.rows) ==>
      var v := old(db.vendors.rows[id]);
      var verdict := StrictDecision(v.adminId, users(v.adminId), v.schoolId);
      && (verdict.Denied? ==>
            r == Response(false, FORBIDDEN, Some(AdminMessage(verdict.reason, v.schoolId)), Some(false))
            && db.State() == old(db.State()))
      && (verdict.Allowed? ==>
            r == Response(true, OK, Some("Vendor deleted"), Some(true))
            && db.State() == old(db.State()).(vendors := old(db.vendors).(rows := old(db.vendors.rows) - {id})))
    ensures r.success ==> GetById(db, id) == Failure(NOT_FOUND, "Vendor not found")
  {
    if id !in db.vendors.rows {
      return Response(false, NOT_FOUND, Some("Vendor not found"), Some(false));
    }
    var v := db.vendors.rows[id];
    var verdict := StrictDecision(v.adminId, users(v.adminId), v.schoolId);
    if verdict.Denied? {
      return Response(false, FORBIDDEN, Some(AdminMessage(verdict.reason, v.schoolId)), Some(false));
    }
    db.vendors := db.vendors.(rows := db.vendors.rows - {id});
    r := Response(true, OK, Some("Vendor deleted"), Some(true));
  }
}
