/** CategoryAttributeService: named value lists (e.g. "Colour": Red, Blue)
    of a school. */
module AttributeService {
  import opened Common
  import opened Numbers
  import opened Admin
  import opened Store
  import opened Listing
  import opened Uniqueness

  /** The message the attribute service gives for each refusal of the loose
      admin check; the loose check never refuses for the first three
      reasons of `Denial`, which fall back to the message of a caught
      exception. */
  function AdminMessage(d: Denial, schoolId: Int32): string {
    match d
    case AdminNotFound => "Admin not found."
    case MissingData => "Invalid response."
    case WrongSchool(adminSchool) =>
      "Admin belongs to " + IntToString(adminSchool) + ", not " + IntToString(schoolId) + "."
    case NoPermission => "Admin does not have permission."
    case _ => "Admin validation failed."
  }

  function Name(a: CategoryAttribute): string { a.name }
  function School(a: CategoryAttribute): int { a.schoolId }

  /** `CategoryAttributes.AnyAsync(a => a.Name == name && a.SchoolId == schoolId)`. */
  predicate NameTakenInSchool(attributes: map<int, CategoryAttribute>, name: string, schoolId: Int32) {
    exists k | k in attributes :: attributes[k].name == name && attributes[k].schoolId == schoolId
  }

  /** `CategoryAttributes.AnyAsync(x => x.Name == name && x.Id != id && x.SchoolId == schoolId)`. */
  predicate NameTakenByOtherInSchool(attributes: map<int, CategoryAttribute>, name: string, id: int, schoolId: Int32) {
    exists k | k in attributes :: k != id && attributes[k].name == name && attributes[k].schoolId == schoolId
  }

  /** Keeping an attribute's own name never conflicts while names are unique
      in each school. */
  lemma OwnNameIsFree(attributes: map<int, CategoryAttribute>, id: int)
    requires id in attributes && UniqueWithin(attributes, Name, School)
    ensures !NameTakenByOtherInSchool(attributes, attributes[id].name, id, attributes[id].schoolId)
  {
  }

  /** A name used in another school does not block a rename: the check is
      scoped to the attribute's own school. */
  lemma OtherSchoolDoesNotConflict(attributes: map<int, CategoryAttribute>, name: string, id: int, schoolId: Int32)
    requires forall k :: k in attributes && attributes[k].name == name ==> attributes[k].schoolId != schoolId
    ensures !NameTakenByOtherInSchool(attributes, name, id, schoolId)
  {
  }

  /** GetByIdAsync. */
  function GetById(db: Db, id: int): (r: Response<CategoryAttribute>)
    reads db
    ensures r.success <==> id in db.attributes.rows
    ensures r.success ==> r.status == OK && r.data == Some(db.attributes.rows[id])
    ensures !r.success ==> r == Failure(NOT_FOUND, "Attribute not found")
  {
    if id in db.attributes.rows then Response(true, OK, None, Some(db.attributes.rows[id]))
    else Failure(NOT_FOUND, "Attribute not found")
  }

  /** GetAllAsync: the school's attributes ordered by name. */
  method GetAll(db: Db, schoolId: Int32) returns (r: Response<seq<CategoryAttribute>>)
    requires db.Valid()
    ensures r.success && r.status == OK && r.message == None && r.data.Some?
    ensures forall a :: a in r.data.value ==> a.id in db.attributes.rows && db.attributes.rows[a.id] == a && a.schoolId == schoolId
    ensures forall k :: k in db.attributes.rows && db.attributes.rows[k].schoolId == schoolId ==> db.attributes.rows[k] in r.data.value
    ensures forall i, j :: 0 <= i < j < |r.data.value| ==> r.data.value[i].id != r.data.value[j].id
    ensures SortedBy(r.data.value, Name)
  {
    var ids, rows := ListWhere(db.attributes.rows, (a: CategoryAttribute) => a.schoolId == schoolId, Name);
    forall a | a in rows
      ensures a.id in db.attributes.rows && db.attributes.rows[a.id] == a && a.schoolId == schoolId
    {
      var i :| 0 <= i < |rows| && rows[i] == a;
      assert ids[i] in db.attributes.rows && rows[i] == db.attributes.rows[ids[i]];
      assert db.attributes.rows[ids[i]].id == ids[i];
    }
    forall k | k in db.attributes.rows && db.attributes.rows[k].schoolId == schoolId
      ensures db.attributes.rows[k] in rows
    {
      var i :| 0 <= i < |ids| && ids[i] == k;
      assert rows[i] == db.attributes.rows[k];
    }
    forall i, j | 0 <= i < j < |rows|
      ensures rows[i].id != rows[j].id
    {
      assert rows[i] == db.attributes.rows[ids[i]] && rows[j] == db.attributes.rows[ids[j]];
    }
    r := Response(true, OK, None, Some(rows));
  }

  /** CreateAsync: the values are stored as sent, in order. */
  method Create(db: Db, users: UserDirectory, dto: AttributeCreate, now: Timestamp)
    returns (r: Response<CategoryAttribute>)
    requires db.Valid()
    modifies db
    ensures db.Valid()
    ensures var verdict := LooseDecision(users(dto.adminId), dto.schoolId);
      && (verdict.Denied? ==>
            r == Failure(FORBIDDEN, AdminMessage(verdict.reason, dto.schoolId)) && db.State() == old(db.State()))
      && (verdict.Allowed? && NameTakenInSchool(old(db.attributes.rows), dto.attributeName, dto.schoolId) ==>
            r == Failure(CONFLICT, "Attribute already exists.") && db.State() == old(db.State()))
      && (verdict.Allowed? && !NameTakenInSchool(old(db.attributes.rows), dto.attributeName, dto.schoolId) ==>
            var a := CategoryAttribute(old(db.attributes.nextId), dto.schoolId, dto.adminId, dto.attributeName,
                                       dto.values, true, now);
            && r == Response(true, CREATED, Some("Attribute created"), Some(a))
            && db.State() == old(db.State()).(attributes := Table(old(db.attributes.rows)[a.id := a], a.id + 1)))
    ensures r.success ==> GetById(db, r.data.value.id) == Response(true, OK, None, r.data)
    ensures old(UniqueWithin(db.attributes.rows, Name, School)) ==> UniqueWithin(db.attributes.rows, Name, School)
  {
    var verdict := LooseDecision(users(dto.adminId), dto.schoolId);
    if verdict.Denied? {
      return Failure(FORBIDDEN, AdminMessage(verdict.reason, dto.schoolId));
    }
    if NameTakenInSchool(db.attributes.rows, dto.attributeName, dto.schoolId) {
      return Failure(CONFLICT, "Attribute already exists.");
    }
    var a := CategoryAttribute(db.attributes.nextId, dto.schoolId, dto.adminId, dto.attributeName, dto.values, true, now);
    if UniqueWithin(db.attributes.rows, Name, School) {
      UniquePut(db.attributes.rows, Name, School, a.id, a);
    }
    db.attributes := Table(db.attributes.rows[a.id := a], a.id + 1);
    r := Response(true, CREATED, Some("Attribute created"), Some(a));
  }

  /** UpdateAsync: the admin is checked against the stored attribute's admin
      and school, and the name must be free among the other attributes of
      that school. */
  method Update(db: Db, users: UserDirectory, id: int, dto: AttributeUpdate) returns (r: Response<CategoryAttribute>)
    requires db.Valid()
    modifies db
    ensures db.Valid()
    ensures id !in old(db.attributes.rows) ==>
      r == Failure(NOT_FOUND, "Attribute not found") && db.State() == old(db.State())
    ensures id in old(db.attributes.rows) ==>
      var a := old(db.attributes.rows[id]);
      var verdict := LooseDecision(users(a.adminId), a.schoolId);
      && (verdict.Denied? ==>
            r == Failure(FORBIDDEN, AdminMessage(verdict.reason, a.schoolId)) && db.State() == old(db.State()))
      && (verdict.Allowed? && NameTakenByOtherInSchool(old(db.attributes.rows), dto.attributeName, id, a.schoolId) ==>
            r == Failure(CONFLICT, "Attribute name already exists.") && db.State() == old(db.State()))
      && (verdict.Allowed? && !NameTakenByOtherInSchool(old(db.attributes.rows), dto.attributeName, id, a.schoolId) ==>
            var a' := a.(name := dto.attributeName, values := dto.values, isActive := dto.isActive);
            && r == Response(true, OK, Some("Attribute updated"), Some(a'))
            && db.State() == old(db.State()).(attributes := old(db.attributes).(rows := old(db.attributes.rows)[id := a'])))
    ensures r.success ==> var a := r.data.value;
      && a.id == id && a.schoolId == old(db.attributes.rows[id].schoolId) && a.adminId == old(db.attributes.rows[id].adminId)
      && a.createdAt == old(db.attributes.rows[id].createdAt)
    ensures old(UniqueWithin(db.attributes.rows, Name, School)) ==> UniqueWithin(db.attributes.rows, Name, School)
  {
    if id !in db.attributes.rows {
      return Failure(NOT_FOUND, "Attribute not found");
    }
    var a := db.attributes.rows[id];
    var verdict := LooseDecision(users(a.adminId), a.schoolId);
    if verdict.Denied? {
      return Failure(FORBIDDEN, AdminMessage(verdict.reason, a.schoolId));
    }
    if NameTakenByOtherInSchool(db.attributes.rows, dto.attributeName, id, a.schoolId) {
      return Failure(CONFLICT, "Attribute name already exists.");
    }
    var a' := a.(name := dto.attributeName, values := dto.values, isActive := dto.isActive);
    if UniqueWithin(db.attributes.rows, Name, School) {
      UniquePut(db.attributes.rows, Name, School, id, a');
    }
    db.attributes := db.attributes.(rows := db.attributes.rows[id := a']);
    r := Response(true, OK, Some("Attribute updated"), Some(a'));
  }

  /** DeleteAsync: removes exactly the one attribute. */
  method Delete(db: Db, users: UserDirectory, id: int) returns (r: Response<bool>)
    requires db.Valid()
    modifies db
    ensures db.Valid()
    ensures id !in old(db.attributes.rows) ==>
      r == Response(false, NOT_FOUND, Some("Attribute not found"), Some(false)) && db.State() == old(db.State())
    ensures id in old(db.attributes.rows) ==>
      var a := old(db.attributes.rows[id]);
      var verdict := LooseDecision(users(a.adminId), a.schoolId);
      && (verdict.Denied? ==>
            r == Response(false, FORBIDDEN, Some(AdminMessage(verdict.reason, a.schoolId)), Some(false))
            && db.State() == old(db.State()))
      && (verdict.Allowed? ==>
            r == Response(true, OK, Some("Attribute deleted"), Some(true))
            && db.State() == old(db.State()).(attributes := old(db.attributes).(rows := old(db.attributes.rows) - {id})))
    ensures r.success ==> GetById(db, id) == Failure(NOT_FOUND, "Attribute not found")
  {
    if id !in db.attributes.rows {
      return Response(false, NOT_FOUND, Some("Attribute not found"), Some(false));
    }
    var a := db.attributes.rows[id];
    var verdict := LooseDecision(users(a.adminId), a.schoolId);
    if verdict.Denied? {
      return Response(false, FORBIDDEN, Some(AdminMessage(verdict.reason, a.schoolId)), Some(false));
    }
    db.attributes := db.attributes.(rows := db.attributes.rows - {id});
    r := Response(true, OK, Some("Attribute deleted"), Some(true));
  }
}
