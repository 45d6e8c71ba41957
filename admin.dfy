/** The remote admin check every service runs before a write
    (ValidateAdminAsync). The user service's JSON answer is a parameter: a
    `UserDirectory` gives, for each admin id, the parsed answer, or `None`
    when the call itself fails. Two variants of the decision exist in the
    services: the strict one (CategoryService, VendorService) checks the
    admin id and the kind of every field it reads; the loose one
    (ProductService, CategoryAttributeService) reads fields with
    `GetProperty`, whose exceptions are caught and turned into a denial. */
module Admin {
  import opened Common

  /** A parsed JSON value. `JNumber` is a number written as an integer,
      `JNonInteger` one written with a fraction or an exponent. */
  datatype Json =
    | JNull
    | JBool(b: bool)
    | JNumber(n: int)
    | JNonInteger
    | JString(s: string)
    | JArray(items: seq<Json>)
    | JObject(props: map<string, Json>)

  /** The user service: the answer `GET /api/user/get-user-info/{adminId}` gives. */
  type UserDirectory = Guid -> Option<Json>

  /** Why an admin is refused; each service words these in its own message. */
  datatype Denial =
    | AdminIdRequired
    | AdminNotFound
    | MissingData
    | MissingSchoolId
    | WrongSchool(adminSchool: Int32)
    | MissingRoles
    | NoPermission
    | ValidationFailed  // an exception was caught

  datatype Verdict = Allowed | Denied(reason: Denial)

  /** Membership in { "super_admin", "store_admin" } under `OrdinalIgnoreCase`. */
  predicate IsAllowedRole(r: string) {
    EqualsIgnoreCase(r, "super_admin") || EqualsIgnoreCase(r, "store_admin")
  }

  /** `ValueKind == JsonValueKind.Number`. */
  predicate IsNumber(e: Json) { e.JNumber? || e.JNonInteger? }

  /** `GetInt32()`: `None` where it throws. */
  function AsInt32(e: Json): Option<Int32> {
    if e.JNumber? && INT32_MIN <= e.n <= INT32_MAX then Some(e.n) else None
  }

  /** Strict roles: the string elements of the array, others skipped. */
  function StringRoles(items: seq<Json>): (roles: seq<string>)
    ensures |roles| <= |items|
    ensures forall r :: r in roles <==> exists i :: 0 <= i < |items| && items[i] == JString(r)
  {
    if items == [] then []
    else (if items[0].JString? then [items[0].s] else []) + StringRoles(items[1..])
  }

  /** `roles.Any(allowed.Contains)`. */
  function AnyAllowed(roles: seq<string>): bool {
    roles != [] && (IsAllowedRole(roles[0]) || AnyAllowed(roles[1..]))
  }

  /** Loose roles: `GetString()` on every element, which gives `null` for a
      JSON null and throws (`None`) for anything but a string or null. */
  function GetStrings(items: seq<Json>): (roles: Option<seq<Option<string>>>)
    ensures roles.Some? ==> |roles.value| == |items|
    ensures roles.Some? ==> forall i :: 0 <= i < |items| ==>
      (items[i].JString? ==> roles.value[i] == Some(items[i].s)) && (items[i].JNull? ==> roles.value[i] == None)
  {
    if items == [] then Some([])
    else
      var head: Option<Option<string>> :=
        if items[0].JString? then Some(Some(items[0].s))
        else if items[0].JNull? then Some(None)
        else None;
      match (head, GetStrings(items[1..]))
      case (Some(h), Some(t)) => Some([h] + t)
      case _ => None
  }

  /** `roles.Any(r => allowed.Contains(r, OrdinalIgnoreCase))`: a null never matches. */
  function AnyAllowedOrNull(roles: seq<Option<string>>): bool {
    roles != [] && ((roles[0].Some? && IsAllowedRole(roles[0].value)) || AnyAllowedOrNull(roles[1..]))
  }

  /** The strict check (CategoryService.ValidateAdminAsync, VendorService.ValidateAdminAsync). */
  function StrictDecision(adminId: Guid, response: Option<Json>, schoolId: Int32): Verdict {
    if adminId == EMPTY_GUID then Denied(AdminIdRequired)
    else match response
      case None => Denied(ValidationFailed)
      case Some(root) =>
        if !root.JObject? then Denied(ValidationFailed)
        else if "success" !in root.props then Denied(AdminNotFound)
        else if !root.props["success"].JBool? then Denied(ValidationFailed)
        else if !root.props["success"].b then Denied(AdminNotFound)
        else if "data" !in root.props then Denied(MissingData)
        else StrictData(root.props["data"], schoolId)
  }

  function StrictData(data: Json, schoolId: Int32): Verdict {
    if !data.JObject? then Denied(ValidationFailed)
    else if "schoolId" !in data.props || !IsNumber(data.props["schoolId"]) then Denied(MissingSchoolId)
    else match AsInt32(data.props["schoolId"])
      case None => Denied(ValidationFailed)
      case Some(adminSchool) =>
        if adminSchool != schoolId then Denied(WrongSchool(adminSchool))
        else if "roles" !in data.props || !data.props["roles"].JArray? then Denied(MissingRoles)
        else if AnyAllowed(StringRoles(data.props["roles"].items)) then Allowed
        else Denied(NoPermission)
  }

  /** The loose check (ProductService.ValidateAdminAsync, CategoryAttributeService.ValidateAdminAsync). */
  function LooseDecision(response: Option<Json>, schoolId: Int32): Verdict {
    match response
    case None => Denied(ValidationFailed)
    case Some(root) =>
      if !root.JObject? then Denied(ValidationFailed)
      else if "success" !in root.props then Denied(AdminNotFound)
      else if !root.props["success"].JBool? then Denied(ValidationFailed)
      else if !root.props["success"].b then Denied(AdminNotFound)
      else if "data" !in root.props then Denied(MissingData)
      else LooseData(root.props["data"], schoolId)
  }

  function LooseData(data: Json, schoolId: Int32): Verdict {
    if !data.JObject? || "schoolId" !in data.props then Denied(ValidationFailed)
    else match AsInt32(data.props["schoolId"])
      case None => Denied(ValidationFailed)
      case Some(adminSchool) =>
        if adminSchool != schoolId then Denied(WrongSchool(adminSchool))
        else if "roles" !in data.props || !data.props["roles"].JArray? then Denied(ValidationFailed)
        else match GetStrings(data.props["roles"].items)
          case None => Denied(ValidationFailed)
          case Some(roles) => if AnyAllowedOrNull(roles) then Allowed else Denied(NoPermission)
  }

  // ---------------------------------------------------------------------
  // What an answer must say for the admin to be let through, stated
  // directly, and the two decisions proved against it.
  // ---------------------------------------------------------------------

  /** The element at `i` is a role string that grants access. */
  predicate GrantsAt(items: seq<Json>, i: int)
    requires 0 <= i < |items|
  {
    items[i].JString? && IsAllowedRole(items[i].s)
  }

  /** The answer says: success, the admin's school is `schoolId`, and one of
      the roles is an allowed one. */
  ghost predicate Grants(response: Option<Json>, schoolId: Int32) {
    && response.Some? && response.value.JObject?
    && "success" in response.value.props && response.value.props["success"] == JBool(true)
    && "data" in response.value.props && response.value.props["data"].JObject?
    && var data := response.value.props["data"].props;
    && "schoolId" in data && data["schoolId"] == JNumber(schoolId)
    && "roles" in data && data["roles"].JArray?
    && exists i :: 0 <= i < |data["roles"].items| && GrantsAt(data["roles"].items, i)
  }

  /** Every role element is a string or null, so `GetString()` never throws. */
  ghost predicate RolesReadable(response: Option<Json>) {
    && response.Some? && response.value.JObject?
    && "data" in response.value.props && response.value.props["data"].JObject?
    && var data := response.value.props["data"].props;
    && "roles" in data && data["roles"].JArray?
    && forall i :: 0 <= i < |data["roles"].items| ==>
         data["roles"].items[i].JString? || data["roles"].items[i].JNull?
  }

  lemma {:induction false} AnyAllowedStringRoles(items: seq<Json>)
    ensures AnyAllowed(StringRoles(items)) <==> exists i :: 0 <= i < |items| && GrantsAt(items, i)
  {
    if items != [] {
      AnyAllowedStringRoles(items[1..]);
      var rest := StringRoles(items[1..]);
      if items[0].JString? {
        assert StringRoles(items) == [items[0].s] + rest;
        assert ([items[0].s] + rest)[1..] == rest;
      } else {
        assert StringRoles(items) == rest;
      }
      assert AnyAllowed(StringRoles(items)) == (GrantsAt(items, 0) || AnyAllowed(rest));
      if exists i :: 0 <= i < |items[1..]| && GrantsAt(items[1..], i) {
        var i :| 0 <= i < |items[1..]| && GrantsAt(items[1..], i);
        assert GrantsAt(items, i + 1);
      }
      if exists i :: 0 <= i < |items| && GrantsAt(items, i) {
        var i :| 0 <= i < |items| && GrantsAt(items, i);
        if i > 0 {
          assert GrantsAt(items[1..], i - 1);
        }
      }
    }
  }

  lemma {:induction false} GetStringsReads(items: seq<Json>)
    ensures GetStrings(items).Some? <==> forall i :: 0 <= i < |items| ==> items[i].JString? || items[i].JNull?
    ensures GetStrings(items).Some? ==>
      (AnyAllowedOrNull(GetStrings(items).value) <==> exists i :: 0 <= i < |items| && GrantsAt(items, i))
  {
    if items != [] {
      GetStringsReads(items[1..]);
      if !(items[0].JString? || items[0].JNull?) {
        assert GetStrings(items).None?;
      } else if GetStrings(items[1..]).None? {
        var j :| 0 <= j < |items[1..]| && !(items[1..][j].JString? || items[1..][j].JNull?);
        assert !(items[j + 1].JString? || items[j + 1].JNull?);
      } else {
        var rest := GetStrings(items[1..]).value;
        var h: Option<string> := if items[0].JString? then Some(items[0].s) else None;
        assert GetStrings(items) == Some([h] + rest);
        assert ([h] + rest)[1..] == rest;
        assert AnyAllowedOrNull(GetStrings(items).value) == (GrantsAt(items, 0) || AnyAllowedOrNull(rest));
        forall i | 0 <= i < |items|
          ensures items[i].JString? || items[i].JNull?
        {
          if i > 0 { assert items[i] == items[1..][i - 1]; }
        }
        if exists i :: 0 <= i < |items[1..]| && GrantsAt(items[1..], i) {
          var i :| 0 <= i < |items[1..]| && GrantsAt(items[1..], i);
          assert GrantsAt(items, i + 1);
        }
        if exists i :: 0 <= i < |items| && GrantsAt(items, i) {
          var i :| 0 <= i < |items| && GrantsAt(items, i);
          if i > 0 {
            assert GrantsAt(items[1..], i - 1);
          }
        }
      }
    }
  }

  /** The strict check lets an admin through exactly when the admin id is not
      empty and the answer grants access; an empty id is refused before the
      user service is asked. */
  lemma StrictAllowedIff(adminId: Guid, response: Option<Json>, schoolId: Int32)
    ensures StrictDecision(adminId, response, schoolId) == Allowed
        <==> adminId != EMPTY_GUID && Grants(response, schoolId)
    ensures adminId == EMPTY_GUID ==> StrictDecision(adminId, response, schoolId) == Denied(AdminIdRequired)
  {
    if response.Some? && response.value.JObject? && "data" in response.value.props {
      var data := response.value.props["data"];
      if data.JObject? && "roles" in data.props && data.props["roles"].JArray? {
        AnyAllowedStringRoles(data.props["roles"].items);
      }
    }
  }

  /** The loose check lets an admin through exactly when the answer grants
      access and no role element is anything but a string or null. */
  lemma LooseAllowedIff(response: Option<Json>, schoolId: Int32)
    ensures LooseDecision(response, schoolId) == Allowed
        <==> Grants(response, schoolId) && RolesReadable(response)
  {
    if response.Some? && response.value.JObject? && "data" in response.value.props {
      var data := response.value.props["data"];
      if data.JObject? && "roles" in data.props && data.props["roles"].JArray? {
        GetStringsReads(data.props["roles"].items);
      }
    }
  }

  /** Whatever the loose check accepts, the strict check accepts too. */
  lemma LooseImpliesStrict(adminId: Guid, response: Option<Json>, schoolId: Int32)
    requires adminId != EMPTY_GUID
    requires LooseDecision(response, schoolId) == Allowed
    ensures StrictDecision(adminId, response, schoolId) == Allowed
  {
    LooseAllowedIff(response, schoolId);
    StrictAllowedIff(adminId, response, schoolId);
  }

  /** The converse fails: a number among the roles makes `GetString()` throw
      in the loose check, while the strict check skips it. */
  lemma StrictAcceptsWhatLooseRefuses(adminId: Guid)
    requires adminId != EMPTY_GUID
    ensures var response := Some(JObject(map[
              "success" := JBool(true),
              "data" := JObject(map["schoolId" := JNumber(7), "roles" := JArray([JNumber(1), JString("store_admin")])])]));
            StrictDecision(adminId, response, 7) == Allowed
            && LooseDecision(response, 7) == Denied(ValidationFailed)
  {
    var items := [JNumber(1), JString("store_admin")];
    assert StringRoles(items) == ["store_admin"] by {
      assert items[1..] == [JString("store_admin")];
      assert StringRoles(items[1..][1..]) == [];
    }
    assert IsAllowedRole("store_admin");
  }

  /** The user service failing, or answering with anything but an object,
      refuses the admin in both checks. */
  lemma FailClosed(adminId: Guid, response: Option<Json>, schoolId: Int32)
    requires response.None? || !response.value.JObject?
    ensures StrictDecision(adminId, response, schoolId).Denied?
    ensures LooseDecision(response, schoolId) == Denied(ValidationFailed)
  {
  }

  /** The loose check never refuses for an empty admin id, a missing or
      non-numeric school or missing roles: those answers fall through to
      the caught exception instead. */
  lemma LooseReasons(response: Option<Json>, schoolId: Int32)
    ensures var v := LooseDecision(response, schoolId);
      v.Denied? ==> !(v.reason.AdminIdRequired? || v.reason.MissingSchoolId? || v.reason.MissingRoles?)
  {
  }

  /** Roles are compared ignoring the case of their letters: two spellings
      that differ only in case both grant access or both do not. */
  lemma AllowedRoleIgnoresCase(a: string, b: string)
    requires EqualsIgnoreCase(a, b)
    ensures IsAllowedRole(a) <==> IsAllowedRole(b)
  {
  }
}
