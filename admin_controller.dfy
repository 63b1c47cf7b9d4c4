/**
 * The administration panel: account deletion and role toggling under the
 * "never remove the last Administrator" rule, publication toggling and
 * deletion of any survey or template, and the paged, searchable listings.
 *
 * ASP.NET Identity looks roles up by their normalised name, so role
 * memberships are keyed by NormalizeName(roleName).
 */
module AdminController {
  import opened Wrappers
  import opened SurveyData
  import opened Text
  import Linq
  import SurveyService
  import SurveyController
  import PublicController

  const AdministratorRole := "Administrator"

  /** The normalised name of the Administrator role. */
  const AdministratorKey := "ADMINISTRATOR"

  /** The default lookup normaliser: upper case. */
  function NormalizeName(name: string): string {
    ToUpperAscii(name)
  }

  /** "Administrator" and "administrator" both normalise to the Administrator role's key. */
  lemma AdministratorKeyNormal()
    ensures NormalizeName(AdministratorRole) == AdministratorKey
    ensures NormalizeName("administrator") == AdministratorKey
  {
    UpperAdministrator(AdministratorRole);
    UpperAdministrator("administrator");
  }

  /** Any spelling of "administrator" whose first letter upper-cases to 'A' normalises to the key. */
  lemma UpperAdministrator(s: string)
    requires |s| == 13 && s[1..] == "dministrator" && ToUpperAsciiChar(s[0]) == 'A'
    ensures NormalizeName(s) == AdministratorKey
  {
    var u := NormalizeName(s);
    assert u[0] == 'A';
    assert u[1] == 'D' && u[2] == 'M' && u[3] == 'I' && u[4] == 'N' && u[5] == 'I' && u[6] == 'S';
    assert u[7] == 'T' && u[8] == 'R' && u[9] == 'A' && u[10] == 'T' && u[11] == 'O' && u[12] == 'R';
  }

  /** The members of the Administrator role (GetUsersInRoleAsync("Administrator")). */
  function Admins(roles: map<string, set<string>>): set<string> {
    if AdministratorKey in roles then roles[AdministratorKey] else {}
  }

  /** adminUsers.Count == 1 && adminUsers.First().Id == id */
  predicate IsSoleAdmin(roles: map<string, set<string>>, id: string) {
    |Admins(roles)| == 1 && id in Admins(roles)
  }

  /** FindByIdAsync, as an index (|users| when there is no such account). */
  function IndexOfUser(users: seq<AppUser>, id: string): (k: nat)
    ensures k <= |users|
    ensures k < |users| ==> users[k].id == id
    ensures k == |users| <==> id !in UserIds(users)
  {
    if users == [] then 0
    else if users[0].id == id then 0
    else
      assert UserIds(users) == {users[0].id} + UserIds(users[1..]) by {
        assert forall i :: 0 < i < |users| ==> users[i] == users[1..][i - 1];
      }
      1 + IndexOfUser(users[1..], id)
  }

  // Deleting an account

  datatype DeleteUserResult =
    | UserNotFound
    | LastAdminRefused(message: string)
    /** DeleteAsync's SaveChanges violates a foreign key that has no ON DELETE action; the
        DbUpdateException is not caught by the action, so the request ends in a server error. */
    | UserDeleteThrows
    | UserDeleted(message: string)

  const LastAdminMessage := "Нельзя удалить последнего администратора."
  const UserDeletedMessage := "Пользователь успешно удален."

  /** The memberships once account `id` is gone: it leaves every role, and no role disappears. */
  function WithoutMember(roles: map<string, set<string>>, id: string): (r: map<string, set<string>>)
    ensures r.Keys == roles.Keys
    ensures forall n :: n in roles ==> id !in r[n] && r[n] + (roles[n] * {id}) == roles[n]
  {
    map n | n in roles :: roles[n] - {id}
  }

  /** Some survey names account `id` as its creator (FK_Surveys_User_CreatorId, no ON DELETE action). */
  predicate OwnsSurvey(surveys: seq<Survey>, id: string) {
    exists i :: 0 <= i < |surveys| && surveys[i].creatorId == id
  }

  /** Some saved response names account `id` as its respondent (FK_SurveyResponses_User_UserId,
      no ON DELETE action). */
  predicate Responded(responses: seq<SurveyResponse>, id: string) {
    exists i :: 0 <= i < |responses| && responses[i].userId == Some(id)
  }

  /** The rows that still refer to account `id` and make the database refuse its deletion. */
  predicate StillReferenced(db: SurveyDb, id: string)
    reads db
  {
    OwnsSurvey(db.surveys, id) || Responded(db.responses, id)
  }

  /** Deleting anyone but the sole administrator leaves an administrator. */
  lemma DeleteKeepsAnAdmin(roles: map<string, set<string>>, id: string)
    requires |Admins(roles)| > 0 && !IsSoleAdmin(roles, id)
    ensures |Admins(WithoutMember(roles, id))| > 0
  {
    var admins := Admins(roles);
    var x :| x in admins;
    if x == id {
      var y :| y in admins - {id} by {
        assert |admins - {id}| == |admins| - 1;
      }
      x := y;
    }
    assert x in Admins(WithoutMember(roles, id));
  }

  /**
   * DeleteUser: NotFound for an empty or unknown id; refused, with nothing removed, when
   * the account is the only Administrator; an unhandled database exception, with nothing
   * removed, when a survey or a saved response still refers to the account; otherwise the
   * account and its memberships go.
   */
  method DeleteUser(db: SurveyDb, id: Option<string>) returns (r: DeleteUserResult)
    requires db.Valid()
    modifies db`users, db`roles
    ensures db.Valid()
    ensures r == UserNotFound <==> SurveyController.IsNullOrEmpty(id) || id.value !in UserIds(old(db.users))
    ensures r.LastAdminRefused? <==> r != UserNotFound && IsSoleAdmin(old(db.roles), id.value)
    ensures r.LastAdminRefused? ==> r.message == LastAdminMessage
    ensures r == UserDeleteThrows <==>
      r != UserNotFound && !IsSoleAdmin(old(db.roles), id.value) && StillReferenced(db, id.value)
    ensures !r.UserDeleted? ==> db.users == old(db.users) && db.roles == old(db.roles)
    ensures r.UserDeleted? ==>
      && r.message == UserDeletedMessage
      && db.users == WithoutUser(old(db.users), id.value)
      && db.roles == WithoutMember(old(db.roles), id.value)
    ensures |Admins(old(db.roles))| > 0 ==> |Admins(db.roles)| > 0
  {
    if SurveyController.IsNullOrEmpty(id) {
      return UserNotFound;
    }
    var k := IndexOfUser(db.users, id.value);
    if k == |db.users| {
      return UserNotFound;
    }
    if IsSoleAdmin(db.roles, id.value) {
      return LastAdminRefused(LastAdminMessage);
    }
    if StillReferenced(db, id.value) {
      return UserDeleteThrows;
    }
    RemoveAccount(db, id.value);
    r := UserDeleted(UserDeletedMessage);
  }

  /** DeleteAsync on an account that is not the sole administrator: the row and its memberships go. */
  method RemoveAccount(db: SurveyDb, id: string)
    requires db.Valid() && !IsSoleAdmin(db.roles, id)
    modifies db`users, db`roles
    ensures db.Valid()
    ensures db.users == WithoutUser(old(db.users), id) && db.roles == WithoutMember(old(db.roles), id)
    ensures |Admins(old(db.roles))| > 0 ==> |Admins(db.roles)| > 0
  {
    if |Admins(db.roles)| > 0 {
      DeleteKeepsAnAdmin(db.roles, id);
    }
    UsersValidRemove(db.users, db.roles, id);
    db.users := WithoutUser(db.users, id);
    db.roles := WithoutMember(db.roles, id);
  }

  /** The accounts without account `id` (the row DeleteAsync removes). */
  function WithoutUser(users: seq<AppUser>, id: string): seq<AppUser> {
    Linq.Filter(users, NotAccount(id))
  }

  function NotAccount(id: string): AppUser -> bool {
    (u: AppUser) => u.id != id
  }

  function AccountId(u: AppUser): string { u.id }

  /** Removing an account keeps every other account. */
  lemma WithoutUserKeepsOthers(users: seq<AppUser>, id: string, x: string)
    requires x in UserIds(users) && x != id
    ensures x in UserIds(WithoutUser(users, id))
  {
    var r := WithoutUser(users, id);
    var k :| 0 <= k < |users| && users[k].id == x;
    assert users[k] in r;
    var j :| 0 <= j < |r| && r[j] == users[k];
  }

  /** Removing an account and its memberships keeps the user store consistent. */
  lemma UsersValidRemove(users: seq<AppUser>, roles: map<string, set<string>>, id: string)
    requires UsersValid(users, roles)
    ensures UsersValid(WithoutUser(users, id), WithoutMember(roles, id))
  {
    Linq.FilterDistinct(users, NotAccount(id), AccountId);
    var kept := WithoutUser(users, id);
    forall i, j | 0 <= i < j < |kept| ensures kept[i].id != kept[j].id {
      assert AccountId(kept[i]) != AccountId(kept[j]);
    }
    var rs := WithoutMember(roles, id);
    forall n, x | n in rs && x in rs[n] ensures x in UserIds(WithoutUser(users, id)) {
      WithoutUserKeepsOthers(users, id, x);
    }
  }

  // Toggling a role

  /** The outcomes of ToggleUserRole. `RoleMissing` is the InvalidOperationException that
      AddToRoleAsync throws for a role name no stored role normalises to; the action does not
      catch it, so the request fails with nothing changed and no TempData message. */
  datatype ToggleRoleResult =
    | ToggleBadRequest
    | ToggleNotFound
    | RoleRemovalRefused(message: string)
    | RoleMissing
    | RoleRemoved(message: string)
    | RoleAdded(message: string)

  const LastAdminRoleMessage := "Нельзя удалить роль администратора у последнего администратора."

  function RoleRemovedMessage(roleName: string): string {
    "Роль '" + roleName + "' успешно удалена у пользователя."
  }

  function RoleAddedMessage(roleName: string): string {
    "Роль '" + roleName + "' успешно добавлена пользователю."
  }

  /** IsInRoleAsync: the role exists and lists the account. */
  predicate InRole(roles: map<string, set<string>>, userId: string, roleName: string) {
    var n := NormalizeName(roleName);
    n in roles && userId in roles[n]
  }

  /** The membership of `userId` in role `n` flipped: removed when present, added otherwise. */
  function Toggled(roles: map<string, set<string>>, n: string, userId: string): (r: map<string, set<string>>)
    requires n in roles
    ensures r.Keys == roles.Keys
    ensures userId in r[n] <==> userId !in roles[n]
    ensures forall m :: m in roles && m != n ==> r[m] == roles[m]
    ensures forall x :: x != userId ==> (x in r[n] <==> x in roles[n])
  {
    roles[n := if userId in roles[n] then roles[n] - {userId} else roles[n] + {userId}]
  }

  /** Toggling the same membership twice restores the memberships. */
  lemma ToggledTwice(roles: map<string, set<string>>, n: string, userId: string)
    requires n in roles
    ensures Toggled(Toggled(roles, n, userId), n, userId) == roles
  {
    var once := Toggled(roles, n, userId);
    var twice := Toggled(once, n, userId);
    assert twice[n] == roles[n];
  }

  /** The guard as written: the removal is checked only when the posted name is exactly "Administrator". */
  predicate RemovalRefusedAsWritten(roles: map<string, set<string>>, userId: string, roleName: string) {
    roleName == AdministratorRole && IsSoleAdmin(roles, userId)
  }

  /** The guard as intended: any spelling Identity resolves to the Administrator role is checked. */
  predicate RemovalRefused(roles: map<string, set<string>>, userId: string, roleName: string) {
    NormalizeName(roleName) == AdministratorKey && IsSoleAdmin(roles, userId)
  }

  /** As written, posting "administrator" for the sole administrator passes the guard and
      removes the last administrator. */
  lemma LowerCaseRoleDropsLastAdmin()
    ensures var roles := map[NormalizeName(AdministratorRole) := {"u1"}];
      && IsSoleAdmin(roles, "u1")
      && InRole(roles, "u1", "administrator")
      && !RemovalRefusedAsWritten(roles, "u1", "administrator")
      && Admins(Toggled(roles, NormalizeName("administrator"), "u1")) == {}
  {
    AdministratorKeyNormal();
    var roles := map[AdministratorKey := {"u1"}];
    assert "administrator" != AdministratorRole by {
      assert "administrator"[0] != AdministratorRole[0];
    }
    assert Toggled(roles, AdministratorKey, "u1")[AdministratorKey] == {};
  }

  /** With the intended guard no toggle that goes through leaves the system without an administrator. */
  lemma ToggleKeepsAnAdmin(roles: map<string, set<string>>, userId: string, roleName: string)
    requires NormalizeName(roleName) in roles && |Admins(roles)| > 0
    requires InRole(roles, userId, roleName) ==> !RemovalRefused(roles, userId, roleName)
    ensures |Admins(Toggled(roles, NormalizeName(roleName), userId))| > 0
  {
    var n := NormalizeName(roleName);
    var admins := Admins(roles);
    var after := Admins(Toggled(roles, n, userId));
    if n == AdministratorKey {
      if userId in admins {
        assert !IsSoleAdmin(roles, userId);
        var y :| y in admins - {userId} by {
          assert |admins - {userId}| == |admins| - 1;
        }
        assert y in after;
      } else {
        assert userId in after;
      }
    } else {
      assert after == admins;
    }
  }

  /**
   * ToggleUserRole: BadRequest for an empty id or role name, NotFound for an unknown
   * account; a member leaves the role unless that would remove the sole administrator; a
   * non-member joins it, and an unknown role makes AddToRoleAsync fail.
   */
  method ToggleUserRole(db: SurveyDb, userId: Option<string>, roleName: Option<string>)
    returns (r: ToggleRoleResult)
    requires db.Valid()
    modifies db`roles
    ensures db.Valid()
    ensures r == ToggleBadRequest <==> SurveyController.IsNullOrEmpty(userId) || SurveyController.IsNullOrEmpty(roleName)
    ensures r == ToggleNotFound <==> r != ToggleBadRequest && userId.value !in UserIds(db.users)
    ensures r.RoleRemovalRefused? <==>
      !r.ToggleBadRequest? && !r.ToggleNotFound?
      && InRole(old(db.roles), userId.value, roleName.value) && RemovalRefused(old(db.roles), userId.value, roleName.value)
    ensures r.RoleRemovalRefused? ==> r.message == LastAdminRoleMessage
    ensures r == RoleMissing <==>
      !r.ToggleBadRequest? && !r.ToggleNotFound? && NormalizeName(roleName.value) !in old(db.roles)
    ensures r.RoleRemoved? <==>
      !r.ToggleBadRequest? && !r.ToggleNotFound? && !r.RoleRemovalRefused? && InRole(old(db.roles), userId.value, roleName.value)
    ensures r.RoleRemoved? ==> r.message == RoleRemovedMessage(roleName.value)
    ensures r.RoleAdded? ==> r.message == RoleAddedMessage(roleName.value)
    ensures r.RoleRemoved? || r.RoleAdded? ==>
      db.roles == Toggled(old(db.roles), NormalizeName(roleName.value), userId.value)
    ensures !(r.RoleRemoved? || r.RoleAdded?) ==> db.roles == old(db.roles)
    ensures |Admins(old(db.roles))| > 0 ==> |Admins(db.roles)| > 0
  {
    if SurveyController.IsNullOrEmpty(userId) || SurveyController.IsNullOrEmpty(roleName) {
      return ToggleBadRequest;
    }
    var uid, name := userId.value, roleName.value;
    if IndexOfUser(db.users, uid) == |db.users| {
      return ToggleNotFound;
    }
    var n := NormalizeName(name);
    if InRole(db.roles, uid, name) {
      if RemovalRefused(db.roles, uid, name) {
        return RoleRemovalRefused(LastAdminRoleMessage);
      }
      r := RoleRemoved(RoleRemovedMessage(name));
    } else {
      if n !in db.roles {
        return RoleMissing;
      }
      r := RoleAdded(RoleAddedMessage(name));
    }
    FlipMembership(db, uid, name);
  }

  /** RemoveFromRoleAsync or AddToRoleAsync on an existing account and role, past the guard. */
  method FlipMembership(db: SurveyDb, uid: string, name: string)
    requires db.Valid() && uid in UserIds(db.users) && NormalizeName(name) in db.roles
    requires InRole(db.roles, uid, name) ==> !RemovalRefused(db.roles, uid, name)
    modifies db`roles
    ensures db.Valid()
    ensures db.roles == Toggled(old(db.roles), NormalizeName(name), uid)
    ensures |Admins(old(db.roles))| > 0 ==> |Admins(db.roles)| > 0
  {
    var n := NormalizeName(name);
    if |Admins(db.roles)| > 0 {
      ToggleKeepsAnAdmin(db.roles, uid, name);
    }
    db.roles := Toggled(db.roles, n, uid);
  }

  // Surveys and templates

  datatype AdminSurveyResult = AdminNotFound | AdminDone(message: string)

  const SurveyPublishedMessage := "Опрос опубликован."
  const SurveyUnpublishedMessage := "Опрос снят с публикации."
  const SurveyDeletedMessage := "Опрос успешно удален."
  const TemplateDeletedMessage := "Шаблон успешно удален."

  /** ToggleSurveyPublish: NotFound for an unknown id; otherwise IsPublished is negated, with no other check. */
  method ToggleSurveyPublish(db: SurveyDb, id: int) returns (r: AdminSurveyResult)
    requires db.Valid()
    modifies db`surveys
    ensures db.Valid()
    ensures r == AdminNotFound <==> id !in SurveyIds(old(db.surveys))
    ensures r == AdminNotFound ==> db.surveys == old(db.surveys)
    ensures r.AdminDone? ==>
      var k := IndexOfSurvey(old(db.surveys), id);
      && db.surveys == SurveyController.SetPublished(old(db.surveys), k, !old(db.surveys)[k].isPublished)
      && r.message == (if db.surveys[k].isPublished then SurveyPublishedMessage else SurveyUnpublishedMessage)
  {
    var k := IndexOfSurvey(db.surveys, id);
    if k == |db.surveys| {
      return AdminNotFound;
    }
    var flag := !db.surveys[k].isPublished;
    SurveyService.StorePublished(db, k, flag);
    r := AdminDone(if flag then SurveyPublishedMessage else SurveyUnpublishedMessage);
  }

  /** Toggling twice restores the survey list. */
  lemma TogglePublishTwice(surveys: seq<Survey>, k: nat)
    requires k < |surveys|
    ensures var once := SurveyController.SetPublished(surveys, k, !surveys[k].isPublished);
      SurveyController.SetPublished(once, k, !once[k].isPublished) == surveys
  {
    var once := SurveyController.SetPublished(surveys, k, !surveys[k].isPublished);
    var twice := SurveyController.SetPublished(once, k, !once[k].isPublished);
    assert twice[k] == surveys[k];
  }

  /** The toggle publishes a survey without questions, which the owner's Publish refuses,
      and the survey becomes visible to the public. */
  lemma ToggleBypassesQuestionCheck(surveys: seq<Survey>, k: nat, userId: Option<string>)
    requires k < |surveys| && PublicController.DistinctIds(surveys)
    requires surveys[k].questions == [] && !surveys[k].isPublished
    ensures SurveyController.PublishCheck(surveys, surveys[k].id, userId) != SurveyController.Published
    ensures PublicController.ViewSurvey(SurveyController.SetPublished(surveys, k, true), surveys[k].id).ViewPass?
  {
    assert surveys[k].id in SurveyIds(surveys);
    assert IndexOfSurvey(surveys, surveys[k].id) == k;
    var t := SurveyController.SetPublished(surveys, k, true);
    assert PublicController.IsVisible(t[k], surveys[k].id);
  }

  /** DeleteSurvey: NotFound for an unknown id; otherwise that survey goes, whoever created it,
      and its responses with it. */
  method DeleteSurvey(db: SurveyDb, id: int) returns (r: AdminSurveyResult)
    requires db.Valid()
    modifies db`surveys, db`responses
    ensures db.Valid()
    ensures r == AdminNotFound <==> id !in SurveyIds(old(db.surveys))
    ensures r == AdminNotFound ==> db.surveys == old(db.surveys) && db.responses == old(db.responses)
    ensures r.AdminDone? ==>
      && r.message == SurveyDeletedMessage
      && db.surveys == SurveyService.RemoveAt(old(db.surveys), IndexOfSurvey(old(db.surveys), id))
      && db.responses == SurveyService.ResponsesAfterDelete(old(db.responses), id)
  {
    var k := IndexOfSurvey(db.surveys, id);
    if k == |db.surveys| {
      return AdminNotFound;
    }
    SurveyService.SurveysValidRemove(db.surveys, k, db.nextSurveyId, db.nextQuestionId, db.nextOptionId);
    SurveyService.ResponsesAfterDeleteDistinct(db.responses, id);
    db.surveys := SurveyService.RemoveAt(db.surveys, k);
    db.responses := SurveyService.ResponsesAfterDelete(db.responses, id);
    r := AdminDone(SurveyDeletedMessage);
  }

  /** After the delete no survey has the id, and no response refers to it. */
  lemma DeleteSurveyGone(surveys: seq<Survey>, responses: seq<SurveyResponse>, k: nat)
    requires k < |surveys| && PublicController.DistinctIds(surveys)
    ensures surveys[k].id !in SurveyIds(SurveyService.RemoveAt(surveys, k))
    ensures var rest := SurveyService.ResponsesAfterDelete(responses, surveys[k].id);
      forall i :: 0 <= i < |rest| ==> rest[i].surveyId != surveys[k].id
  {
    var t := SurveyService.RemoveAt(surveys, k);
    forall i | 0 <= i < |t| ensures t[i].id != surveys[k].id {
      if i < k {
        assert t[i] == surveys[i];
      } else {
        assert t[i] == surveys[i + 1];
      }
    }
  }

  /** DeleteTemplate: NotFound for an unknown id; otherwise that template goes. */
  method DeleteTemplate(db: SurveyDb, id: int) returns (r: AdminSurveyResult)
    requires db.Valid()
    modifies db`templates
    ensures db.Valid()
    ensures r == AdminNotFound <==> SurveyController.IndexOfTemplate(old(db.templates), id) == |old(db.templates)|
    ensures r == AdminNotFound ==> db.templates == old(db.templates)
    ensures r.AdminDone? ==>
      && r.message == TemplateDeletedMessage
      && db.templates == SurveyService.RemoveAt(old(db.templates), SurveyController.IndexOfTemplate(old(db.templates), id))
      && SurveyController.IndexOfTemplate(db.templates, id) == |db.templates|
  {
    var k := SurveyController.IndexOfTemplate(db.templates, id);
    if k == |db.templates| {
      return AdminNotFound;
    }
    var t := SurveyService.RemoveAt(db.templates, k);
    forall i, j | 0 <= i < j < |t| ensures t[i].id != t[j].id {
      var i' := if i < k then i else i + 1;
      var j' := if j < k then j else j + 1;
      assert t[i] == db.templates[i'] && t[j] == db.templates[j'];
    }
    forall i | 0 <= i < |t| ensures t[i].id != id {
      var i' := if i < k then i else i + 1;
      assert t[i] == db.templates[i'];
    }
    db.templates := t;
    r := AdminDone(TemplateDeletedMessage);
  }

  // Listings: search, then Skip((page - 1) * pageSize).Take(pageSize)

  function Min(a: int, b: int): int { if a <= b then a else b }

  /** An int product as C# computes it outside a `checked` context: reduced into the
      32-bit range. */
  function WrapInt32(x: int): (r: int)
    ensures -0x8000_0000 <= r < 0x8000_0000
    ensures (x - r) % 0x1_0000_0000 == 0
    ensures -0x8000_0000 <= x < 0x8000_0000 ==> r == x
  {
    var m := x % 0x1_0000_0000;
    if m >= 0x8000_0000 then m - 0x1_0000_0000 else m
  }

  /** The Skip count (page - 1) * pageSize, in int arithmetic. */
  function Offset(page: int, pageSize: int): int {
    WrapInt32((page - 1) * pageSize)
  }

  /**
   * One page of a listing. SQL Server rejects a negative OFFSET and a FETCH of no rows,
   * so a negative Skip count or a page size below 1 makes the query fail (None).
   */
  function Page<T>(s: seq<T>, page: int, pageSize: int): (r: Option<seq<T>>)
    ensures r.None? <==> pageSize < 1 || Offset(page, pageSize) < 0
    ensures r.Some? ==> |r.value| <= pageSize
    ensures r.Some? ==> forall i :: 0 <= i < |r.value| ==>
      Offset(page, pageSize) + i < |s| && r.value[i] == s[Offset(page, pageSize) + i]
    ensures r.Some? && r.value == [] ==> Offset(page, pageSize) >= |s|
  {
    var offset := Offset(page, pageSize);
    if pageSize < 1 || offset < 0 then None
    else if offset >= |s| then Some([]) else Some(s[offset..Min(offset + pageSize, |s|)])
  }

  /** While (page - 1) * pageSize fits in an int, the Skip count is that product, and the
      query fails exactly for a page number or a page size below 1. */
  lemma OffsetWithoutOverflow(page: int, pageSize: int)
    requires -0x8000_0000 <= (page - 1) * pageSize < 0x8000_0000
    ensures Offset(page, pageSize) == (page - 1) * pageSize
    ensures pageSize >= 1 ==> (Page([0], page, pageSize).None? <==> page < 1)
  {
    if pageSize >= 1 {
      if page < 1 {
        MulMono(page - 1, -1, pageSize);
      } else {
        MulMono(0, page - 1, pageSize);
      }
    }
  }

  /** Past the int range the Skip count wraps around: page 65538 of 65536 rows shows the
      rows of page 2, and page 65537 of 32768 rows asks for a negative OFFSET and fails. */
  lemma OffsetWrapsAround<T>(s: seq<T>)
    ensures Page(s, 65538, 65536) == Page(s, 2, 65536)
    ensures Page(s, 65537, 32768).None?
  {
    assert (65538 - 1) * 65536 == 0x1_0000_0000 + 65536;
    assert Offset(65538, 65536) == 65536 == Offset(2, 65536);
    assert (65537 - 1) * 32768 == 0x8000_0000;
    assert Offset(65537, 32768) == -0x8000_0000;
  }

  /** (int)Math.Ceiling(total / (double)pageSize) */
  function TotalPages(total: nat, pageSize: int): (r: nat)
    requires pageSize >= 1
    ensures total <= r * pageSize
    ensures r == 0 || (r - 1) * pageSize < total
  {
    var q := (total + pageSize - 1) / pageSize;
    assert q * pageSize + (total + pageSize - 1) % pageSize == total + pageSize - 1;
    q
  }

  lemma {:induction false} MulMono(a: int, b: int, c: int)
    requires 0 <= c && a <= b
    ensures a * c <= b * c
  {
  }

  /** While the Skip count does not overflow, exactly the pages 1..TotalPages are non-empty. */
  lemma PageNonEmptyIff<T>(s: seq<T>, page: int, pageSize: int)
    requires page >= 1 && pageSize >= 1 && (page - 1) * pageSize < 0x8000_0000
    ensures Page(s, page, pageSize).Some?
    ensures Page(s, page, pageSize).value != [] <==> page <= TotalPages(|s|, pageSize)
  {
    var n := TotalPages(|s|, pageSize);
    MulMono(0, page - 1, pageSize);
    var offset := (page - 1) * pageSize;
    assert Offset(page, pageSize) == offset;
    if page <= n {
      MulMono(page - 1, n - 1, pageSize);
    } else {
      MulMono(n, page - 1, pageSize);
    }
  }

  /** Every element of a listing that an int can count is on exactly one page: element j
      is item j % pageSize of page j / pageSize + 1. */
  lemma PageLocates<T>(s: seq<T>, j: int, pageSize: int)
    requires 0 <= j < |s| < 0x8000_0000 && pageSize >= 1
    ensures var p := j / pageSize + 1;
      && p <= TotalPages(|s|, pageSize)
      && Page(s, p, pageSize).Some?
      && j % pageSize < |Page(s, p, pageSize).value|
      && Page(s, p, pageSize).value[j % pageSize] == s[j]
  {
    var p := j / pageSize + 1;
    var offset := (p - 1) * pageSize;
    assert offset + j % pageSize == j;
    assert offset < 0x8000_0000;
    PageNonEmptyIff(s, p, pageSize);
    assert Offset(p, pageSize) == offset;
  }

  datatype ListPage<T> = ListPage(items: seq<T>, currentPage: int, totalPages: nat, total: nat)

  /** The listing of `matches`: its total, its page count and the requested page. */
  function Listing<T>(matches: seq<T>, page: int, pageSize: int): (r: Option<ListPage<T>>)
    ensures r.None? <==> pageSize < 1 || Offset(page, pageSize) < 0
    ensures r.Some? ==>
      && r.value.total == |matches| && r.value.currentPage == page
      && Page(matches, page, pageSize) == Some(r.value.items)
    ensures r.Some? && page >= 1 && (page - 1) * pageSize < 0x8000_0000 ==>
      (r.value.items != [] <==> page <= r.value.totalPages)
  {
    match Page(matches, page, pageSize)
    case None => None
    case Some(items) =>
      var r := Some(ListPage(items, page, TotalPages(|matches|, pageSize), |matches|));
      if page >= 1 && (page - 1) * pageSize < 0x8000_0000 then
        PageNonEmptyIff(matches, page, pageSize);
        r
      else r
  }

  /**
   * string.Contains in a query, translated for SQL Server: the column and the term are
   * compared under the database collation, whose case folding is `fold` (the default
   * collation ignores case). A null column never matches.
   */
  predicate ColumnContains(fold: char -> char, column: Option<string>, term: string) {
    column.Some? && Contains(MapChars(column.value, fold), MapChars(term, fold))
  }

  predicate UserMatches(fold: char -> char, u: AppUser, term: string) {
    ColumnContains(fold, u.email, term) || ColumnContains(fold, u.userName, term)
    || ColumnContains(fold, u.firstName, term) || ColumnContains(fold, u.lastName, term)
  }

  /** The user search: everyone for an empty term, otherwise the accounts that mention the term. */
  function SearchUsers(fold: char -> char, users: seq<AppUser>, term: Option<string>): (r: seq<AppUser>)
    ensures SurveyController.IsNullOrEmpty(term) ==> r == users
    ensures !SurveyController.IsNullOrEmpty(term) ==>
      forall u :: u in r <==> u in users && UserMatches(fold, u, term.value)
  {
    if SurveyController.IsNullOrEmpty(term) then users
    else Linq.Filter(users, (u: AppUser) => UserMatches(fold, u, term.value))
  }

  /** Under a collation that ignores case the search does too: a term matches the same
      accounts whether it is typed in lower or in upper case. */
  lemma SearchIgnoresCase(u: AppUser, term: string)
    ensures UserMatches(ToUpperAsciiChar, u, ToLowerAscii(term)) <==> UserMatches(ToUpperAsciiChar, u, term)
    ensures UserMatches(ToUpperAsciiChar, u, ToUpperAscii(term)) <==> UserMatches(ToUpperAsciiChar, u, term)
  {
    var folded := MapChars(term, ToUpperAsciiChar);
    var lower, upper := MapChars(ToLowerAscii(term), ToUpperAsciiChar), MapChars(ToUpperAscii(term), ToUpperAsciiChar);
    forall i | 0 <= i < |term| ensures lower[i] == folded[i] && upper[i] == folded[i] {
      assert ToUpperAsciiChar(ToLowerAsciiChar(term[i])) == ToUpperAsciiChar(term[i]);
    }
    assert lower == folded && upper == folded;
  }

  predicate SurveyMatches(fold: char -> char, s: Survey, term: string) {
    ColumnContains(fold, Some(s.title), term) || ColumnContains(fold, Some(s.description), term)
  }

  predicate TemplateMatches(fold: char -> char, t: SurveyTemplate, term: string) {
    ColumnContains(fold, Some(t.title), term) || ColumnContains(fold, Some(t.description), term)
  }

  function NewestFirst(s: Survey): int { -s.createdDate }

  function HighestIdFirst(t: SurveyTemplate): int { -t.id }

  /** UserManagement: the searched accounts, one page of them. */
  function UserManagement(fold: char -> char, users: seq<AppUser>, term: Option<string>, page: int, pageSize: int)
    : (r: Option<ListPage<AppUser>>)
    ensures r.None? <==> pageSize < 1 || Offset(page, pageSize) < 0
    ensures r.Some? ==>
      && r.value.total == |SearchUsers(fold, users, term)|
      && forall i :: 0 <= i < |r.value.items| ==>
           r.value.items[i] in users
           && (SurveyController.IsNullOrEmpty(term) || UserMatches(fold, r.value.items[i], term.value))
  {
    Listing(SearchUsers(fold, users, term), page, pageSize)
  }

  /** A page of a key-ordered sequence is key-ordered, and holds only elements of the sequence. */
  lemma PageOrdered<T>(s: seq<T>, key: T -> int, page: int, pageSize: int)
    requires Linq.SortedBy(s, key)
    ensures Page(s, page, pageSize).Some? ==>
      && Linq.SortedBy(Page(s, page, pageSize).value, key)
      && forall x :: x in Page(s, page, pageSize).value ==> x in s
  {
    var r := Page(s, page, pageSize);
    if r.Some? {
      var offset := Offset(page, pageSize);
      forall i, j | 0 <= i < j < |r.value| ensures key(r.value[i]) <= key(r.value[j]) {
        assert r.value[i] == s[offset + i] && r.value[j] == s[offset + j];
      }
      forall x | x in r.value ensures x in s {
        var i :| 0 <= i < |r.value| && r.value[i] == x;
        assert s[offset + i] == x;
      }
    }
  }

  /** The search: everything for an empty term, otherwise the rows whose title or description mention it. */
  function SurveySearch(fold: char -> char, surveys: seq<Survey>, term: Option<string>): seq<Survey> {
    if SurveyController.IsNullOrEmpty(term) then surveys
    else Linq.Filter(surveys, (s: Survey) => SurveyMatches(fold, s, term.value))
  }

  /** The searched surveys, newest first. */
  function SurveyMatchesOrdered(fold: char -> char, surveys: seq<Survey>, term: Option<string>): seq<Survey> {
    Linq.SortBy(SurveySearch(fold, surveys, term), NewestFirst)
  }

  /** Surveys: the searched surveys, newest first, one page of them. */
  function SurveysListing(fold: char -> char, surveys: seq<Survey>, term: Option<string>, page: int, pageSize: int)
    : (r: Option<ListPage<Survey>>)
    ensures r.None? <==> pageSize < 1 || Offset(page, pageSize) < 0
  {
    Listing(SurveyMatchesOrdered(fold, surveys, term), page, pageSize)
  }

  /** A survey page is newest first and shows only stored surveys that match the search. */
  lemma SurveysListingShows(fold: char -> char, surveys: seq<Survey>, term: Option<string>, page: int, pageSize: int)
    ensures var r := SurveysListing(fold, surveys, term, page, pageSize);
      r.Some? ==>
        && (forall i, j :: 0 <= i < j < |r.value.items| ==> r.value.items[i].createdDate >= r.value.items[j].createdDate)
        && forall x :: x in r.value.items ==>
             x in surveys && (SurveyController.IsNullOrEmpty(term) || SurveyMatches(fold, x, term.value))
  {
    var matches := SurveySearch(fold, surveys, term);
    var ordered := Linq.SortBy(matches, NewestFirst);
    Linq.SortByPermutes(matches, NewestFirst);
    PageOrdered(ordered, NewestFirst, page, pageSize);
    var r := SurveysListing(fold, surveys, term, page, pageSize);
    if r.Some? {
      var items := r.value.items;
      forall i, j | 0 <= i < j < |items| ensures items[i].createdDate >= items[j].createdDate {
        assert NewestFirst(items[i]) <= NewestFirst(items[j]);
      }
      forall x | x in items ensures x in surveys && (SurveyController.IsNullOrEmpty(term) || SurveyMatches(fold, x, term.value)) {
        assert x in multiset(ordered);
        assert x in matches;
      }
    }
  }

  /** The search: everything for an empty term, otherwise the rows whose title or description mention it. */
  function TemplateSearch(fold: char -> char, templates: seq<SurveyTemplate>, term: Option<string>): seq<SurveyTemplate> {
    if SurveyController.IsNullOrEmpty(term) then templates
    else Linq.Filter(templates, (t: SurveyTemplate) => TemplateMatches(fold, t, term.value))
  }

  /** The searched templates, highest id first. */
  function TemplateMatchesOrdered(fold: char -> char, templates: seq<SurveyTemplate>, term: Option<string>): seq<SurveyTemplate> {
    Linq.SortBy(TemplateSearch(fold, templates, term), HighestIdFirst)
  }

  /** TemplateManager: the searched templates, highest id first, one page of them. */
  function TemplatesListing(fold: char -> char, templates: seq<SurveyTemplate>, term: Option<string>, page: int, pageSize: int)
    : (r: Option<ListPage<SurveyTemplate>>)
    ensures r.None? <==> pageSize < 1 || Offset(page, pageSize) < 0
  {
    Listing(TemplateMatchesOrdered(fold, templates, term), page, pageSize)
  }

  /** A template page is highest id first and shows only stored templates that match the search. */
  lemma TemplatesListingShows(fold: char -> char, templates: seq<SurveyTemplate>, term: Option<string>, page: int, pageSize: int)
    ensures var r := TemplatesListing(fold, templates, term, page, pageSize);
      r.Some? ==>
        && (forall i, j :: 0 <= i < j < |r.value.items| ==> r.value.items[i].id >= r.value.items[j].id)
        && forall x :: x in r.value.items ==>
             x in templates && (SurveyController.IsNullOrEmpty(term) || TemplateMatches(fold, x, term.value))
  {
    var matches := TemplateSearch(fold, templates, term);
    var ordered := Linq.SortBy(matches, HighestIdFirst);
    Linq.SortByPermutes(matches, HighestIdFirst);
    PageOrdered(ordered, HighestIdFirst, page, pageSize);
    var r := TemplatesListing(fold, templates, term, page, pageSize);
    if r.Some? {
      var items := r.value.items;
      forall i, j | 0 <= i < j < |items| ensures items[i].id >= items[j].id {
        assert HighestIdFirst(items[i]) <= HighestIdFirst(items[j]);
      }
      forall x | x in items ensures x in templates && (SurveyController.IsNullOrEmpty(term) || TemplateMatches(fold, x, term.value)) {
        assert x in multiset(ordered);
        assert x in matches;
      }
    }
  }
}
