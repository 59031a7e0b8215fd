/**
 * Clients of the handlers, each on a freshly migrated database, showing what
 * callers can conclude from the handlers' contracts alone: a registered user
 * can log in, a second registration with a taken email or username is a
 * conflict, and a user who does not own an item can neither edit nor delete it.
 */
module Scenarios {
  import opened Wrappers
  import opened Records
  import opened Query
  import opened Responses
  import opened Store
  import opened Strconv
  import opened Auth
  import opened Items

  /** Register, then log in by email with the same password. */
  method RegisterThenLogin(prim: Primitives, input: RegisterInput, now: int)
    returns (registered: Response, login: Response)
    requires HashRoundTrips(prim)
    requires forall c :: prim.signToken(c).Some?
    ensures registered.status == StatusOK <==>
              ValidateRegistration(prim, input).None? && prim.generateHash(input.password).Some?
    ensures registered.status == StatusOK ==>
              && login.status == StatusOK
              && login.data.LoginData? && registered.data.UserSummary?
              && login.data.userId == registered.data.id
              && login.data.username == input.username
              && login.data.email == input.email
  {
    var db := new Database();
    registered := Register(db, prim, Some(input), Ok, Ok, Ok);
    if registered.status == StatusOK {
      FoundByEmail(db.users, 0);
    }
    var cookie, checked;
    login, cookie, checked := Login(db, prim, Some(LoginInput(input.email, input.password)), now, Ok);
  }

  /** Two registrations in a row; the second is refused if it reuses the first's email or username. */
  method RegisterTwice(prim: Primitives, first: RegisterInput, second: RegisterInput)
    returns (r1: Response, r2: Response)
    ensures r1.status == StatusOK && ValidateRegistration(prim, second).None? && second.email == first.email ==>
              r2 == Response(StatusConflict, "Email already exists", NoData)
    ensures r1.status == StatusOK && ValidateRegistration(prim, second).None? && second.email != first.email
              && second.username == first.username ==>
              r2 == Response(StatusConflict, "Username already exists", NoData)
  {
    var db := new Database();
    r1 := Register(db, prim, Some(first), Ok, Ok, Ok);
    if r1.status == StatusOK {
      FoundByEmail(db.users, 0);
      FoundByUsername(db.users, 0);
    }
    r2 := Register(db, prim, Some(second), Ok, Ok, Ok);
  }

  /** One user creates an item; another, with a valid identity, tries to edit and to delete it. */
  method IntruderIsForbidden(owner: nat, intruder: nat, input: ItemInput, edit: ItemInput)
    returns (created: Response, updated: Response, deleted: Response, items: seq<Item>)
    requires owner != intruder
    ensures created.status == StatusOK && created.data.OneItem?
    ensures created.data.item.userId == owner
    ensures updated == NotOwner && deleted == NotOwner
    ensures items == [created.data.item]
  {
    var db := new Database();
    created := CreateItem(db, Some(input), Some(owner), Ok);
    var rawId := Itoa(created.data.item.id);
    updated := UpdateItem(db, rawId, Some(intruder), Some(edit), Ok, Ok);
    deleted := DeleteItem(db, rawId, Some(intruder), Ok, Ok);
    items := db.items;
  }

  /** The owner edits the item, then deletes it. */
  method OwnerEditsThenDeletes(owner: nat, input: ItemInput, edit: ItemInput)
    returns (updated: Response, deleted: Response, items: seq<Item>)
    ensures updated.status == StatusOK && updated.data.OneItem?
    ensures updated.data.item.name == edit.name && updated.data.item.description == edit.description
    ensures updated.data.item.price == edit.price
    ensures updated.data.item.categoryId == input.categoryId && updated.data.item.userId == owner
    ensures deleted.status == StatusOK && items == []
  {
    var db := new Database();
    var created := CreateItem(db, Some(input), Some(owner), Ok);
    var rawId := Itoa(created.data.item.id);
    updated := UpdateItem(db, rawId, Some(owner), Some(edit), Ok, Ok);
    deleted := DeleteItem(db, rawId, Some(owner), Ok, Ok);
    items := db.items;
  }
}
