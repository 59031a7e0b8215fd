/**
 * The item handlers of handler/item.go. Reads filter the item table; create,
 * update and delete change it, the last two only after the guards on the
 * path id (400), the caller's identity (401), the item's existence (404) and
 * its ownership (403), in that order. The caller's identity is what
 * middleware.GetUserID yields: `None` when it fails.
 */
module Items {
  import opened Wrappers
  import opened Records
  import opened Query
  import opened Responses
  import opened Store
  import opened Strconv

  /** The condition `category_id = ?`. */
  function InCategory(c: int): Item -> bool {
    (it: Item) => it.categoryId == c
  }

  /** The condition `user_id = ?`. */
  function OwnedBy(u: int): Item -> bool {
    (it: Item) => it.userId == u
  }

  const ItemNotFound := Response(StatusNotFound, "Item not found", NoData)
  const NotOwner := Response(StatusForbidden, "You do not own this item", NoData)
  const Unauthorized := Response(StatusUnauthorized, "Unauthorized", NoData)
  const InvalidItemId := Response(StatusBadRequest, "Invalid item ID", NoData)

  /** GetAllItems: the whole table, or 404 when it is empty. */
  function GetAllItems(items: seq<Item>, outcome: Outcome): (r: Response)
    ensures outcome.Err? ==> r == Response(StatusInternalServerError, "Error fetching items", NoData)
    ensures outcome.Ok? ==> (r.status == StatusNotFound <==> items == [])
    ensures outcome.Ok? && items == [] ==> r == Response(StatusNotFound, "No items found", NoData)
    ensures outcome.Ok? && items != [] ==> r == Response(StatusOK, "", ItemList(items))
  {
    if outcome.Err? then Response(StatusInternalServerError, "Error fetching items", NoData)
    else if items == [] then Response(StatusNotFound, "No items found", NoData)
    else Response(StatusOK, "", ItemList(items))
  }

  /** GetItemFromCategory: the items of the category named by the path id, in table order. */
  function GetItemFromCategory(items: seq<Item>, rawId: string, outcome: Outcome): (r: Response)
    ensures Atoi(rawId).None? ==> r == Response(StatusBadRequest, "Invalid category ID", NoData)
    ensures Atoi(rawId).Some? && outcome.Err? ==> r == Response(StatusInternalServerError, "Error fetching items", NoData)
    ensures Atoi(rawId).Some? && outcome.Ok? ==>
              (r.status == StatusNotFound <==> forall it :: it in items ==> it.categoryId != Atoi(rawId).value)
    ensures r.status == StatusNotFound ==> r == Response(StatusNotFound, "No items found for category with ID " + rawId, NoData)
    ensures r.status == StatusOK ==>
              && r.data == ItemList(Where(items, InCategory(Atoi(rawId).value)))
              && forall it :: it in r.data.items <==> it in items && it.categoryId == Atoi(rawId).value
    ensures Atoi(rawId).Some? && outcome.Ok? && (exists it :: it in items && it.categoryId == Atoi(rawId).value) ==>
              r == Response(StatusOK, "", ItemList(Where(items, InCategory(Atoi(rawId).value))))
  {
    match Atoi(rawId)
    case None => Response(StatusBadRequest, "Invalid category ID", NoData)
    case Some(id) =>
      if outcome.Err? then Response(StatusInternalServerError, "Error fetching items", NoData)
      else
        var selected := Where(items, InCategory(id));
        if selected == [] then Response(StatusNotFound, "No items found for category with ID " + rawId, NoData)
        else
          assert selected[0] in selected;
          Response(StatusOK, "", ItemList(selected))
  }

  /** GetItemFromUser: the items owned by the user named by the path id, in table order. */
  function GetItemFromUser(items: seq<Item>, rawId: string, outcome: Outcome): (r: Response)
    ensures Atoi(rawId).None? ==> r == Response(StatusBadRequest, "Invalid user ID", NoData)
    ensures Atoi(rawId).Some? && outcome.Err? ==> r == Response(StatusInternalServerError, "Error fetching items", NoData)
    ensures Atoi(rawId).Some? && outcome.Ok? ==>
              (r.status == StatusNotFound <==> forall it :: it in items ==> it.userId != Atoi(rawId).value)
    ensures r.status == StatusNotFound ==> r == Response(StatusNotFound, "No items found for user with ID " + rawId, NoData)
    ensures r.status == StatusOK ==>
              && r.data == ItemList(Where(items, OwnedBy(Atoi(rawId).value)))
              && forall it :: it in r.data.items <==> it in items && it.userId == Atoi(rawId).value
    ensures Atoi(rawId).Some? && outcome.Ok? && (exists it :: it in items && it.userId == Atoi(rawId).value) ==>
              r == Response(StatusOK, "", ItemList(Where(items, OwnedBy(Atoi(rawId).value))))
  {
    match Atoi(rawId)
    case None => Response(StatusBadRequest, "Invalid user ID", NoData)
    case Some(id) =>
      if outcome.Err? then Response(StatusInternalServerError, "Error fetching items", NoData)
      else
        var selected := Where(items, OwnedBy(id));
        if selected == [] then Response(StatusNotFound, "No items found for user with ID " + rawId, NoData)
        else
          assert selected[0] in selected;
          Response(StatusOK, "", ItemList(selected))
  }

  /** `db.First(&item, id)`: the item with that primary key. */
  function FindItem(items: seq<Item>, id: int, outcome: Outcome): (r: Found<Item>)
    ensures r.Failed? <==> outcome.Err?
    ensures r.Found? ==> r.row in items && r.row.id == id
    ensures r.Missing? <==> outcome.Ok? && forall it :: it in items ==> it.id != id
  {
    First(items, HasItemId(id), outcome)
  }

  /** GetItemFromId: the item with the path id; every failure of the query reads as 404. */
  function GetItemFromId(items: seq<Item>, rawId: string, outcome: Outcome): (r: Response)
    ensures Atoi(rawId).None? ==> r == Response(StatusBadRequest, "Invalid item ID", NoData)
    ensures Atoi(rawId).Some? ==>
              (r == ItemNotFound <==> outcome.Err? || forall it :: it in items ==> it.id != Atoi(rawId).value)
    ensures r.status == StatusOK ==> r.data.OneItem? && r.data.item in items && r.data.item.id == Atoi(rawId).value
    ensures r.status in {StatusOK, StatusBadRequest, StatusNotFound}
    ensures Atoi(rawId).Some? && FindItem(items, Atoi(rawId).value, outcome).Found? ==>
              r == Response(StatusOK, "", OneItem(FindItem(items, Atoi(rawId).value, outcome).row))
  {
    match Atoi(rawId)
    case None => Response(StatusBadRequest, "Invalid item ID", NoData)
    case Some(id) =>
      match FindItem(items, id, outcome)
      case Found(it) => Response(StatusOK, "", OneItem(it))
      case _ => ItemNotFound
  }

  /** CreateItem: the owner of the new item is the caller, whatever the body says. */
  method CreateItem(db: Database, body: Option<ItemInput>, caller: Option<nat>, outcome: Outcome)
    returns (resp: Response)
    requires db.Valid()
    modifies db`items, db`nextItemId
    ensures db.Valid()
    ensures resp.status != StatusOK ==> db.items == old(db.items) && db.nextItemId == old(db.nextItemId)
    ensures resp.status == StatusOK ==> caller.Some? && resp.data.OneItem? && resp.data.item.userId == caller.value
    ensures body.None? ==> resp == Response(StatusBadRequest, "Invalid request body", NoData)
    ensures body.Some? && caller.None? ==> resp == Unauthorized
    ensures body.Some? && caller.Some? && outcome.Err? ==>
              resp == Response(StatusInternalServerError, "Error creating item", NoData)
    ensures body.Some? && caller.Some? && outcome.Ok? ==>
              var input := body.value;
              var stored := Item(old(db.nextItemId), input.name, input.description, input.price, input.categoryId, caller.value);
              && db.items == old(db.items) + [stored]
              && db.nextItemId == old(db.nextItemId) + 1
              && resp == Response(StatusOK, "", OneItem(stored))
  {
    if body.None? {
      return Response(StatusBadRequest, "Invalid request body", NoData);
    }
    if caller.None? {
      return Unauthorized;
    }
    var input := body.value;
    var item := Item(0, input.name, input.description, input.price, input.categoryId, caller.value);
    var stored := db.InsertItem(item, outcome);
    if stored.None? {
      return Response(StatusInternalServerError, "Error creating item", NoData);
    }
    resp := Response(StatusOK, "", OneItem(stored.value));
  }

  /**
   * UpdateItem: after the guards, and only then, the body is parsed; its name,
   * description and price overwrite those of the stored item.
   */
  method UpdateItem(db: Database, rawId: string, caller: Option<nat>, body: Option<ItemInput>,
                    find: Outcome, save: Outcome)
    returns (resp: Response)
    requires db.Valid()
    modifies db`items
    ensures db.Valid()
    ensures resp.status != StatusOK ==> db.items == old(db.items)
    // Only the named item changes, and only in its name, description and price.
    ensures resp.status == StatusOK ==>
              && Atoi(rawId).Some? && |db.items| == |old(db.items)|
              && forall i :: 0 <= i < |db.items| ==>
                   && db.items[i].id == old(db.items)[i].id
                   && db.items[i].userId == old(db.items)[i].userId
                   && db.items[i].categoryId == old(db.items)[i].categoryId
                   && (old(db.items)[i].id != Atoi(rawId).value ==> db.items[i] == old(db.items)[i])
    ensures Atoi(rawId).None? ==> resp == InvalidItemId
    ensures Atoi(rawId).Some? && caller.None? ==> resp == Unauthorized
    ensures Atoi(rawId).Some? && caller.Some? ==>
              match FindItem(old(db.items), Atoi(rawId).value, find)
              case Found(item) =>
                if item.userId != caller.value then resp == NotOwner
                else if body.None? then resp == Response(StatusBadRequest, "Invalid input", NoData)
                else if save.Err? then resp == Response(StatusInternalServerError, "Failed to update item", NoData)
                else
                  var updated := item.(name := body.value.name, description := body.value.description, price := body.value.price);
                  && resp == Response(StatusOK, "", OneItem(updated))
                  && db.items == old(db.items)[IndexWhere(old(db.items), HasItemId(item.id)).value := updated]
              case _ => resp == ItemNotFound
  {
    var parsed := Atoi(rawId);
    if parsed.None? {
      return InvalidItemId;
    }
    if caller.None? {
      return Unauthorized;
    }
    var found := FindItem(db.items, parsed.value, find);
    if !found.Found? {
      return ItemNotFound;
    }
    var item := found.row;
    if item.userId != caller.value {
      return NotOwner;
    }
    if body.None? {
      return Response(StatusBadRequest, "Invalid input", NoData);
    }
    var input := body.value;
    item := item.(name := input.name, description := input.description, price := input.price);
    assert IndexWhere(db.items, HasItemId(item.id)).Some? by {
      assert found.row in db.items;
    }
    var ok := db.SaveItem(item, save);
    if !ok {
      return Response(StatusInternalServerError, "Failed to update item", NoData);
    }
    resp := Response(StatusOK, "", OneItem(item));
  }

  /** DeleteItem: after the same guards as UpdateItem, the item is removed. */
  method DeleteItem(db: Database, rawId: string, caller: Option<nat>, find: Outcome, delete: Outcome)
    returns (resp: Response)
    requires db.Valid()
    modifies db`items
    ensures db.Valid()
    ensures resp.status != StatusOK ==> db.items == old(db.items)
    // Exactly the named item is gone.
    ensures resp.status == StatusOK ==>
              && Atoi(rawId).Some? && |db.items| == |old(db.items)| - 1
              && forall it :: it in db.items <==> it in old(db.items) && it.id != Atoi(rawId).value
    ensures Atoi(rawId).None? ==> resp == InvalidItemId
    ensures Atoi(rawId).Some? && caller.None? ==> resp == Unauthorized
    ensures Atoi(rawId).Some? && caller.Some? ==>
              match FindItem(old(db.items), Atoi(rawId).value, find)
              case Found(item) =>
                if item.userId != caller.value then resp == NotOwner
                else if delete.Err? then resp == Response(StatusInternalServerError, "Failed to delete item", NoData)
                else
                  var k := IndexWhere(old(db.items), HasItemId(item.id)).value;
                  && resp == Response(StatusOK, "Item deleted successfully", NoData)
                  && db.items == old(db.items)[..k] + old(db.items)[k + 1..]
              case _ => resp == ItemNotFound
  {
    var parsed := Atoi(rawId);
    if parsed.None? {
      return InvalidItemId;
    }
    if caller.None? {
      return Unauthorized;
    }
    var found := FindItem(db.items, parsed.value, find);
    if !found.Found? {
      return ItemNotFound;
    }
    var item := found.row;
    if item.userId != caller.value {
      return NotOwner;
    }
    var k :| 0 <= k < |db.items| && db.items[k] == item;
    KeyedRowIsUnique(db.items, db.nextItemId, k);
    RemovedRows(db.items, db.nextItemId, k);
    var ok := db.DeleteItemRow(item.id, delete);
    if !ok {
      return Response(StatusInternalServerError, "Failed to delete item", NoData);
    }
    resp := Response(StatusOK, "Item deleted successfully", NoData);
  }
}
