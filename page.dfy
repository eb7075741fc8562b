/**
 * The state of the contacts page and the handlers that change it: the
 * `state` object of view/script/main.js (modular front end) and the
 * module-level variables of js/scripthome.js (legacy front end), one class
 * for both, the variant fixed at construction.
 *
 * Network calls are not performed: each handler receives the way its request
 * settled (`Outcome`) and, where it refreshes the list afterwards, what the
 * refresh returned; clock readings are passed in as `now`.
 */
module Page {
  import opened Wrappers
  import opened Text
  import opened Contacts
  import opened Groups

  /** What the list request returned: nothing (network error) or a status and the rows. */
  datatype FetchResult = Unreachable | Answered(status: int, rows: seq<ApiRow>)

  predicate FetchOk(r: FetchResult) { r.Answered? && 200 <= r.status <= 299 }

  /** How one `updateContact` call settled: the PUT's answer and what the refresh after it returned. */
  datatype Settled = Settled(response: Outcome, refresh: FetchResult)

  /** `updateContact` replaces the list only when both the PUT and the refresh got a 2xx answer. */
  predicate Refreshes(s: Settled) {
    Ok(s.response) && FetchOk(s.refresh)
  }

  /** The list after updates settled in the order `settled` gives, starting from `cs`. */
  function Refreshed(v: Variant, cs: seq<Contact>, settled: seq<Settled>, now: int): seq<Contact> {
    if settled == [] then cs
    else
      var last := settled[|settled| - 1];
      if Refreshes(last) then MapRows(v, last.refresh.rows, now)
      else Refreshed(v, cs, settled[..|settled| - 1], now)
  }

  /** One more settled update: its refresh replaces the list, or the list stays. */
  lemma RefreshedStep(v: Variant, cs: seq<Contact>, settled: seq<Settled>, i: nat, now: int)
    requires i < |settled|
    ensures Refreshed(v, cs, settled[..i + 1], now) ==
      if Refreshes(settled[i]) then MapRows(v, settled[i].refresh.rows, now) else Refreshed(v, cs, settled[..i], now)
  {
    assert settled[..i + 1][..i] == settled[..i];
    assert settled[..i + 1][i] == settled[i];
  }

  /** When no refresh succeeded the list is the starting one. */
  lemma {:induction false} RefreshedNone(v: Variant, cs: seq<Contact>, settled: seq<Settled>, now: int)
    requires forall i :: 0 <= i < |settled| ==> !Refreshes(settled[i])
    ensures Refreshed(v, cs, settled, now) == cs
  {
    if settled != [] {
      var init := settled[..|settled| - 1];
      forall i | 0 <= i < |init| ensures !Refreshes(init[i]) {
        assert init[i] == settled[i];
      }
      RefreshedNone(v, cs, init, now);
    }
  }

  /** Otherwise the list is the one the last successful refresh fetched. */
  lemma {:induction false} RefreshedLast(v: Variant, cs: seq<Contact>, settled: seq<Settled>, now: int, j: nat)
    requires j < |settled| && Refreshes(settled[j])
    requires forall i :: j < i < |settled| ==> !Refreshes(settled[i])
    ensures Refreshed(v, cs, settled, now) == MapRows(v, settled[j].refresh.rows, now)
  {
    var n := |settled| - 1;
    if j < n {
      var init := settled[..n];
      assert init[j] == settled[j];
      forall i | j < i < |init| ensures !Refreshes(init[i]) {
        assert init[i] == settled[i];
      }
      RefreshedLast(v, cs, init, now, j);
    }
  }

  /** The values the profile dialog is filled with; `id` is null for a new contact. */
  datatype Draft = Draft(id: Option<int>, name: string, sobrenome: string, phone: string,
                         email: string, avatar: string, category: string)

  const Blue: string := "#0078d7"

  /** The groups the legacy page starts with. */
  const LegacyGroups: seq<Group> := [
    Group("familia", "Família", Some(Blue)), Group("alunos", "Alunos", Some(Blue)),
    Group("trabalho", "Trabalho", Some(Blue)), Group("amigos", "Amigos", Some(Blue)),
    Group("outros", "Outros", Some(Blue)), Group("todos", "Todos", Some(Blue))]

  function InitialGroups(v: Variant): seq<Group> {
    match v
    case Modular => [Group("todos", "Todos", Some(Blue))]
    case Legacy => LegacyGroups
  }

  /** The category a new contact is offered. */
  function NewContactCategory(v: Variant, filterCategory: string): string {
    match v
    case Modular => if filterCategory == "todos" then "todos" else filterCategory
    case Legacy => if filterCategory == "todos" then "outros" else filterCategory
  }

  /** In the modular page the conditional is the identity: the offered category is the filter's. */
  lemma NewContactCategoryIs(v: Variant, filterCategory: string)
    ensures v == Modular ==> NewContactCategory(v, filterCategory) == filterCategory
    ensures v == Legacy ==>
      NewContactCategory(v, filterCategory) == (if filterCategory == "todos" then "outros" else filterCategory)
    ensures NewContactCategory(v, filterCategory) != "todos" || v == Modular
  {
  }

  class ContactsPage {
    const variant: Variant
    var contacts: seq<Contact>
    var groups: seq<Group>
    /** `filter.category` / `currentFilter`. */
    var category: string
    var searchTerm: string
    var sortKey: string
    var view: string
    var currentContactId: Option<int>
    var currentGroupId: Option<string>

    /** Group ids stay distinct. */
    predicate Valid()
      reads this
    {
      DistinctIds(groups)
    }

    constructor (v: Variant)
      ensures variant == v && contacts == [] && groups == InitialGroups(v)
      ensures category == "todos" && searchTerm == "" && sortKey == "name" && view == "grid"
      ensures currentContactId.None? && currentGroupId.None?
      ensures Valid()
    {
      variant := v;
      contacts := [];
      groups := InitialGroups(v);
      category := "todos";
      searchTerm := "";
      sortKey := "name";
      view := "grid";
      currentContactId := None;
      currentGroupId := None;
    }

    /** What the page lists; `None` when the legacy filter throws on a null field. */
    function Rendered(): Option<seq<Contact>>
      reads this
    {
      match variant
      case Modular => Some(Visible(contacts, category, searchTerm, sortKey))
      case Legacy =>
        match LegacyFilter(contacts, category, searchTerm)
        case None => None
        case Some(kept) => Some(SortContacts(kept, sortKey))
    }

    /** The options of the profile dialog's category select. */
    function CategorySelect(): seq<Group>
      reads this
    {
      CategoryOptions(groups)
    }

    /** `fetchContacts`: the list is replaced only after a 2xx answer. */
    method FetchContacts(response: FetchResult, now: int)
      modifies this
      ensures FetchOk(response) ==> contacts == MapRows(variant, response.rows, now)
      ensures !FetchOk(response) ==> contacts == old(contacts)
      ensures groups == old(groups) && category == old(category) && searchTerm == old(searchTerm)
      ensures sortKey == old(sortKey) && view == old(view)
      ensures currentContactId == old(currentContactId) && currentGroupId == old(currentGroupId)
    {
      if FetchOk(response) {
        contacts := MapRows(variant, response.rows, now);
      }
    }

    /**
     * `createContact`: the modular page refuses a contact without name or
     * phone before any request; otherwise the insert is sent, and on a 2xx
     * answer the list is refreshed (a failed refresh is swallowed) and the
     * result is true.
     */
    method CreateContact(c: Contact, response: Outcome, refresh: FetchResult, now: int)
      returns (ok: bool, sent: Option<Request>)
      modifies this
      ensures !CreateAllowed(variant, c) ==> !ok && sent.None? && contacts == old(contacts)
      ensures CreateAllowed(variant, c) ==> sent == Some(Request(InsertPath, CreateBody(variant, c)))
      ensures ok <==> CreateAllowed(variant, c) && Ok(response)
      ensures ok && FetchOk(refresh) ==> contacts == MapRows(variant, refresh.rows, now)
      ensures !(ok && FetchOk(refresh)) ==> contacts == old(contacts)
      ensures groups == old(groups) && category == old(category) && searchTerm == old(searchTerm)
      ensures sortKey == old(sortKey) && view == old(view)
      ensures currentContactId == old(currentContactId) && currentGroupId == old(currentGroupId)
    {
      if !CreateAllowed(variant, c) {
        return false, None;
      }
      sent := Some(Request(InsertPath, CreateBody(variant, c)));
      if !Ok(response) {
        return false, sent;
      }
      FetchContacts(refresh, now);
      ok := true;
    }

    /** `updateContact`: no guard; true iff the PUT got a 2xx answer, then the list is refreshed. */
    method UpdateContact(c: Contact, response: Outcome, refresh: FetchResult, now: int)
      returns (ok: bool, sent: Request)
      modifies this
      ensures sent == Request(UpdatePath(c.id), UpdateBody(variant, c))
      ensures ok <==> Ok(response)
      ensures ok && FetchOk(refresh) ==> contacts == MapRows(variant, refresh.rows, now)
      ensures !(ok && FetchOk(refresh)) ==> contacts == old(contacts)
      ensures groups == old(groups) && category == old(category) && searchTerm == old(searchTerm)
      ensures sortKey == old(sortKey) && view == old(view)
      ensures currentContactId == old(currentContactId) && currentGroupId == old(currentGroupId)
    {
      sent := Request(UpdatePath(c.id), UpdateBody(variant, c));
      ok := Ok(response);
      if ok {
        FetchContacts(refresh, now);
      }
    }

    /** `deleteContactAPI`: true iff the DELETE got a 2xx answer, then the list is refreshed. */
    method DeleteContact(id: int, response: Outcome, refresh: FetchResult, now: int)
      returns (ok: bool, path: string)
      modifies this
      ensures path == DeletePath(id)
      ensures ok <==> Ok(response)
      ensures ok && FetchOk(refresh) ==> contacts == MapRows(variant, refresh.rows, now)
      ensures !(ok && FetchOk(refresh)) ==> contacts == old(contacts)
      ensures groups == old(groups) && category == old(category) && searchTerm == old(searchTerm)
      ensures sortKey == old(sortKey) && view == old(view)
      ensures currentContactId == old(currentContactId) && currentGroupId == old(currentGroupId)
    {
      path := DeletePath(id);
      ok := Ok(response);
      if ok {
        FetchContacts(refresh, now);
      }
    }

    /**
     * `openProfileDialog`: a truthy id selects that contact (the modular page
     * gives up, state unchanged, when it is missing; the legacy page records
     * the id first and then fails on the missing record); no id opens an
     * empty draft in the category the filter suggests.
     */
    method OpenProfileDialog(contactId: Option<int>) returns (draft: Option<Draft>)
      modifies this
      ensures contactId.Some? && contactId.value != 0 ==>
        var found := FindContact(old(contacts), contactId.value);
        && (found.Some? ==>
              && currentContactId == contactId
              && draft == Some(Draft(contactId, found.value.name.GetOr(""), found.value.sobrenome.GetOr(""),
                                     found.value.phone.GetOr(""), found.value.email.GetOr(""),
                                     found.value.avatar, found.value.category)))
        && (found.None? ==>
              && draft.None?
              && currentContactId == (if variant == Modular then old(currentContactId) else contactId))
      ensures !(contactId.Some? && contactId.value != 0) ==>
        currentContactId.None?
        && draft == Some(Draft(None, "", "", "", "", DefaultAvatar(variant), NewContactCategory(variant, category)))
      ensures contacts == old(contacts) && groups == old(groups) && category == old(category)
      ensures searchTerm == old(searchTerm) && sortKey == old(sortKey) && view == old(view)
      ensures currentGroupId == old(currentGroupId)
    {
      if contactId.Some? && contactId.value != 0 {
        var found := FindContact(contacts, contactId.value);
        if found.None? {
          if variant == Legacy {
            currentContactId := contactId;
          }
          return None;
        }
        currentContactId := contactId;
        var c := found.value;
        draft := Some(Draft(contactId, c.name.GetOr(""), c.sobrenome.GetOr(""), c.phone.GetOr(""),
                            c.email.GetOr(""), c.avatar, c.category));
      } else {
        draft := Some(Draft(None, "", "", "", "", DefaultAvatar(variant), NewContactCategory(variant, category)));
        currentContactId := None;
      }
    }

    /**
     * `openGroupDialog`: a truthy id becomes the current group (even when no
     * such group exists; the modular page then stops before drawing the
     * members); no id clears it. Each contact's checkbox is ticked when its
     * category equals `currentGroupId || ""`.
     */
    method OpenGroupDialog(groupId: Option<string>) returns (boxes: Option<seq<Checkbox>>)
      modifies this
      ensures Truthy(groupId) ==> currentGroupId == groupId
      ensures !Truthy(groupId) ==> currentGroupId.None?
      ensures Truthy(groupId) && !HasGroup(groups, groupId.value) && variant == Modular ==> boxes.None?
      ensures !(Truthy(groupId) && !HasGroup(groups, groupId.value) && variant == Modular) ==>
        boxes == Some(DialogCheckboxes(contacts, if Truthy(groupId) then groupId.value else ""))
      ensures contacts == old(contacts) && groups == old(groups) && category == old(category)
      ensures searchTerm == old(searchTerm) && sortKey == old(sortKey) && view == old(view)
      ensures currentContactId == old(currentContactId)
    {
      if Truthy(groupId) {
        currentGroupId := groupId;
        if !HasGroup(groups, groupId.value) && variant == Modular {
          return None;
        }
      } else {
        currentGroupId := None;
      }
      var current := if currentGroupId.Some? then currentGroupId.value else "";
      boxes := Some(DialogCheckboxes(contacts, current));
    }

    /**
     * `saveGroup`: refuse a blank name or, for a new group, a taken slug;
     * otherwise rename the current group or append the new one and make it
     * current, and return the updated contacts to send, one per checkbox whose
     * state differs from the contact's membership.
     */
    method SaveGroup(input: string, selectedColor: string, boxes: seq<Checkbox>) returns (updates: seq<Contact>)
      requires Valid()
      modifies this
      ensures Valid()
      ensures var plan := SaveGroupPlan(variant, old(groups), old(currentGroupId), input, selectedColor);
        && (plan.Rejected? ==> updates == [] && groups == old(groups) && currentGroupId == old(currentGroupId))
        && (plan.Saved? ==>
              && groups == plan.groups && currentGroupId == Some(plan.groupId)
              && updates == MembershipUpdates(contacts, boxes, plan.groupId, Sentinel(variant)))
      ensures contacts == old(contacts) && category == old(category) && searchTerm == old(searchTerm)
      ensures sortKey == old(sortKey) && view == old(view) && currentContactId == old(currentContactId)
    {
      var plan := SaveGroupPlan(variant, groups, currentGroupId, input, selectedColor);
      SaveGroupKeepsIdsDistinct(variant, groups, currentGroupId, input, selectedColor);
      if plan.Rejected? {
        return [];
      }
      groups := plan.groups;
      currentGroupId := Some(plan.groupId);
      updates := PlanMembershipUpdates(contacts, boxes, plan.groupId, Sentinel(variant));
    }

    /**
     * `deleteGroup`: without a current group, or when the user cancels,
     * nothing happens; otherwise the group's contacts are moved to the
     * sentinel (returned as the updates to send), the group is removed
     * whatever those updates do, and a filter on it falls back to "todos".
     */
    method DeleteGroup(confirmed: bool) returns (updates: seq<Contact>)
      requires Valid()
      modifies this
      ensures Valid()
      ensures !(Truthy(old(currentGroupId)) && confirmed) ==>
        updates == [] && groups == old(groups) && category == old(category)
      ensures Truthy(old(currentGroupId)) && confirmed ==>
        var id := old(currentGroupId).value;
        && updates == DeleteUpdates(contacts, id, Sentinel(variant))
        && groups == RemoveGroup(old(groups), id)
        && category == (if old(category) == id then "todos" else old(category))
      ensures contacts == old(contacts) && searchTerm == old(searchTerm) && sortKey == old(sortKey)
      ensures view == old(view) && currentContactId == old(currentContactId) && currentGroupId == old(currentGroupId)
    {
      if !Truthy(currentGroupId) || !confirmed {
        return [];
      }
      var id := currentGroupId.value;
      updates := PlanDeleteUpdates(contacts, id, Sentinel(variant));
      var kept := RemoveGroup(groups, id);
      RemoveGroupKeepsIdsDistinct(groups, id);
      groups := kept;
      if category == id {
        category := "todos";
      }
    }

    /**
     * The awaited `Promise.all` of `saveGroup` and `deleteGroup`: every update
     * goes through `updateContact`. `updates` and `settled` are listed in the
     * order the requests settle; each update's request does not depend on that
     * order, and each settled refresh replaces the list.
     */
    method SendUpdates(updates: seq<Contact>, settled: seq<Settled>, now: int)
      returns (sent: seq<Request>, oks: seq<bool>)
      requires |settled| == |updates|
      modifies this
      ensures |sent| == |updates| && |oks| == |updates|
      ensures forall i :: 0 <= i < |updates| ==>
        sent[i] == Request(UpdatePath(updates[i].id), UpdateBody(variant, updates[i]))
      ensures forall i :: 0 <= i < |updates| ==> (oks[i] <==> Ok(settled[i].response))
      ensures contacts == Refreshed(variant, old(contacts), settled, now)
      ensures groups == old(groups) && category == old(category) && searchTerm == old(searchTerm)
      ensures sortKey == old(sortKey) && view == old(view)
      ensures currentContactId == old(currentContactId) && currentGroupId == old(currentGroupId)
    {
      sent, oks := [], [];
      var i := 0;
      while i < |updates|
        invariant 0 <= i <= |updates| && |sent| == i && |oks| == i
        invariant forall k :: 0 <= k < i ==>
          sent[k] == Request(UpdatePath(updates[k].id), UpdateBody(variant, updates[k]))
        invariant forall k :: 0 <= k < i ==> (oks[k] <==> Ok(settled[k].response))
        invariant contacts == Refreshed(variant, old(contacts), settled[..i], now)
        invariant groups == old(groups) && category == old(category) && searchTerm == old(searchTerm)
        invariant sortKey == old(sortKey) && view == old(view)
        invariant currentContactId == old(currentContactId) && currentGroupId == old(currentGroupId)
      {
        var ok, request := UpdateContact(updates[i], settled[i].response, settled[i].refresh, now);
        RefreshedStep(variant, old(contacts), settled, i, now);
        ghost var before := sent;
        sent, oks := sent + [request], oks + [ok];
        forall k | 0 <= k < i + 1
          ensures sent[k] == Request(UpdatePath(updates[k].id), UpdateBody(variant, updates[k]))
        {
          if k < i {
            assert sent[k] == before[k];
          }
        }
        i := i + 1;
      }
      assert settled[..i] == settled;
    }
  }

  lemma {:induction false} RemoveGroupKeepsIdsDistinct(groups: seq<Group>, id: string)
    requires DistinctIds(groups)
    ensures DistinctIds(RemoveGroup(groups, id))
    ensures Subsequence(RemoveGroup(groups, id), groups)
  {
    if groups != [] {
      assert DistinctIds(groups[1..]) by {
        forall i, j | 0 <= i < j < |groups[1..]| ensures groups[1..][i].id != groups[1..][j].id {
          assert groups[1..][i] == groups[i + 1] && groups[1..][j] == groups[j + 1];
        }
      }
      RemoveGroupKeepsIdsDistinct(groups[1..], id);
      var rest := RemoveGroup(groups[1..], id);
      if groups[0].id != id {
        var r := [groups[0]] + rest;
        assert RemoveGroup(groups, id) == r;
        forall i, j | 0 <= i < j < |r| ensures r[i].id != r[j].id {
          if i == 0 {
            assert r[j] in rest;
            var k :| 0 <= k < |groups[1..]| && groups[1..][k] == r[j];
            assert groups[k + 1] == r[j];
          } else {
            assert r[i] == rest[i - 1] && r[j] == rest[j - 1];
          }
        }
        assert r[1..] == rest;
      } else {
        assert RemoveGroup(groups, id) == rest;
        if rest != [] {
          assert Subsequence(rest, groups[1..]);
        }
      }
    }
  }

  /**
   * The modular page lists exactly the filtered contacts; the legacy page
   * lists the same ones whenever no contact has a null name or phone.
   */
  lemma RenderedAgree(p: ContactsPage)
    requires forall c :: c in p.contacts ==> NoNulls(c)
    ensures p.Rendered().Some?
    ensures forall x :: x in p.Rendered().value <==> x in p.contacts && Matches(x, p.category, p.searchTerm)
  {
    VisibleContents(p.contacts, p.category, p.searchTerm, p.sortKey);
    LegacyFilterAgrees(p.contacts, p.category, p.searchTerm);
  }

  /** A freshly loaded modular list has no null field, so the page always renders. */
  lemma ModularListHasNoNulls(rows: seq<ApiRow>, now: int)
    ensures forall c :: c in MapRows(Modular, rows, now) ==> NoNulls(c)
  {
    forall c | c in MapRows(Modular, rows, now) ensures NoNulls(c) {
      var i :| 0 <= i < |rows| && MapRows(Modular, rows, now)[i] == c;
      ModularRowHasNoNulls(rows[i], now);
    }
  }
}
