/**
 * Groups: the group list derived from the contacts (`getUniqueGroups`), the
 * options of the category select, the group dialog's save and delete steps,
 * and the batch planners of group-controller.js that decide which contact
 * ids get which `grupo` and when a batch counts as successful.
 */
module Groups {
  import opened Wrappers
  import opened Text
  import opened Contacts

  const TodosGroup: Group := Group("todos", "Todos", None)

  // ----- getUniqueGroups -----

  /** A category `getUniqueGroups` lists: truthy and not "todos". */
  predicate Listed(category: string) { category != "" && category != "todos" }

  /** The listed categories of the contacts, in order, repetitions included. */
  function Categories(cs: seq<Contact>): seq<string> {
    if cs == [] then []
    else
      var last := cs[|cs| - 1];
      Categories(cs[..|cs| - 1]) + (if Listed(last.category) then [last.category] else [])
  }

  /** The collected names are exactly the listed categories of the contacts. */
  lemma {:induction false} CategoriesMembers(cs: seq<Contact>)
    ensures forall x :: x in Categories(cs) <==> exists c :: c in cs && c.category == x && Listed(x)
  {
    if cs != [] {
      var pre, last := cs[..|cs| - 1], cs[|cs| - 1];
      CategoriesMembers(pre);
      assert forall c :: c in cs <==> c in pre || c == last;
    }
  }

  /** The first occurrence of each element, in order (the insertion order of a `Set`). */
  function Firsts(xs: seq<string>): (r: seq<string>)
    ensures forall x :: x in r <==> x in xs
  {
    if xs == [] then []
    else
      var p := Firsts(xs[..|xs| - 1]);
      var y := xs[|xs| - 1];
      assert forall x :: x in xs <==> x in xs[..|xs| - 1] || x == y;
      if y in p then p else p + [y]
  }

  /** Keeping first occurrences keeps each element once. */
  lemma {:induction false} FirstsDistinct(xs: seq<string>)
    ensures forall i, j :: 0 <= i < j < |Firsts(xs)| ==> Firsts(xs)[i] != Firsts(xs)[j]
  {
    if xs != [] {
      FirstsDistinct(xs[..|xs| - 1]);
    }
  }

  function AsGroups(names: seq<string>): (r: seq<Group>)
    ensures |r| == |names|
    ensures forall i :: 0 <= i < |names| ==> r[i] == Group(names[i], names[i], None)
  {
    if names == [] then [] else AsGroups(names[..|names| - 1]) + [Group(names[|names| - 1], names[|names| - 1], None)]
  }

  /** What `getUniqueGroups` returns. */
  function UniqueGroups(contacts: Option<seq<Contact>>): seq<Group> {
    if contacts.None? || contacts.value == [] then [TodosGroup]
    else [TodosGroup] + AsGroups(Firsts(Categories(contacts.value)))
  }

  /**
   * `getUniqueGroups`: collect the listed categories in a `Set` (insertion
   * order, no repetitions), then push one group per element after "todos".
   */
  method GetUniqueGroups(contacts: Option<seq<Contact>>) returns (groups: seq<Group>)
    ensures groups == UniqueGroups(contacts)
  {
    if contacts.None? || |contacts.value| == 0 {
      return [TodosGroup];
    }
    var cs := contacts.value;
    var unique: seq<string> := [];
    var i := 0;
    while i < |cs|
      invariant 0 <= i <= |cs|
      invariant unique == Firsts(Categories(cs[..i]))
    {
      FirstsStep(cs, i);
      if cs[i].category != "" && cs[i].category != "todos" && cs[i].category !in unique {
        unique := unique + [cs[i].category];
      }
      assert unique == Firsts(Categories(cs[..i + 1]));
      i := i + 1;
    }
    assert cs[..i] == cs;
    groups := [TodosGroup];
    var k := 0;
    while k < |unique|
      invariant 0 <= k <= |unique|
      invariant groups == [TodosGroup] + AsGroups(unique[..k])
    {
      assert unique[..k + 1][..k] == unique[..k];
      groups := groups + [Group(unique[k], unique[k], None)];
      k := k + 1;
    }
    assert unique[..k] == unique;
  }

  /** One more contact adds its category to the first occurrences when it is listed and new. */
  lemma FirstsStep(cs: seq<Contact>, i: int)
    requires 0 <= i < |cs|
    ensures var before, c := Firsts(Categories(cs[..i])), cs[i].category;
      Firsts(Categories(cs[..i + 1])) == if Listed(c) && c !in before then before + [c] else before
  {
    assert cs[..i + 1][..i] == cs[..i];
    var before := Categories(cs[..i]);
    if Listed(cs[i].category) {
      assert Categories(cs[..i + 1]) == before + [cs[i].category];
      assert (before + [cs[i].category])[..|before|] == before;
    } else {
      assert Categories(cs[..i + 1]) == before;
    }
  }

  /** A null or empty list gives exactly the "todos" entry. */
  lemma UniqueGroupsOfNothing(contacts: Option<seq<Contact>>)
    requires contacts.None? || contacts.value == []
    ensures UniqueGroups(contacts) == [Group("todos", "Todos", None)]
  {
  }

  /**
   * The first entry is "todos"; every later entry has `id == name`, is neither
   * "todos" nor "", is the category of some contact, appears once, and every
   * listed category of a contact appears.
   */
  lemma UniqueGroupsContents(contacts: Option<seq<Contact>>)
    ensures var g := UniqueGroups(contacts);
      && g[0] == TodosGroup
      && (forall i :: 1 <= i < |g| ==> g[i].id == g[i].name && Listed(g[i].id) && g[i].color.None?)
      && (forall i, j :: 0 <= i < j < |g| ==> g[i].id != g[j].id)
      && (forall i :: 1 <= i < |g| ==> exists c :: c in contacts.value && c.category == g[i].id)
      && (contacts.Some? ==> forall c :: c in contacts.value && Listed(c.category) ==>
            exists i :: 1 <= i < |g| && g[i].id == c.category)
  {
    if contacts.Some? && contacts.value != [] {
      UniqueGroupsSound(contacts.value);
      UniqueGroupsDistinct(contacts.value);
      UniqueGroupsComplete(contacts.value);
    }
  }

  /** Every entry after "todos" is a listed category some contact has. */
  lemma UniqueGroupsSound(cs: seq<Contact>)
    requires cs != []
    ensures var g := UniqueGroups(Some(cs));
      forall i :: 1 <= i < |g| ==>
        && g[i].id == g[i].name && Listed(g[i].id) && g[i].color.None?
        && exists c :: c in cs && c.category == g[i].id
  {
    var g := UniqueGroups(Some(cs));
    var cats := Categories(cs);
    assert g == [TodosGroup] + AsGroups(Firsts(cats));
    CategoriesMembers(cs);
    forall i | 1 <= i < |g|
      ensures g[i].id == g[i].name && Listed(g[i].id) && g[i].color.None?
      ensures exists c :: c in cs && c.category == g[i].id
    {
      GroupEntry(cats, i);
    }
  }

  lemma UniqueGroupsDistinct(cs: seq<Contact>)
    requires cs != []
    ensures var g := UniqueGroups(Some(cs));
      forall i, j :: 0 <= i < j < |g| ==> g[i].id != g[j].id
  {
    var g := UniqueGroups(Some(cs));
    var cats := Categories(cs);
    assert g == [TodosGroup] + AsGroups(Firsts(cats));
    CategoriesMembers(cs);
    FirstsDistinct(cats);
    forall i, j | 0 <= i < j < |g| ensures g[i].id != g[j].id {
      GroupEntry(cats, j);
      if i > 0 {
        GroupEntry(cats, i);
      }
    }
  }

  /** Every listed category of a contact has an entry. */
  lemma UniqueGroupsComplete(cs: seq<Contact>)
    requires cs != []
    ensures var g := UniqueGroups(Some(cs));
      forall c :: c in cs && Listed(c.category) ==> exists i :: 1 <= i < |g| && g[i].id == c.category
  {
    var g := UniqueGroups(Some(cs));
    var cats := Categories(cs);
    var f := Firsts(cats);
    assert g == [TodosGroup] + AsGroups(f);
    CategoriesMembers(cs);
    forall c | c in cs && Listed(c.category)
      ensures exists i :: 1 <= i < |g| && g[i].id == c.category
    {
      assert c.category in f;
      var k :| 0 <= k < |f| && f[k] == c.category;
      GroupEntry(cats, k + 1);
    }
  }

  /** Position of the first occurrence of `x` in `xs`. */
  function FirstIndex(xs: seq<string>, x: string): (i: nat)
    requires x in xs
    ensures i < |xs| && xs[i] == x && x !in xs[..i]
  {
    if xs[0] == x then 0 else 1 + FirstIndex(xs[1..], x)
  }

  lemma FirstIndexOfPrefix(xs: seq<string>, x: string, n: nat)
    requires n <= |xs| && x in xs[..n]
    ensures FirstIndex(xs, x) == FirstIndex(xs[..n], x)
  {
    var i, k := FirstIndex(xs, x), FirstIndex(xs[..n], x);
    assert xs[..n][k] == xs[k];
    assert forall t :: 0 <= t < k ==> xs[..n][..k][t] == xs[t];
    assert forall t :: 0 <= t < i ==> xs[..i][t] == xs[t];
  }

  /** Entries come in the order of the categories' first occurrences. */
  lemma {:induction false} FirstsInFirstOccurrenceOrder(xs: seq<string>)
    ensures forall i, j :: 0 <= i < j < |Firsts(xs)| ==> FirstIndex(xs, Firsts(xs)[i]) < FirstIndex(xs, Firsts(xs)[j])
  {
    if xs != [] {
      var pre := xs[..|xs| - 1];
      var y := xs[|xs| - 1];
      var p := Firsts(pre);
      FirstsInFirstOccurrenceOrder(pre);
      var r := Firsts(xs);
      assert r == if y in p then p else p + [y];
      forall i | 0 <= i < |p| ensures FirstIndex(xs, p[i]) == FirstIndex(pre, p[i]) {
        assert p[i] in pre;
        FirstIndexOfPrefix(xs, p[i], |xs| - 1);
      }
      if y !in p {
        assert FirstIndex(xs, y) == |xs| - 1 by {
          var t := FirstIndex(xs, y);
          assert forall s :: 0 <= s < |xs| - 1 ==> pre[s] == xs[s];
          assert y !in pre;
        }
      }
      forall i, j | 0 <= i < j < |r| ensures FirstIndex(xs, r[i]) < FirstIndex(xs, r[j]) {
        assert r[i] == p[i];
        assert FirstIndex(xs, p[i]) == FirstIndex(pre, p[i]) < |pre|;
        if j < |p| {
          assert r[j] == p[j];
          assert FirstIndex(xs, p[j]) == FirstIndex(pre, p[j]);
          assert FirstIndex(pre, p[i]) < FirstIndex(pre, p[j]);
        } else {
          assert r[j] == y;
        }
      }
    }
  }

  /** After "todos", groups come in the order in which their categories first occur among the contacts. */
  lemma UniqueGroupsOrder(cs: seq<Contact>)
    requires cs != []
    ensures var g, cats := UniqueGroups(Some(cs)), Categories(cs);
      forall i, j :: 1 <= i < j < |g| ==>
        g[i].id in cats && g[j].id in cats && FirstIndex(cats, g[i].id) < FirstIndex(cats, g[j].id)
  {
    var cats := Categories(cs);
    assert UniqueGroups(Some(cs)) == [TodosGroup] + AsGroups(Firsts(cats));
    GroupsInFirstOccurrenceOrder(cats);
  }

  lemma GroupsInFirstOccurrenceOrder(xs: seq<string>)
    ensures var g := [TodosGroup] + AsGroups(Firsts(xs));
      forall i, j :: 1 <= i < j < |g| ==>
        g[i].id in xs && g[j].id in xs && FirstIndex(xs, g[i].id) < FirstIndex(xs, g[j].id)
  {
    var g := [TodosGroup] + AsGroups(Firsts(xs));
    FirstsInFirstOccurrenceOrder(xs);
    forall i, j | 1 <= i < j < |g|
      ensures g[i].id in xs && g[j].id in xs && FirstIndex(xs, g[i].id) < FirstIndex(xs, g[j].id)
    {
      GroupEntry(xs, i);
      GroupEntry(xs, j);
    }
  }

  /** Entry `i` after "todos" is the `i - 1`-th first occurrence. */
  lemma GroupEntry(xs: seq<string>, i: int)
    requires 1 <= i < |[TodosGroup] + AsGroups(Firsts(xs))|
    ensures var f := Firsts(xs);
      ([TodosGroup] + AsGroups(f))[i].id == f[i - 1] && f[i - 1] in xs
  {
    var f := Firsts(xs);
    var a := AsGroups(f);
    assert ([TodosGroup] + a)[i] == a[i - 1];
    assert f[i - 1] in f;
  }

  // ----- updateCategorySelect -----

  /** The options of the category select: every group except "todos", in order. */
  function CategoryOptions(groups: seq<Group>): (r: seq<Group>)
    ensures forall g :: g in r <==> g in groups && g.id != "todos"
  {
    if groups == [] then []
    else (if groups[0].id != "todos" then [groups[0]] else []) + CategoryOptions(groups[1..])
  }

  lemma {:induction false} CategoryOptionsInOrder(groups: seq<Group>)
    ensures Subsequence(CategoryOptions(groups), groups)
  {
    if groups != [] {
      CategoryOptionsInOrder(groups[1..]);
      var r := CategoryOptions(groups);
      if groups[0].id != "todos" {
        assert r[0] == groups[0] && r[1..] == CategoryOptions(groups[1..]);
      } else {
        assert r == CategoryOptions(groups[1..]);
      }
    }
  }

  // ----- the id of a new group -----

  /** `replace(/\s+/g, "-")`: each maximal run of `\s` becomes one "-". */
  function CollapseSpaces(s: string): (r: string)
    ensures forall c :: c in r ==> !IsSpace(c) && (c == '-' || c in s)
    ensures r == [] <==> s == []
    decreases |s|
  {
    if s == [] then []
    else if IsSpace(s[0]) then
      var t := TrimStart(s[1..]);
      var rest := CollapseSpaces(t);
      assert forall c :: c in t ==> c in s by {
        assert t == s[1..][|s[1..]| - |t|..];
      }
      "-" + rest
    else
      var rest := CollapseSpaces(s[1..]);
      assert forall c :: c in s[1..] ==> c in s;
      [s[0]] + rest
  }

  /** The id `saveGroup` derives from a group name. */
  function Slug(name: string): string {
    CollapseSpaces(Lower(name))
  }

  predicate NoSpace(s: string) { forall i :: 0 <= i < |s| ==> !IsSpace(s[i]) }
  predicate NoUpper(s: string) { forall i :: 0 <= i < |s| ==> !IsUpperAscii(s[i]) }

  lemma {:induction false} CollapseWithoutSpaces(s: string)
    requires NoSpace(s)
    ensures CollapseSpaces(s) == s
  {
    if s != [] {
      assert !IsSpace(s[0]);
      CollapseWithoutSpaces(s[1..]);
    }
  }

  lemma LowerWithoutUpper(s: string)
    requires NoUpper(s)
    ensures Lower(s) == s
  {
  }

  /** A slug holds no whitespace and no upper-case ASCII, is empty only for "", and is its own slug. */
  lemma SlugProperties(name: string)
    ensures NoSpace(Slug(name)) && NoUpper(Slug(name))
    ensures Slug(name) == "" <==> name == ""
    ensures Slug(Slug(name)) == Slug(name)
  {
    var s := Slug(name);
    assert NoSpace(s) by {
      forall i | 0 <= i < |s| ensures !IsSpace(s[i]) {
        assert s[i] in s;
      }
    }
    assert NoUpper(s) by {
      forall i | 0 <= i < |s| ensures !IsUpperAscii(s[i]) {
        assert s[i] in s;
        if s[i] != '-' {
          assert s[i] in Lower(name);
        }
      }
    }
    LowerWithoutUpper(s);
    CollapseWithoutSpaces(s);
  }

  // ----- saveGroup -----

  /** The colour a new group gets: fixed in the modular front end, the picked one in the legacy one. */
  function NewGroupColor(v: Variant, selectedColor: string): string {
    match v
    case Modular => "#0078d7"
    case Legacy => selectedColor
  }

  /** `findIndex` by id; `|groups|` stands for -1. */
  function GroupIndex(groups: seq<Group>, id: string): nat {
    FindIndex(groups, (g: Group) => g.id == id)
  }

  predicate HasGroup(groups: seq<Group>, id: string) {
    exists g :: g in groups && g.id == id
  }

  /** Editing: the group with that id gets the new name (and, in the legacy page, the colour). */
  function RenameGroup(v: Variant, groups: seq<Group>, id: string, name: string, selectedColor: string): seq<Group> {
    var i := GroupIndex(groups, id);
    if i == |groups| then groups
    else match v
      case Modular => groups[i := groups[i].(name := name)]
      case Legacy => groups[i := groups[i].(name := name, color := Some(selectedColor))]
  }

  datatype SavePlan = Rejected | Saved(groups: seq<Group>, groupId: string)

  /**
   * The group part of `saveGroup`: a blank name is refused; with a current
   * group that group is renamed; otherwise the slug of the name becomes the id
   * of a new group appended at the end, unless a group has that id already.
   */
  function SaveGroupPlan(v: Variant, groups: seq<Group>, current: Option<string>,
                         input: string, selectedColor: string): SavePlan
  {
    var name := Trim(input);
    if name == "" then Rejected
    else if Truthy(current) then Saved(RenameGroup(v, groups, current.value, name, selectedColor), current.value)
    else
      var id := Slug(name);
      if HasGroup(groups, id) then Rejected
      else Saved(groups + [Group(id, name, Some(NewGroupColor(v, selectedColor)))], id)
  }

  /** A name that is blank after trimming is refused. */
  lemma SaveGroupRejectsBlank(v: Variant, groups: seq<Group>, current: Option<string>, input: string, color: string)
    ensures SaveGroupPlan(v, groups, current, input, color) == Rejected
            <==> Blank(input) || (!Truthy(current) && HasGroup(groups, Slug(Trim(input))))
  {
    TrimEmptyIffBlank(input);
  }

  /** A new group is appended with the slug id, earlier groups unchanged, and becomes current. */
  lemma SaveGroupCreates(v: Variant, groups: seq<Group>, current: Option<string>, input: string, color: string)
    requires !Truthy(current) && SaveGroupPlan(v, groups, current, input, color).Saved?
    ensures var p := SaveGroupPlan(v, groups, current, input, color);
      && p.groupId == Slug(Trim(input)) && p.groupId != ""
      && !HasGroup(groups, p.groupId)
      && p.groups == groups + [Group(p.groupId, Trim(input), Some(NewGroupColor(v, color)))]
  {
    SlugProperties(Trim(input));
  }

  /**
   * Editing keeps every id and every group other than the first one with the
   * current id; that one gets the new name (modular: nothing else changes;
   * legacy: also the picked colour).
   */
  lemma SaveGroupEdits(v: Variant, groups: seq<Group>, current: Option<string>, input: string, color: string)
    requires Truthy(current) && !Blank(input)
    ensures var p := SaveGroupPlan(v, groups, current, input, color);
      var i := GroupIndex(groups, current.value);
      && p.Saved? && p.groupId == current.value && |p.groups| == |groups|
      && (forall k :: 0 <= k < |groups| && k != i ==> p.groups[k] == groups[k])
      && (i < |groups| ==> p.groups[i].id == groups[i].id && p.groups[i].name == Trim(input))
      && (i < |groups| && v == Modular ==> p.groups[i] == groups[i].(name := Trim(input)))
      && (i < |groups| && v == Legacy ==> p.groups[i].color == Some(color))
  {
    TrimEmptyIffBlank(input);
  }

  predicate DistinctIds(groups: seq<Group>) {
    forall i, j :: 0 <= i < j < |groups| ==> groups[i].id != groups[j].id
  }

  /** Saving a group keeps group ids distinct. */
  lemma SaveGroupKeepsIdsDistinct(v: Variant, groups: seq<Group>, current: Option<string>, input: string, color: string)
    requires DistinctIds(groups)
    ensures var p := SaveGroupPlan(v, groups, current, input, color);
      p.Saved? ==> DistinctIds(p.groups)
  {
    var p := SaveGroupPlan(v, groups, current, input, color);
    if p.Saved? && !Truthy(current) {
      var n := |groups|;
      forall i, j | 0 <= i < j < |p.groups| ensures p.groups[i].id != p.groups[j].id {
        if j == n {
          assert groups[i] in groups;
        }
      }
    }
  }

  // ----- member checkboxes (openGroupDialog / saveGroup) -----

  datatype Checkbox = Checkbox(contactId: int, checked: bool)

  /** `contacts.find(c => c.id === id)`. */
  function FindContact(cs: seq<Contact>, id: int): (r: Option<Contact>)
    ensures r.Some? ==> r.value in cs && r.value.id == id
    ensures r.None? ==> forall c :: c in cs ==> c.id != id
  {
    if cs == [] then None
    else if cs[0].id == id then Some(cs[0])
    else FindContact(cs[1..], id)
  }

  /** `find` returns the first contact with that id, and nothing only when no contact has it. */
  lemma {:induction false} FindContactFirst(cs: seq<Contact>, id: int)
    ensures FindContact(cs, id).None? <==> forall c :: c in cs ==> c.id != id
    ensures FindContact(cs, id).Some? ==>
      exists i :: 0 <= i < |cs| && cs[i] == FindContact(cs, id).value && cs[i].id == id
        && forall k :: 0 <= k < i ==> cs[k].id != id
  {
    if cs != [] && cs[0].id != id {
      var tail := cs[1..];
      FindContactFirst(tail, id);
      if FindContact(cs, id).Some? {
        var i :| 0 <= i < |tail| && tail[i] == FindContact(tail, id).value && tail[i].id == id
          && forall k :: 0 <= k < i ==> tail[k].id != id;
        forall k | 0 <= k < i + 1 ensures cs[k].id != id {
          if k > 0 {
            assert cs[k] == tail[k - 1];
          }
        }
        assert cs[i + 1] == tail[i];
      }
    } else if cs != [] {
      assert cs[0] == FindContact(cs, id).value;
    }
  }

  /** The checkboxes `openGroupDialog` draws: one per contact, ticked when it is in `groupId`. */
  function DialogCheckboxes(cs: seq<Contact>, groupId: string): (r: seq<Checkbox>)
    ensures |r| == |cs|
    ensures forall i :: 0 <= i < |cs| ==> r[i] == Checkbox(cs[i].id, cs[i].category == groupId)
  {
    if cs == [] then [] else [Checkbox(cs[0].id, cs[0].category == groupId)] + DialogCheckboxes(cs[1..], groupId)
  }

  /** The update one checkbox causes: none unless its state differs from the contact's membership. */
  function BoxUpdate(cs: seq<Contact>, box: Checkbox, groupId: string, sentinel: string): seq<Contact> {
    match FindContact(cs, box.contactId)
    case None => []
    case Some(c) =>
      if box.checked != (c.category == groupId)
      then [c.(category := if box.checked then groupId else sentinel)]
      else []
  }

  /** The updated records `saveGroup` sends, one per changed checkbox, in checkbox order. */
  function MembershipUpdates(cs: seq<Contact>, boxes: seq<Checkbox>, groupId: string, sentinel: string): seq<Contact> {
    if boxes == [] then []
    else MembershipUpdates(cs, boxes[..|boxes| - 1], groupId, sentinel)
         + BoxUpdate(cs, boxes[|boxes| - 1], groupId, sentinel)
  }

  /** The `forEach` over the checkboxes that fills the list of updates. */
  method PlanMembershipUpdates(cs: seq<Contact>, boxes: seq<Checkbox>, groupId: string, sentinel: string)
    returns (updates: seq<Contact>)
    ensures updates == MembershipUpdates(cs, boxes, groupId, sentinel)
  {
    updates := [];
    var i := 0;
    while i < |boxes|
      invariant 0 <= i <= |boxes|
      invariant updates == MembershipUpdates(cs, boxes[..i], groupId, sentinel)
    {
      assert boxes[..i + 1][..i] == boxes[..i];
      var contact := FindContact(cs, boxes[i].contactId);
      if contact.Some? {
        var shouldBeInGroup := boxes[i].checked;
        var isInGroup := contact.value.category == groupId;
        if shouldBeInGroup != isInGroup {
          var target := if shouldBeInGroup then groupId else sentinel;
          updates := updates + [contact.value.(category := target)];
        }
      }
      i := i + 1;
    }
    assert boxes[..i] == boxes;
  }

  /**
   * Each update moves one contact across the group boundary: it is a contact
   * of the list with only its category changed, either into `groupId` (it was
   * outside) or to the sentinel (it was inside).
   */
  lemma {:induction false} MembershipUpdatesMove(cs: seq<Contact>, boxes: seq<Checkbox>, groupId: string, sentinel: string)
    requires groupId != sentinel
    ensures forall u :: u in MembershipUpdates(cs, boxes, groupId, sentinel) ==>
      exists c :: c in cs && u == c.(category := u.category)
        && (u.category == groupId || u.category == sentinel)
        && (u.category == groupId <==> c.category != groupId)
  {
    if boxes != [] {
      MembershipUpdatesMove(cs, boxes[..|boxes| - 1], groupId, sentinel);
    }
  }

  /** A checkbox whose contact exists and whose state differs yields its update. */
  lemma {:induction false} ChangedBoxIsSent(cs: seq<Contact>, boxes: seq<Checkbox>, groupId: string, sentinel: string, k: nat)
    requires k < |boxes| && FindContact(cs, boxes[k].contactId).Some?
    requires var c := FindContact(cs, boxes[k].contactId).value; boxes[k].checked != (c.category == groupId)
    ensures var c := FindContact(cs, boxes[k].contactId).value;
      c.(category := if boxes[k].checked then groupId else sentinel) in MembershipUpdates(cs, boxes, groupId, sentinel)
  {
    if k < |boxes| - 1 {
      ChangedBoxIsSent(cs, boxes[..|boxes| - 1], groupId, sentinel, k);
    }
  }

  predicate DistinctContactIds(cs: seq<Contact>) {
    forall i, j :: 0 <= i < j < |cs| ==> cs[i].id != cs[j].id
  }

  /** Saving the group dialog as it was drawn sends no update. */
  lemma {:induction false} UntouchedDialogSendsNothing(cs: seq<Contact>, groupId: string, sentinel: string)
    requires DistinctContactIds(cs)
    ensures MembershipUpdates(cs, DialogCheckboxes(cs, groupId), groupId, sentinel) == []
  {
    var boxes := DialogCheckboxes(cs, groupId);
    NoUpdatesFromPrefix(cs, boxes, groupId, sentinel, |boxes|);
    assert boxes[..|boxes|] == boxes;
  }

  lemma {:induction false} NoUpdatesFromPrefix(cs: seq<Contact>, boxes: seq<Checkbox>, groupId: string, sentinel: string, n: nat)
    requires DistinctContactIds(cs) && boxes == DialogCheckboxes(cs, groupId) && n <= |boxes|
    ensures MembershipUpdates(cs, boxes[..n], groupId, sentinel) == []
  {
    if n > 0 {
      NoUpdatesFromPrefix(cs, boxes, groupId, sentinel, n - 1);
      OwnBoxSendsNothing(cs, groupId, sentinel, n - 1);
      PrefixUpdates(cs, boxes, groupId, sentinel, n);
    }
  }

  /** The updates of the first `n` boxes: those of the first `n - 1`, then the `n`-th box's. */
  lemma PrefixUpdates(cs: seq<Contact>, boxes: seq<Checkbox>, groupId: string, sentinel: string, n: nat)
    requires 0 < n <= |boxes|
    ensures MembershipUpdates(cs, boxes[..n], groupId, sentinel)
            == MembershipUpdates(cs, boxes[..n - 1], groupId, sentinel) + BoxUpdate(cs, boxes[n - 1], groupId, sentinel)
  {
    assert boxes[..n][..n - 1] == boxes[..n - 1];
  }

  /** A box left as drawn for its own contact sends nothing. */
  lemma OwnBoxSendsNothing(cs: seq<Contact>, groupId: string, sentinel: string, k: nat)
    requires DistinctContactIds(cs) && k < |cs|
    ensures BoxUpdate(cs, Checkbox(cs[k].id, cs[k].category == groupId), groupId, sentinel) == []
  {
    FindDistinct(cs, k);
  }

  lemma FindDistinct(cs: seq<Contact>, k: nat)
    requires DistinctContactIds(cs) && k < |cs|
    ensures FindContact(cs, cs[k].id) == Some(cs[k])
  {
    if k > 0 {
      assert cs[0].id != cs[k].id;
      assert DistinctContactIds(cs[1..]) by {
        forall i, j | 0 <= i < j < |cs[1..]| ensures cs[1..][i].id != cs[1..][j].id {
          assert cs[1..][i] == cs[i + 1] && cs[1..][j] == cs[j + 1];
        }
      }
      FindDistinct(cs[1..], k - 1);
    }
  }

  // ----- deleteGroup -----

  /** The updated records `deleteGroup` sends: each contact of the group moved to the sentinel. */
  function DeleteUpdates(cs: seq<Contact>, groupId: string, sentinel: string): seq<Contact> {
    if cs == [] then []
    else DeleteUpdates(cs[..|cs| - 1], groupId, sentinel)
         + (if cs[|cs| - 1].category == groupId then [cs[|cs| - 1].(category := sentinel)] else [])
  }

  /** The `forEach` over the contacts that fills the list of updates. */
  method PlanDeleteUpdates(cs: seq<Contact>, groupId: string, sentinel: string) returns (updates: seq<Contact>)
    ensures updates == DeleteUpdates(cs, groupId, sentinel)
  {
    updates := [];
    var i := 0;
    while i < |cs|
      invariant 0 <= i <= |cs|
      invariant updates == DeleteUpdates(cs[..i], groupId, sentinel)
    {
      assert cs[..i + 1][..i] == cs[..i];
      if cs[i].category == groupId {
        updates := updates + [cs[i].(category := sentinel)];
      }
      i := i + 1;
    }
    assert cs[..i] == cs;
  }

  /** Exactly the contacts of the group are sent, each with the sentinel as category. */
  lemma {:induction false} DeleteUpdatesExact(cs: seq<Contact>, groupId: string, sentinel: string)
    ensures var r := DeleteUpdates(cs, groupId, sentinel);
      && (forall u :: u in r ==>
            u.category == sentinel && exists c :: c in cs && c.category == groupId && u == c.(category := sentinel))
      && (forall c :: c in cs && c.category == groupId ==> c.(category := sentinel) in r)
      && (|r| == 0 <==> forall c :: c in cs ==> c.category != groupId)
  {
    if cs != [] {
      var pre := cs[..|cs| - 1];
      DeleteUpdatesExact(pre, groupId, sentinel);
      assert forall c :: c in cs <==> c in pre || c == cs[|cs| - 1];
    }
  }

  /** `groups.filter(g => g.id !== groupId)`. */
  function RemoveGroup(groups: seq<Group>, groupId: string): (r: seq<Group>)
    ensures forall g :: g in r <==> g in groups && g.id != groupId
    ensures !HasGroup(r, groupId)
  {
    if groups == [] then []
    else (if groups[0].id != groupId then [groups[0]] else []) + RemoveGroup(groups[1..], groupId)
  }

  // ----- group-controller.js batches -----

  /** A PUT to the update path whose body carries only `grupo`. */
  datatype Request = Request(path: string, body: ContactBody)

  function GroupRequest(id: int, grupo: string): Request {
    Request(UpdatePath(id), ContactBody(None, None, None, None, Some(grupo), None))
  }

  /** How one request settled: rejected, or fulfilled with an HTTP status. */
  datatype Outcome = Failed | Fulfilled(status: int)

  predicate Ok(o: Outcome) { o.Fulfilled? && 200 <= o.status <= 299 }

  /** `results.every(r => r.status === "fulfilled" && r.value.ok)`. */
  predicate AllOk(outcomes: seq<Outcome>) { forall i :: 0 <= i < |outcomes| ==> Ok(outcomes[i]) }

  function Requests(ids: seq<int>, grupo: string): (r: seq<Request>)
    ensures |r| == |ids|
    ensures forall i :: 0 <= i < |ids| ==> r[i] == GroupRequest(ids[i], grupo)
  {
    if ids == [] then [] else [GroupRequest(ids[0], grupo)] + Requests(ids[1..], grupo)
  }

  /** `createGroup` stops before any request for a blank name or an empty id list. */
  predicate CreateGroupValid(groupName: Option<string>, contactIds: Option<seq<int>>) {
    Truthy(groupName) && !Blank(groupName.value) && contactIds.Some? && |contactIds.value| > 0
  }

  /** The requests `createGroup` issues: one per id, each setting `grupo` to the name. */
  function CreateGroupRequests(groupName: Option<string>, contactIds: Option<seq<int>>): seq<Request> {
    if CreateGroupValid(groupName, contactIds) then Requests(contactIds.value, groupName.value) else []
  }

  /** The value `createGroup` resolves to, given how each of its requests settled. */
  function CreateGroup(groupName: Option<string>, contactIds: Option<seq<int>>, outcomes: seq<Outcome>): bool
    requires |outcomes| == |CreateGroupRequests(groupName, contactIds)|
  {
    CreateGroupValid(groupName, contactIds) && AllOk(outcomes)
  }

  lemma CreateGroupBehaviour(groupName: Option<string>, contactIds: Option<seq<int>>, outcomes: seq<Outcome>)
    requires |outcomes| == |CreateGroupRequests(groupName, contactIds)|
    ensures !CreateGroupValid(groupName, contactIds) ==>
      CreateGroupRequests(groupName, contactIds) == [] && !CreateGroup(groupName, contactIds, outcomes)
    ensures CreateGroupValid(groupName, contactIds) ==>
      var rs := CreateGroupRequests(groupName, contactIds);
      && |rs| == |contactIds.value|
      && (forall i :: 0 <= i < |rs| ==> rs[i].path == UpdatePath(contactIds.value[i])
                                        && rs[i].body.grupo == groupName)
      && (CreateGroup(groupName, contactIds, outcomes) <==> AllOk(outcomes))
  {
  }

  /** Added ids go to the group, then removed ids go to "todos"; a null list sends nothing. */
  function UpdateMembersRequests(groupName: string, toAdd: Option<seq<int>>, toRemove: Option<seq<int>>): seq<Request> {
    Requests(toAdd.GetOr([]), groupName) + Requests(toRemove.GetOr([]), "todos")
  }

  /**
   * The value `updateGroupMembers` resolves to, as written: after the
   * requests settle it reads the `length` of both lists to log the change,
   * which throws for a null list, and the throw is caught as a failure.
   */
  function UpdateGroupMembers(groupName: string, toAdd: Option<seq<int>>, toRemove: Option<seq<int>>,
                              outcomes: seq<Outcome>): bool
    requires |outcomes| == |UpdateMembersRequests(groupName, toAdd, toRemove)|
  {
    AllOk(outcomes) && toAdd.Some? && toRemove.Some?
  }

  /** The evidently intended result: every request succeeded (a null list is an empty one). */
  function UpdateGroupMembersIntended(groupName: string, toAdd: Option<seq<int>>, toRemove: Option<seq<int>>,
                                      outcomes: seq<Outcome>): bool
    requires |outcomes| == |UpdateMembersRequests(groupName, toAdd, toRemove)|
  {
    AllOk(outcomes)
  }

  lemma UpdateMembersRequestsShape(groupName: string, toAdd: Option<seq<int>>, toRemove: Option<seq<int>>)
    ensures var rs := UpdateMembersRequests(groupName, toAdd, toRemove);
      var adds, removes := toAdd.GetOr([]), toRemove.GetOr([]);
      && |rs| == |adds| + |removes|
      && (forall i :: 0 <= i < |adds| ==> rs[i] == GroupRequest(adds[i], groupName))
      && (forall i :: 0 <= i < |removes| ==> rs[|adds| + i] == GroupRequest(removes[i], "todos"))
  {
    ConcatRequests(toAdd.GetOr([]), groupName, toRemove.GetOr([]), "todos");
  }

  /** Two batches sent one after the other: the first one's requests, then the second one's. */
  lemma ConcatRequests(xs: seq<int>, g: string, ys: seq<int>, h: string)
    ensures var rs := Requests(xs, g) + Requests(ys, h);
      && |rs| == |xs| + |ys|
      && (forall i :: 0 <= i < |xs| ==> rs[i] == GroupRequest(xs[i], g))
      && (forall i :: 0 <= i < |ys| ==> rs[|xs| + i] == GroupRequest(ys[i], h))
  {
    var a, b := Requests(xs, g), Requests(ys, h);
    forall i | 0 <= i < |ys| ensures (a + b)[|xs| + i] == GroupRequest(ys[i], h) {
      assert (a + b)[|xs| + i] == b[i];
    }
  }

  /**
   * The corrected result is true iff every add request (the first
   * `|toAdd|` outcomes) and every remove request (the rest) succeeded; it
   * agrees with the code as written whenever both lists are present.
   */
  lemma UpdateGroupMembersIntendedSpec(groupName: string, toAdd: Option<seq<int>>, toRemove: Option<seq<int>>,
                                       outcomes: seq<Outcome>)
    requires |outcomes| == |UpdateMembersRequests(groupName, toAdd, toRemove)|
    ensures var n := |toAdd.GetOr([])|;
      && n <= |outcomes|
      && (UpdateGroupMembersIntended(groupName, toAdd, toRemove, outcomes) <==>
            AllOk(outcomes[..n]) && AllOk(outcomes[n..]))
    ensures toAdd.Some? && toRemove.Some? ==>
      UpdateGroupMembers(groupName, toAdd, toRemove, outcomes) == UpdateGroupMembersIntended(groupName, toAdd, toRemove, outcomes)
  {
    AllOkSplit(outcomes, |toAdd.GetOr([])|);
  }

  /** Every outcome is OK iff every outcome on both sides of a split is. */
  lemma AllOkSplit(outcomes: seq<Outcome>, n: nat)
    requires n <= |outcomes|
    ensures AllOk(outcomes) <==> AllOk(outcomes[..n]) && AllOk(outcomes[n..])
  {
    var pre, suf := outcomes[..n], outcomes[n..];
    if AllOk(pre) && AllOk(suf) {
      forall i | 0 <= i < |outcomes| ensures Ok(outcomes[i]) {
        if i < n {
          assert outcomes[i] == pre[i];
        } else {
          assert outcomes[i] == suf[i - n];
        }
      }
    }
    if AllOk(outcomes) {
      forall i | 0 <= i < |pre| ensures Ok(pre[i]) {
        assert pre[i] == outcomes[i];
      }
      forall i | 0 <= i < |suf| ensures Ok(suf[i]) {
        assert suf[i] == outcomes[n + i];
      }
    }
  }

  /** With a null list of ids to remove, `updateGroupMembers` reports failure although every request succeeded. */
  lemma UpdateGroupMembersNullListFails()
    ensures var outcomes := [Fulfilled(200)];
      && |outcomes| == |UpdateMembersRequests("amigos", Some([7]), None)|
      && AllOk(outcomes)
      && !UpdateGroupMembers("amigos", Some([7]), None, outcomes)
      && UpdateGroupMembersIntended("amigos", Some([7]), None, outcomes)
  {
  }

  /** The contacts `deleteGroup` moves: those whose category equals the group name. */
  function InGroup(cs: seq<Contact>, groupName: string): (r: seq<Contact>)
    ensures forall c :: c in r <==> c in cs && c.category == groupName
  {
    if cs == [] then []
    else (if cs[0].category == groupName then [cs[0]] else []) + InGroup(cs[1..], groupName)
  }

  function Ids(cs: seq<Contact>): (r: seq<int>)
    ensures |r| == |cs| && forall i :: 0 <= i < |cs| ==> r[i] == cs[i].id
  {
    if cs == [] then [] else [cs[0].id] + Ids(cs[1..])
  }

  function DeleteGroupRequests(groupName: string, cs: seq<Contact>): seq<Request> {
    Requests(Ids(InGroup(cs, groupName)), "todos")
  }

  /** The value group-controller's `deleteGroup` resolves to: true without requests when the group is empty. */
  function DeleteGroup(groupName: string, cs: seq<Contact>, outcomes: seq<Outcome>): bool
    requires |outcomes| == |DeleteGroupRequests(groupName, cs)|
  {
    InGroup(cs, groupName) == [] || AllOk(outcomes)
  }

  /** With no contact in the group, `deleteGroup` sends nothing and succeeds. */
  lemma DeleteEmptyGroup(groupName: string, cs: seq<Contact>, outcomes: seq<Outcome>)
    requires |outcomes| == |DeleteGroupRequests(groupName, cs)|
    requires forall c :: c in cs ==> c.category != groupName
    ensures DeleteGroupRequests(groupName, cs) == [] && DeleteGroup(groupName, cs, outcomes)
  {
  }

  /** Each request moves a contact of the group to "todos". */
  lemma DeleteGroupTargets(groupName: string, cs: seq<Contact>)
    ensures var rs := DeleteGroupRequests(groupName, cs);
      forall i :: 0 <= i < |rs| ==>
        rs[i].body.grupo == Some("todos") && exists c :: c in cs && c.category == groupName && rs[i].path == UpdatePath(c.id)
  {
    var g := InGroup(cs, groupName);
    var rs := DeleteGroupRequests(groupName, cs);
    forall i | 0 <= i < |rs|
      ensures rs[i].body.grupo == Some("todos") && exists c :: c in cs && c.category == groupName && rs[i].path == UpdatePath(c.id)
    {
      assert g[i] in g;
      assert rs[i] == GroupRequest(g[i].id, "todos");
    }
  }

  /** With contacts in the group, `deleteGroup` succeeds iff every request does. */
  lemma DeleteNonEmptyGroup(groupName: string, cs: seq<Contact>, outcomes: seq<Outcome>)
    requires |outcomes| == |DeleteGroupRequests(groupName, cs)|
    requires exists c :: c in cs && c.category == groupName
    ensures DeleteGroup(groupName, cs, outcomes) <==> AllOk(outcomes)
  {
    var c :| c in cs && c.category == groupName;
    assert c in InGroup(cs, groupName);
  }
}
