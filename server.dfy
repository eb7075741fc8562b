/**
 * The server's contact handlers (api/routes/routes.js) over the `contatos`
 * table, modelled as a map from id to row and the table's auto-increment
 * counter. SQL itself is not modelled: the `NOW()` reading is a parameter
 * and the database-error answers (500) are left out.
 */
module Server {
  import opened Wrappers
  import opened Text
  import opened Contacts
  import opened Groups

  /** A stored row; `None` is SQL NULL. */
  datatype Row = Row(nome: Option<string>, sobrenome: Option<string>, email: Option<string>,
                     telefone: Option<string>, grupo: Option<string>, imagem: Option<string>,
                     dataCriacao: Option<int>)

  /** The required-field check shared by insert and update. */
  predicate HasRequired(b: ContactBody) {
    Truthy(b.nome) && Truthy(b.email) && Truthy(b.telefone)
  }

  /** The columns insert and update write, with their defaults. */
  function StoredRow(b: ContactBody, created: Option<int>): Row {
    Row(b.nome, Some(Or(b.sobrenome, "")), b.email, b.telefone, Some(Or(b.grupo, "outros")),
        if Truthy(b.imagem) then b.imagem else None, created)
  }

  /**
   * Required fields are stored as sent; a truthy `sobrenome`, `grupo` or `imagem`
   * is stored as sent, and a falsy one becomes "", "outros" or NULL.
   */
  lemma StoredRowDefaults(b: ContactBody, created: Option<int>)
    requires HasRequired(b)
    ensures var r := StoredRow(b, created);
      && r.nome == b.nome && r.email == b.email && r.telefone == b.telefone
      && (Truthy(b.sobrenome) ==> r.sobrenome == b.sobrenome) && (!Truthy(b.sobrenome) ==> r.sobrenome == Some(""))
      && r.grupo.Some? && r.grupo.value != ""
      && (Truthy(b.grupo) ==> r.grupo == b.grupo) && (!Truthy(b.grupo) ==> r.grupo == Some("outros"))
      && (Truthy(b.imagem) ==> r.imagem == b.imagem) && (!Truthy(b.imagem) ==> r.imagem.None?)
      && r.dataCriacao == created
  {
  }

  function InsertStatus(b: ContactBody): int { if HasRequired(b) then 201 else 400 }

  function UpdateStatus(b: ContactBody): int { if HasRequired(b) then 200 else 400 }

  /** A row as the select handler returns it. */
  function AsApiRow(id: int, r: Row): ApiRow {
    ApiRow(id, r.nome, r.sobrenome, r.email, r.telefone, r.grupo, r.imagem, r.dataCriacao)
  }

  /** The distinct non-NULL groups of the table. */
  function GroupNamesOf(rows: map<int, Row>): set<string> {
    set id | id in rows && rows[id].grupo.Some? :: rows[id].grupo.value
  }

  class ContactTable {
    var rows: map<int, Row>
    /** The table's AUTO_INCREMENT counter: the id the next insert gets. */
    var nextId: int

    /** Every stored id was handed out by the counter. */
    predicate Valid()
      reads this
    {
      1 <= nextId && forall id :: id in rows ==> 1 <= id < nextId
    }

    constructor ()
      ensures rows == map[] && nextId == 1 && Valid()
    {
      rows := map[];
      nextId := 1;
    }

    /** POST /api/insert; `now` is the `NOW()` reading. */
    method Insert(b: ContactBody, now: int) returns (status: int)
      requires Valid()
      modifies this
      ensures Valid()
      ensures status == InsertStatus(b)
      ensures HasRequired(b) ==>
        rows == old(rows)[old(nextId) := StoredRow(b, Some(now))] && nextId == old(nextId) + 1
      ensures !HasRequired(b) ==> rows == old(rows) && nextId == old(nextId)
    {
      if !HasRequired(b) {
        return 400;
      }
      rows := rows[nextId := StoredRow(b, Some(now))];
      nextId := nextId + 1;
      status := 201;
    }

    /** PUT /api/update/:id: all six columns are overwritten; a missing id still answers 200. */
    method Update(id: int, b: ContactBody) returns (status: int)
      requires Valid()
      modifies this
      ensures Valid() && nextId == old(nextId)
      ensures status == UpdateStatus(b)
      ensures HasRequired(b) && id in old(rows) ==>
        rows == old(rows)[id := StoredRow(b, old(rows)[id].dataCriacao)]
      ensures !(HasRequired(b) && id in old(rows)) ==> rows == old(rows)
    {
      if !HasRequired(b) {
        return 400;
      }
      if id in rows {
        rows := rows[id := StoredRow(b, rows[id].dataCriacao)];
      }
      status := 200;
    }

    /** DELETE /api/delete/:id: answers 200 whether or not the row existed. */
    method Delete(id: int) returns (status: int)
      requires Valid()
      modifies this
      ensures Valid() && nextId == old(nextId)
      ensures status == 200 && rows == old(rows) - {id}
    {
      rows := rows - {id};
      status := 200;
    }

    /** GET /api/select: every row exactly once, in primary-key order. */
    method Select() returns (status: int, result: seq<ApiRow>)
      requires Valid()
      ensures status == 200
      ensures forall r :: r in result <==> r.id in rows && r == AsApiRow(r.id, rows[r.id])
      ensures forall i, j :: 0 <= i < j < |result| ==> result[i].id < result[j].id
    {
      status := 200;
      result := [];
      var id := 1;
      while id < nextId
        invariant 1 <= id <= nextId
        invariant forall r :: r in result <==> r.id in rows && r.id < id && r == AsApiRow(r.id, rows[r.id])
        invariant forall i :: 0 <= i < |result| ==> result[i].id < id
        invariant forall i, j :: 0 <= i < j < |result| ==> result[i].id < result[j].id
      {
        if id in rows {
          result := result + [AsApiRow(id, rows[id])];
        }
        id := id + 1;
      }
    }

    /** GET /api/groups. */
    function Groups(): set<string>
      reads this
    {
      GroupNamesOf(rows)
    }
  }

  /** A row written by insert or update always lists its group among the table's groups. */
  lemma GroupListedAfterWrite(rows: map<int, Row>, id: int, b: ContactBody, created: Option<int>)
    ensures Or(b.grupo, "outros") in GroupNamesOf(rows[id := StoredRow(b, created)])
    ensures forall g :: g in GroupNamesOf(rows) - GroupNamesOf(rows[id := StoredRow(b, created)]) ==>
      id in rows && rows[id].grupo == Some(g)
  {
    var after := rows[id := StoredRow(b, created)];
    assert after[id].grupo.value == Or(b.grupo, "outros");
    forall k | k in rows && k != id && rows[k].grupo.Some? ensures rows[k].grupo.value in GroupNamesOf(after) {
      assert after[k] == rows[k];
    }
    forall g | g in GroupNamesOf(rows) - GroupNamesOf(after) ensures id in rows && rows[id].grupo == Some(g) {
      var k :| k in rows && rows[k].grupo.Some? && rows[k].grupo.value == g;
    }
  }

  /** How the server answers each request of a batch. */
  function ServerOutcomes(rs: seq<Request>): (r: seq<Outcome>)
    ensures |r| == |rs| && forall i :: 0 <= i < |rs| ==> r[i] == Fulfilled(UpdateStatus(rs[i].body))
  {
    if rs == [] then [] else [Fulfilled(UpdateStatus(rs[0].body))] + ServerOutcomes(rs[1..])
  }

  /** A body carrying only `grupo` fails the required-field check. */
  lemma GroupRequestRejected(id: int, grupo: string)
    ensures UpdateStatus(GroupRequest(id, grupo).body) == 400
  {
  }

  /**
   * Against this server the group batches of group-controller.js never
   * succeed once they send anything: each body lacks nome, email and
   * telefone, so each PUT answers 400.
   */
  lemma GroupBatchesFail(groupName: Option<string>, contactIds: Option<seq<int>>, name: string,
                         toAdd: Option<seq<int>>, toRemove: Option<seq<int>>, cs: seq<Contact>)
    ensures CreateGroupValid(groupName, contactIds) ==>
      !CreateGroup(groupName, contactIds, ServerOutcomes(CreateGroupRequests(groupName, contactIds)))
    ensures UpdateMembersRequests(name, toAdd, toRemove) != [] ==>
      !UpdateGroupMembersIntended(name, toAdd, toRemove, ServerOutcomes(UpdateMembersRequests(name, toAdd, toRemove)))
    ensures InGroup(cs, name) != [] ==>
      !DeleteGroup(name, cs, ServerOutcomes(DeleteGroupRequests(name, cs)))
  {
    if CreateGroupValid(groupName, contactIds) {
      var rs := CreateGroupRequests(groupName, contactIds);
      assert rs[0] == GroupRequest(contactIds.value[0], groupName.value);
      assert !Ok(ServerOutcomes(rs)[0]);
    }
    UpdateMembersRequestsShape(name, toAdd, toRemove);
    var us := UpdateMembersRequests(name, toAdd, toRemove);
    if us != [] {
      var adds := toAdd.GetOr([]);
      if |adds| > 0 {
        assert us[0] == GroupRequest(adds[0], name);
      } else {
        assert us[0] == GroupRequest(toRemove.value[0], "todos");
      }
      assert !Ok(ServerOutcomes(us)[0]);
    }
    if InGroup(cs, name) != [] {
      var ds := DeleteGroupRequests(name, cs);
      assert ds[0] == GroupRequest(Ids(InGroup(cs, name))[0], "todos");
      assert !Ok(ServerOutcomes(ds)[0]);
    }
  }

  /** The modular create sends `email: ""` for a contact without e-mail, which the insert refuses. */
  lemma ModularCreateNeedsEmail(c: Contact)
    ensures !Truthy(c.email) ==> InsertStatus(CreateBody(Modular, c)) == 400
    ensures CreateAllowed(Modular, c) && Truthy(c.email) ==> InsertStatus(CreateBody(Modular, c)) == 201
  {
  }

  /**
   * A contact created by the legacy page and read back by it keeps its name,
   * phone, e-mail, category and avatar (an empty category reads back as
   * "outros", an empty avatar as the default one) and gets the insert time.
   */
  lemma LegacyCreateRoundTrip(c: Contact, id: int, now: int, later: int)
    requires HasRequired(CreateBody(Legacy, c))
    ensures var back := LegacyMapRow(AsApiRow(id, StoredRow(CreateBody(Legacy, c), Some(now))), later);
      && back.id == id && back.name == c.name && back.phone == c.phone && back.email == c.email
      && back.category == (if c.category != "" then c.category else "outros")
      && back.avatar == (if c.avatar != "" then c.avatar else DefaultAvatar(Legacy))
      && back.date == now
  {
  }

  /**
   * A contact created by the modular page reads back with its name, phone,
   * e-mail and category, but always with the default avatar: the create
   * body carries no `imagem`.
   */
  lemma ModularCreateRoundTrip(c: Contact, id: int, now: int, later: int)
    requires HasRequired(CreateBody(Modular, c))
    ensures var back := MapRow(AsApiRow(id, StoredRow(CreateBody(Modular, c), Some(now))), later);
      && back.id == id && back.name == c.name && back.phone == c.phone && back.email == c.email
      && back.category == (if c.category != "" then c.category else "todos")
      && back.avatar == DefaultAvatar(Modular)
      && back.date == now
  {
  }
}
