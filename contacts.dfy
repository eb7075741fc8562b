/**
 * The contact records of the front ends and the pure steps of the contact
 * view: mapping server rows to client records, the search/category filter, and
 * sorting by the chosen key.
 *
 * Two front ends share this logic with small differences: the modular one
 * under view/script (sentinel group "todos", local default avatar, falsy text
 * fields replaced by "") and the older single-file js/scripthome.js (sentinel
 * group 'outros', remote default avatar, text fields copied as they come, so
 * they may be null). `Variant` selects between them.
 */
module Contacts {
  import opened Wrappers
  import opened Text

  datatype Variant = Modular | Legacy

  /** The group a contact falls back to when it has none. */
  function Sentinel(v: Variant): string {
    match v
    case Modular => "todos"
    case Legacy => "outros"
  }

  /** The image a contact without one gets: a local file, or a remote one on the legacy page. */
  function DefaultAvatar(v: Variant): string {
    match v
    case Modular => LocalIcon
    case Legacy => RemoteIcon
  }

  const LocalIcon: string := "../img/iconContact.png"
  const RemoteIcon: string := "https://hebbkx1anhila5yf.public.blob.vercel-storage.com/iconContact-EjbTyLvYNWCnsYPredBV9eV4PVozhW.png"

  /** A row of the `contatos` table as the server returns it; `None` is SQL NULL. */
  datatype ApiRow = ApiRow(
    id: int,
    nome: Option<string>,
    sobrenome: Option<string>,
    email: Option<string>,
    telefone: Option<string>,
    grupo: Option<string>,
    imagem: Option<string>,
    dataCriacao: Option<int>)

  /**
   * A client-side contact. Text fields are optional because the legacy front
   * end copies them without defaults (JSON null); `sobrenome` is absent there.
   * `date` is a timestamp in milliseconds.
   */
  datatype Contact = Contact(
    id: int,
    name: Option<string>,
    sobrenome: Option<string>,
    phone: Option<string>,
    email: Option<string>,
    avatar: string,
    category: string,
    date: int)

  /** A group of the navigation tabs; groups derived from contacts carry no colour. */
  datatype Group = Group(id: string, name: string, color: Option<string>)

  /** A JSON request body; `None` is a field that is absent or null. */
  datatype ContactBody = ContactBody(
    nome: Option<string>,
    sobrenome: Option<string>,
    email: Option<string>,
    telefone: Option<string>,
    grupo: Option<string>,
    imagem: Option<string>)

  /** JavaScript truthiness of an optional string: present and not "". */
  predicate Truthy(o: Option<string>) { o.Some? && o.value != "" }

  /** `o || d` for an optional string. */
  function Or(o: Option<string>, d: string): (r: string)
    ensures Truthy(o) ==> r == o.value
    ensures !Truthy(o) ==> r == d
  {
    if Truthy(o) then o.value else d
  }

  // ----- endpoints -----

  /** The path each front end reads the contact list from. */
  function SelectPath(v: Variant): string {
    match v
    case Modular => "/api/contatos"
    case Legacy => "/api/select"
  }

  const InsertPath: string := "/api/insert"

  function UpdatePath(id: int): string { "/api/update/" + IntToString(id) }

  function DeletePath(id: int): string { "/api/delete/" + IntToString(id) }

  /** Distinct contact ids give distinct update and delete paths. */
  lemma PathsInjective(a: int, b: int)
    ensures UpdatePath(a) == UpdatePath(b) ==> a == b
    ensures DeletePath(a) == DeletePath(b) ==> a == b
  {
    IntToStringInjective(a, b);
    if UpdatePath(a) == UpdatePath(b) {
      assert IntToString(a) == UpdatePath(a)[12..];
      assert IntToString(b) == UpdatePath(b)[12..];
    }
    if DeletePath(a) == DeletePath(b) {
      assert IntToString(a) == DeletePath(a)[12..];
      assert IntToString(b) == DeletePath(b)[12..];
    }
  }

  // ----- row mapping (fetchContacts) -----

  /** A missing creation date is replaced by the current time `now`. */
  function DateOr(d: Option<int>, now: int): int {
    if d.Some? then d.value else now
  }

  /** The modular mapping: every falsy field gets its default. */
  function MapRow(row: ApiRow, now: int): Contact {
    Contact(row.id,
      Some(Or(row.nome, "")), Some(Or(row.sobrenome, "")), Some(Or(row.telefone, "")),
      Some(Or(row.email, "")), Or(row.imagem, DefaultAvatar(Modular)),
      Or(row.grupo, "todos"), DateOr(row.dataCriacao, now))
  }

  /** The legacy mapping: name, phone and e-mail copied as they are; no `sobrenome`. */
  function LegacyMapRow(row: ApiRow, now: int): Contact {
    Contact(row.id, row.nome, None, row.telefone, row.email,
      Or(row.imagem, DefaultAvatar(Legacy)), Or(row.grupo, "outros"), DateOr(row.dataCriacao, now))
  }

  function MapRowFor(v: Variant, row: ApiRow, now: int): Contact {
    match v
    case Modular => MapRow(row, now)
    case Legacy => LegacyMapRow(row, now)
  }

  /** `data.map(...)` over the response rows. */
  function MapRows(v: Variant, rows: seq<ApiRow>, now: int): (r: seq<Contact>)
    ensures |r| == |rows|
    ensures forall i :: 0 <= i < |rows| ==> r[i] == MapRowFor(v, rows[i], now)
  {
    if rows == [] then [] else [MapRowFor(v, rows[0], now)] + MapRows(v, rows[1..], now)
  }

  /**
   * What the mapping guarantees about a record: the id is kept, the category
   * and avatar are never empty (a falsy `grupo` or `imagem` becomes the
   * variant's default), a truthy field is kept as it is; in the modular
   * variant no text field is null and a falsy one becomes "", while the legacy
   * variant copies name, phone and e-mail unchanged.
   */
  lemma MapRowFields(v: Variant, row: ApiRow, now: int)
    ensures var c := MapRowFor(v, row, now);
      && c.id == row.id
      && c.category != "" && c.avatar != ""
      && (Truthy(row.grupo) ==> c.category == row.grupo.value)
      && (!Truthy(row.grupo) ==> c.category == Sentinel(v))
      && (!Truthy(row.imagem) ==> c.avatar == DefaultAvatar(v))
      && (Truthy(row.nome) ==> c.name == row.nome)
      && (Truthy(row.telefone) ==> c.phone == row.telefone)
      && (row.dataCriacao.Some? ==> c.date == row.dataCriacao.value)
  {
  }

  lemma ModularRowHasNoNulls(row: ApiRow, now: int)
    ensures var c := MapRow(row, now);
      && NoNulls(c) && c.sobrenome.Some?
      && (!Truthy(row.nome) ==> c.name == Some(""))
      && (!Truthy(row.telefone) ==> c.phone == Some(""))
  {
  }

  lemma LegacyRowCopiesFields(row: ApiRow, now: int)
    ensures var c := LegacyMapRow(row, now);
      c.name == row.nome && c.phone == row.telefone && c.email == row.email && c.sobrenome.None?
  {
  }

  // ----- filter (renderContacts / generateContacts) -----

  predicate MatchesCategory(c: Contact, category: string) {
    category == "todos" || c.category == category
  }

  /** The modular search test: each field is tested only when it is truthy. */
  predicate MatchesSearch(c: Contact, term: string) {
    || term == ""
    || (Truthy(c.name) && Contains(Lower(c.name.value), Lower(term)))
    || (Truthy(c.phone) && Contains(c.phone.value, term))
  }

  predicate Matches(c: Contact, category: string, term: string) {
    MatchesCategory(c, category) && MatchesSearch(c, term)
  }

  /** `contacts.filter(...)` in the modular front end. */
  function FilterContacts(cs: seq<Contact>, category: string, term: string): (r: seq<Contact>)
    ensures forall x :: x in r <==> x in cs && Matches(x, category, term)
    ensures |r| <= |cs|
  {
    if cs == [] then []
    else (if Matches(cs[0], category, term) then [cs[0]] else []) + FilterContacts(cs[1..], category, term)
  }

  /** `a` is `b` with some elements left out, the rest in the same order. */
  predicate Subsequence<T(==)>(a: seq<T>, b: seq<T>) {
    a == [] || (b != [] && ((a[0] == b[0] && Subsequence(a[1..], b[1..])) || Subsequence(a, b[1..])))
  }

  /** The filter keeps the contacts in their original order. */
  lemma {:induction false} FilterIsSubsequence(cs: seq<Contact>, category: string, term: string)
    ensures Subsequence(FilterContacts(cs, category, term), cs)
  {
    if cs != [] {
      FilterIsSubsequence(cs[1..], category, term);
      var r := FilterContacts(cs, category, term);
      if Matches(cs[0], category, term) {
        assert r[0] == cs[0] && r[1..] == FilterContacts(cs[1..], category, term);
      } else {
        assert r == FilterContacts(cs[1..], category, term);
        if r != [] {
          assert Subsequence(r, cs[1..]);
        }
      }
    }
  }

  /** Category "todos" with an empty search keeps every contact. */
  lemma {:induction false} FilterAllKeepsEverything(cs: seq<Contact>)
    ensures FilterContacts(cs, "todos", "") == cs
  {
    if cs != [] {
      FilterAllKeepsEverything(cs[1..]);
    }
  }

  /** Filtering a filtered list again changes nothing. */
  lemma {:induction false} FilterIdempotent(cs: seq<Contact>, category: string, term: string)
    ensures FilterContacts(FilterContacts(cs, category, term), category, term)
         == FilterContacts(cs, category, term)
  {
    if cs != [] {
      FilterIdempotent(cs[1..], category, term);
      var rest := FilterContacts(cs[1..], category, term);
      if Matches(cs[0], category, term) {
        assert FilterContacts(cs, category, term) == [cs[0]] + rest;
        assert ([cs[0]] + rest)[1..] == rest;
        assert FilterContacts([cs[0]] + rest, category, term) == [cs[0]] + FilterContacts(rest, category, term);
      } else {
        assert FilterContacts(cs, category, term) == rest;
      }
    }
  }

  /** Every text field the filters read is present. */
  predicate NoNulls(c: Contact) {
    c.name.Some? && c.phone.Some? && c.email.Some?
  }

  /**
   * The legacy test, in the order the source evaluates it: `contact.name` is
   * lower-cased without a check and `contact.phone` is read when the name does
   * not match; `None` is the TypeError a null field raises.
   */
  function LegacyMatches(c: Contact, category: string, term: string): Option<bool> {
    var cat := category == "todos" || c.category == category;
    if term == "" then Some(cat)
    else if c.name.None? then None
    else if Contains(Lower(c.name.value), Lower(term)) then Some(cat)
    else if c.phone.None? then None
    else Some(cat && Contains(c.phone.value, term))
  }

  /** `contacts.filter(...)` in js/scripthome.js; `None` when some test throws. */
  function LegacyFilter(cs: seq<Contact>, category: string, term: string): Option<seq<Contact>> {
    if cs == [] then Some([])
    else match LegacyMatches(cs[0], category, term)
      case None => None
      case Some(keep) =>
        match LegacyFilter(cs[1..], category, term)
        case None => None
        case Some(rest) => Some((if keep then [cs[0]] else []) + rest)
  }

  lemma NoMatchInEmpty(sub: string)
    requires sub != []
    ensures !Contains([], sub)
  {
  }

  /**
   * On contacts whose name and phone are present the legacy filter does not
   * throw and keeps exactly what the modular filter keeps.
   */
  lemma {:induction false} LegacyFilterAgrees(cs: seq<Contact>, category: string, term: string)
    requires forall c :: c in cs ==> NoNulls(c)
    ensures LegacyFilter(cs, category, term) == Some(FilterContacts(cs, category, term))
  {
    if cs != [] {
      LegacyFilterAgrees(cs[1..], category, term);
      var c := cs[0];
      assert NoNulls(c);
      if term != "" {
        assert Lower(term) != [];
        NoMatchInEmpty(Lower(term));
        NoMatchInEmpty(term);
        assert c.name.value == [] ==> Lower(c.name.value) == [];
      }
    }
  }

  /** The legacy filter throws exactly when the search is non-empty and some test reads a null field. */
  lemma {:induction false} LegacyFilterThrows(cs: seq<Contact>, category: string, term: string)
    ensures LegacyFilter(cs, category, term).None? <==>
      exists c :: c in cs && LegacyMatches(c, category, term).None?
  {
    if cs != [] {
      LegacyFilterThrows(cs[1..], category, term);
      if LegacyMatches(cs[0], category, term).Some? {
        forall c | c in cs && LegacyMatches(c, category, term).None? ensures c in cs[1..] {
          assert c != cs[0];
        }
      }
    }
  }

  /** With an empty search the legacy filter never throws. */
  lemma EmptySearchNeverThrows(cs: seq<Contact>, category: string)
    ensures LegacyFilter(cs, category, "").Some?
  {
    LegacyFilterThrows(cs, category, "");
  }

  // ----- sortContacts -----

  /**
   * Code-point lexicographic order on strings, standing for `localeCompare`
   * (which the model leaves out).
   */
  predicate StrLe(a: string, b: string) {
    a == [] || (b != [] && (a[0] < b[0] || (a[0] == b[0] && StrLe(a[1..], b[1..]))))
  }

  lemma {:induction false} StrLeTotal(a: string, b: string)
    ensures StrLe(a, b) || StrLe(b, a)
  {
    if a != [] && b != [] && a[0] == b[0] {
      StrLeTotal(a[1..], b[1..]);
    }
  }

  lemma {:induction false} StrLeTrans(a: string, b: string, c: string)
    requires StrLe(a, b) && StrLe(b, c)
    ensures StrLe(a, c)
  {
    if a != [] && a[0] == b[0] && b[0] == c[0] {
      StrLeTrans(a[1..], b[1..], c[1..]);
    }
  }

  lemma {:induction false} StrLeAntisymmetric(a: string, b: string)
    requires StrLe(a, b) && StrLe(b, a)
    ensures a == b
  {
    if a != [] {
      StrLeAntisymmetric(a[1..], b[1..]);
      assert a == [a[0]] + a[1..] && b == [b[0]] + b[1..];
    }
  }

  datatype SortOrder = ByName | ByNameDesc | Recent

  /** The `switch` on the sort key: "name" and unknown keys sort by name. */
  function SortOrderOf(key: string): SortOrder {
    if key == "name-desc" then ByNameDesc
    else if key == "recent" then Recent
    else ByName
  }

  function NameKey(c: Contact): string { c.name.GetOr("") }

  /** `a` may come before `b`: the comparator of the order is not positive. */
  predicate Precedes(o: SortOrder, a: Contact, b: Contact) {
    match o
    case ByName => StrLe(NameKey(a), NameKey(b))
    case ByNameDesc => StrLe(NameKey(b), NameKey(a))
    case Recent => a.date >= b.date
  }

  /** Equal under the comparator (it returns 0). */
  predicate Tied(o: SortOrder, a: Contact, b: Contact) {
    Precedes(o, a, b) && Precedes(o, b, a)
  }

  lemma PrecedesTotal(o: SortOrder, a: Contact, b: Contact)
    ensures Precedes(o, a, b) || Precedes(o, b, a)
  {
    StrLeTotal(NameKey(a), NameKey(b));
  }

  lemma PrecedesTrans(o: SortOrder, a: Contact, b: Contact, c: Contact)
    requires Precedes(o, a, b) && Precedes(o, b, c)
    ensures Precedes(o, a, c)
  {
    match o
    case ByName => StrLeTrans(NameKey(a), NameKey(b), NameKey(c));
    case ByNameDesc => StrLeTrans(NameKey(c), NameKey(b), NameKey(a));
    case Recent =>
  }

  /** Ties are contacts with the same name (by name) or the same date (recent). */
  lemma TiedMeansSameKey(o: SortOrder, a: Contact, b: Contact)
    ensures Tied(o, a, b) <==> if o == Recent then a.date == b.date else NameKey(a) == NameKey(b)
  {
    if Tied(o, a, b) && o != Recent {
      StrLeAntisymmetric(NameKey(a), NameKey(b));
    }
    if o != Recent && NameKey(a) == NameKey(b) {
      StrLeTotal(NameKey(a), NameKey(b));
    }
  }

  predicate Sorted(o: SortOrder, s: seq<Contact>) {
    forall i, j :: 0 <= i < j < |s| ==> Precedes(o, s[i], s[j])
  }

  /** Places `x` before the first element it may precede. */
  function Insert(o: SortOrder, x: Contact, ys: seq<Contact>): seq<Contact> {
    if ys == [] || Precedes(o, x, ys[0]) then [x] + ys
    else [ys[0]] + Insert(o, x, ys[1..])
  }

  /** A stable sort, as `Array.prototype.sort` is. */
  function SortBy(o: SortOrder, xs: seq<Contact>): seq<Contact> {
    if xs == [] then [] else Insert(o, xs[0], SortBy(o, xs[1..]))
  }

  /** `sortContacts(contacts, sortType)`: sorts a copy; the argument is a value here. */
  function SortContacts(contacts: seq<Contact>, sortKey: string): seq<Contact> {
    SortBy(SortOrderOf(sortKey), contacts)
  }

  lemma {:induction false} InsertPermutes(o: SortOrder, x: Contact, ys: seq<Contact>)
    ensures multiset(Insert(o, x, ys)) == multiset{x} + multiset(ys)
  {
    if ys != [] && !Precedes(o, x, ys[0]) {
      InsertPermutes(o, x, ys[1..]);
      assert ys == [ys[0]] + ys[1..];
    }
  }

  lemma {:induction false} InsertSorted(o: SortOrder, x: Contact, ys: seq<Contact>)
    requires Sorted(o, ys)
    ensures Sorted(o, Insert(o, x, ys))
  {
    if ys == [] {
    } else if Precedes(o, x, ys[0]) {
      forall y | y in ys ensures Precedes(o, x, y) {
        var k :| 0 <= k < |ys| && ys[k] == y;
        if k > 0 {
          PrecedesTrans(o, x, ys[0], y);
        }
      }
      ConsSorted(o, x, ys);
    } else {
      var t := ys[1..];
      assert Sorted(o, t) by {
        forall i, j | 0 <= i < j < |t| ensures Precedes(o, t[i], t[j]) {
          assert t[i] == ys[i + 1] && t[j] == ys[j + 1];
        }
      }
      InsertSorted(o, x, t);
      InsertPermutes(o, x, t);
      var tail := Insert(o, x, t);
      PrecedesTotal(o, x, ys[0]);
      forall y | y in tail ensures Precedes(o, ys[0], y) {
        assert y in multiset(tail);
        if y != x {
          assert y in multiset(t);
          var k :| 0 <= k < |t| && t[k] == y;
          assert ys[k + 1] == y;
        }
      }
      ConsSorted(o, ys[0], tail);
    }
  }

  /** A head that may precede every element of a sorted tail keeps the sequence sorted. */
  lemma ConsSorted(o: SortOrder, h: Contact, t: seq<Contact>)
    requires Sorted(o, t) && forall y :: y in t ==> Precedes(o, h, y)
    ensures Sorted(o, [h] + t)
  {
    var r := [h] + t;
    forall i, j | 0 <= i < j < |r| ensures Precedes(o, r[i], r[j]) {
      assert r[j] == t[j - 1];
      if i > 0 {
        assert r[i] == t[i - 1];
      }
    }
  }

  /** The elements of `s` tied with `c`, in order. */
  function TiedWith(o: SortOrder, c: Contact, s: seq<Contact>): seq<Contact> {
    if s == [] then [] else (if Tied(o, s[0], c) then [s[0]] else []) + TiedWith(o, c, s[1..])
  }

  lemma {:induction false} InsertStable(o: SortOrder, c: Contact, x: Contact, ys: seq<Contact>)
    ensures TiedWith(o, c, Insert(o, x, ys)) == (if Tied(o, x, c) then [x] else []) + TiedWith(o, c, ys)
  {
    if ys != [] && !Precedes(o, x, ys[0]) {
      InsertStable(o, c, x, ys[1..]);
      if Tied(o, x, c) && Tied(o, ys[0], c) {
        PrecedesTrans(o, x, c, ys[0]);
      }
      var tail := Insert(o, x, ys[1..]);
      assert Insert(o, x, ys) == [ys[0]] + tail;
      assert ([ys[0]] + tail)[1..] == tail;
    }
  }

  /**
   * `sortContacts` returns a permutation of its argument, ordered by the key,
   * and contacts the comparator ties keep their relative order.
   */
  lemma {:induction false} SortContactsCorrect(o: SortOrder, xs: seq<Contact>)
    ensures multiset(SortBy(o, xs)) == multiset(xs)
    ensures Sorted(o, SortBy(o, xs))
    ensures forall c :: TiedWith(o, c, SortBy(o, xs)) == TiedWith(o, c, xs)
  {
    if xs != [] {
      SortContactsCorrect(o, xs[1..]);
      InsertPermutes(o, xs[0], SortBy(o, xs[1..]));
      InsertSorted(o, xs[0], SortBy(o, xs[1..]));
      assert xs == [xs[0]] + xs[1..];
      forall c ensures TiedWith(o, c, SortBy(o, xs)) == TiedWith(o, c, xs) {
        InsertStable(o, c, xs[0], SortBy(o, xs[1..]));
      }
    }
  }

  /** The rendered list: the filtered contacts in the chosen order. */
  function Visible(cs: seq<Contact>, category: string, term: string, sortKey: string): seq<Contact> {
    SortContacts(FilterContacts(cs, category, term), sortKey)
  }

  /** A contact is shown iff it passes the filter, as often as it occurs in the list. */
  lemma VisibleContents(cs: seq<Contact>, category: string, term: string, sortKey: string)
    ensures forall x :: x in Visible(cs, category, term, sortKey) <==> x in cs && Matches(x, category, term)
  {
    SortContactsCorrect(SortOrderOf(sortKey), FilterContacts(cs, category, term));
    var f := FilterContacts(cs, category, term);
    forall x ensures x in Visible(cs, category, term, sortKey) <==> x in f {
      assert x in multiset(Visible(cs, category, term, sortKey)) <==> x in multiset(f);
    }
  }

  // ----- request bodies (createContact / updateContact) -----

  /**
   * The POST body: the modular front end defaults `sobrenome` and `email` to
   * "" and `grupo` to "todos" and sends no image; the legacy one sends its
   * fields as they are, image included, and no `sobrenome`.
   */
  function CreateBody(v: Variant, c: Contact): ContactBody {
    match v
    case Modular =>
      ContactBody(c.name, Some(Or(c.sobrenome, "")), Some(Or(c.email, "")), c.phone,
                  Some(Or(Some(c.category), "todos")), None)
    case Legacy => ContactBody(c.name, None, c.email, c.phone, Some(c.category), Some(c.avatar))
  }

  /** The PUT body: the modular front end also sends the image and keeps `sobrenome` as it is. */
  function UpdateBody(v: Variant, c: Contact): ContactBody {
    match v
    case Modular => ContactBody(c.name, c.sobrenome, Some(Or(c.email, "")), c.phone, Some(c.category), Some(c.avatar))
    case Legacy => ContactBody(c.name, None, c.email, c.phone, Some(c.category), Some(c.avatar))
  }

  /** The modular `createContact` refuses a contact without a name or phone before any request. */
  predicate CreateAllowed(v: Variant, c: Contact) {
    v == Legacy || (Truthy(c.name) && Truthy(c.phone))
  }

  /** What each body carries, field by field. */
  lemma BodiesFields(v: Variant, c: Contact)
    ensures CreateBody(v, c).nome == c.name && UpdateBody(v, c).nome == c.name
    ensures CreateBody(v, c).telefone == c.phone && UpdateBody(v, c).telefone == c.phone
    ensures UpdateBody(v, c).imagem == Some(c.avatar)
    ensures v == Modular ==> (
      && CreateBody(v, c).imagem.None?
      && (Truthy(c.email) ==> CreateBody(v, c).email == c.email && UpdateBody(v, c).email == c.email)
      && (!Truthy(c.email) ==> CreateBody(v, c).email == Some("") && UpdateBody(v, c).email == Some(""))
      && (Truthy(c.sobrenome) ==> CreateBody(v, c).sobrenome == c.sobrenome)
      && (!Truthy(c.sobrenome) ==> CreateBody(v, c).sobrenome == Some(""))
      && UpdateBody(v, c).sobrenome == c.sobrenome
      && (c.category != "" ==> CreateBody(v, c).grupo == Some(c.category))
      && (c.category == "" ==> CreateBody(v, c).grupo == Some("todos"))
      && UpdateBody(v, c).grupo == Some(c.category))
    ensures v == Legacy ==> (
      && CreateBody(v, c) == UpdateBody(v, c)
      && CreateBody(v, c).email == c.email && CreateBody(v, c).sobrenome.None?
      && CreateBody(v, c).grupo == Some(c.category) && CreateBody(v, c).imagem == Some(c.avatar))
  {
  }
}
