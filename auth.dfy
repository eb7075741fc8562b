/**
 * The browser-side user store: the `usuarios` list and the `usuarioLogado`
 * record kept in local storage, and the registration, login and profile
 * operations over them (auth-controller.js, login.js, cadastroelogin.js,
 * user-profile.js). Storage is modelled as two fields; JSON encoding is not
 * modelled.
 */
module Auth {
  import opened Wrappers
  import opened Validation

  /** A stored user; `avatar` and `role` are absent in records made by the legacy page. */
  datatype User = User(nome: string, email: string, telefone: string, senha: string,
                       avatar: Option<string>, role: Option<string>)

  /** The object spread over a stored user by `atualizarUsuario`; a `None` field is a missing key. */
  datatype UserPatch = UserPatch(nome: Option<string>, email: string, telefone: Option<string>,
                                 senha: Option<string>, avatar: Option<string>, role: Option<string>)

  /** Which copy of `salvarUsuario` made the record. */
  datatype Registry = WithDefaults | Bare

  const DefaultAvatar: string := "../img/iconContact.png"
  const DefaultRole: string := "Usuário"

  predicate EmailTaken(us: seq<User>, email: string) {
    exists i :: 0 <= i < |us| && us[i].email == email
  }

  predicate UniqueEmails(us: seq<User>) {
    forall i, j :: 0 <= i < j < |us| ==> us[i].email != us[j].email
  }

  predicate Credentials(u: User, email: string, senha: string) {
    u.email == email && u.senha == senha
  }

  function NewUser(kind: Registry, nome: string, email: string, telefone: string, senha: string): User {
    match kind
    case WithDefaults => User(nome, email, telefone, senha, Some(DefaultAvatar), Some(DefaultRole))
    case Bare => User(nome, email, telefone, senha, None, None)
  }

  /** `salvarUsuario`: `None` when the email is already registered. */
  function Register(kind: Registry, us: seq<User>, nome: string, email: string, telefone: string, senha: string)
    : (r: Option<seq<User>>)
  {
    if EmailTaken(us, email) then None else Some(us + [NewUser(kind, nome, email, telefone, senha)])
  }

  /** A duplicate is refused, anything else appends exactly one record, and emails stay unique. */
  lemma RegisterBehaviour(kind: Registry, us: seq<User>, nome: string, email: string, telefone: string, senha: string)
    requires UniqueEmails(us)
    ensures Register(kind, us, nome, email, telefone, senha).None? <==> EmailTaken(us, email)
    ensures Register(kind, us, nome, email, telefone, senha).Some? ==>
      var r := Register(kind, us, nome, email, telefone, senha).value;
      && |r| == |us| + 1 && r[..|us|] == us
      && r[|us|].email == email && r[|us|].senha == senha
      && UniqueEmails(r)
    ensures kind == WithDefaults && Register(kind, us, nome, email, telefone, senha).Some? ==>
      Register(kind, us, nome, email, telefone, senha).value[|us|].avatar == Some(DefaultAvatar)
      && Register(kind, us, nome, email, telefone, senha).value[|us|].role == Some(DefaultRole)
  {
    if !EmailTaken(us, email) {
      var r := us + [NewUser(kind, nome, email, telefone, senha)];
      assert r[..|us|] == us;
      forall i, j | 0 <= i < j < |r| ensures r[i].email != r[j].email {
        if j == |us| {
          assert r[i] == us[i];
        } else {
          assert r[i] == us[i] && r[j] == us[j];
        }
      }
    }
  }

  /** The first index whose record has this email, or `|us|` (findIndex's -1). */
  function EmailIndex(us: seq<User>, email: string): (r: nat)
    ensures r <= |us|
    ensures r < |us| ==> us[r].email == email
    ensures forall k :: 0 <= k < r ==> us[k].email != email
  {
    FindIndex(us, (u: User) => u.email == email)
  }

  /** The first index whose record matches email and password, or `|us|`. */
  function CredentialIndex(us: seq<User>, email: string, senha: string): (r: nat)
    ensures r <= |us|
    ensures r < |us| ==> Credentials(us[r], email, senha)
    ensures forall k :: 0 <= k < r ==> !Credentials(us[k], email, senha)
  {
    FindIndex(us, (u: User) => Credentials(u, email, senha))
  }

  /** `verificarLogin`: the first user with this email and password. */
  function FindLogin(us: seq<User>, email: string, senha: string): Option<User> {
    var i := CredentialIndex(us, email, senha);
    if i < |us| then Some(us[i]) else None
  }

  lemma FindLoginSpec(us: seq<User>, email: string, senha: string)
    ensures FindLogin(us, email, senha).None? <==> forall u :: u in us ==> !Credentials(u, email, senha)
    ensures FindLogin(us, email, senha).Some? ==>
      exists i :: 0 <= i < |us| && us[i] == FindLogin(us, email, senha).value
        && Credentials(us[i], email, senha)
        && forall k :: 0 <= k < i ==> !Credentials(us[k], email, senha)
  {
    var i := CredentialIndex(us, email, senha);
    if i == |us| {
      forall u | u in us ensures !Credentials(u, email, senha) {
        var k :| 0 <= k < |us| && us[k] == u;
      }
    }
  }

  /** `{ ...u, ...p }`: every key present in the patch wins. */
  function Merge(u: User, p: UserPatch): User {
    User(p.nome.GetOr(u.nome), p.email, p.telefone.GetOr(u.telefone), p.senha.GetOr(u.senha),
         if p.avatar.Some? then p.avatar else u.avatar,
         if p.role.Some? then p.role else u.role)
  }

  /** `atualizarUsuario` on the list: `None` when no user has the patch's email. */
  function UpdateUser(us: seq<User>, p: UserPatch): Option<seq<User>> {
    var i := EmailIndex(us, p.email);
    if i == |us| then None else Some(us[i := Merge(us[i], p)])
  }

  /** An unknown email changes nothing; otherwise only the found entry is replaced by the merge. */
  lemma UpdateUserSpec(us: seq<User>, p: UserPatch)
    requires UniqueEmails(us)
    ensures UpdateUser(us, p).None? <==> !EmailTaken(us, p.email)
    ensures UpdateUser(us, p).Some? ==>
      var r := UpdateUser(us, p).value;
      && |r| == |us|
      && (forall k :: 0 <= k < |us| && us[k].email != p.email ==> r[k] == us[k])
      && (forall k :: 0 <= k < |us| && us[k].email == p.email ==> r[k] == Merge(us[k], p))
      && UniqueEmails(r)
  {
    var i := EmailIndex(us, p.email);
    if i < |us| {
      var r := us[i := Merge(us[i], p)];
      forall k | 0 <= k < |us| && us[k].email == p.email ensures r[k] == Merge(us[k], p) {
        assert k == i;
      }
      forall a, b | 0 <= a < b < |r| ensures r[a].email != r[b].email {
        assert r[a].email == us[a].email && r[b].email == us[b].email;
      }
    }
  }

  /** `alterarSenha` on the list: `None` when no user matches email and current password. */
  function ChangePassword(us: seq<User>, email: string, senhaAtual: string, novaSenha: string): Option<seq<User>> {
    var i := CredentialIndex(us, email, senhaAtual);
    if i == |us| then None else Some(us[i := us[i].(senha := novaSenha)])
  }

  lemma ChangePasswordSpec(us: seq<User>, email: string, senhaAtual: string, novaSenha: string)
    requires UniqueEmails(us)
    ensures ChangePassword(us, email, senhaAtual, novaSenha).None? <==>
      forall u :: u in us ==> !Credentials(u, email, senhaAtual)
    ensures ChangePassword(us, email, senhaAtual, novaSenha).Some? ==>
      var r := ChangePassword(us, email, senhaAtual, novaSenha).value;
      && |r| == |us|
      && (forall k :: 0 <= k < |us| && us[k].email != email ==> r[k] == us[k])
      && (forall k :: 0 <= k < |us| && us[k].email == email ==> r[k] == us[k].(senha := novaSenha))
      && UniqueEmails(r)
  {
    var i := CredentialIndex(us, email, senhaAtual);
    if i == |us| {
      forall u | u in us ensures !Credentials(u, email, senhaAtual) {
        var k :| 0 <= k < |us| && us[k] == u;
      }
    } else {
      var r := us[i := us[i].(senha := novaSenha)];
      assert us[i] in us;
      forall k | 0 <= k < |us| && us[k].email == email ensures r[k] == us[k].(senha := novaSenha) {
        assert k == i;
      }
      forall a, b | 0 <= a < b < |r| ensures r[a].email != r[b].email {
        assert r[a].email == us[a].email && r[b].email == us[b].email;
      }
    }
  }

  /** How `alterarEmail` ends. */
  datatype EmailChange = EmailInUse | WrongPassword | Changed(users: seq<User>)

  /** `alterarEmail` on the list: the duplicate check comes before the password check. */
  function ChangeEmail(us: seq<User>, emailAtual: string, novoEmail: string, senha: string): EmailChange {
    if EmailTaken(us, novoEmail) then EmailInUse
    else
      var i := CredentialIndex(us, emailAtual, senha);
      if i == |us| then WrongPassword else Changed(us[i := us[i].(email := novoEmail)])
  }

  lemma ChangeEmailSpec(us: seq<User>, emailAtual: string, novoEmail: string, senha: string)
    requires UniqueEmails(us)
    ensures ChangeEmail(us, emailAtual, novoEmail, senha) == EmailInUse <==> EmailTaken(us, novoEmail)
    ensures ChangeEmail(us, emailAtual, novoEmail, senha).Changed? <==>
      !EmailTaken(us, novoEmail) && exists u :: u in us && Credentials(u, emailAtual, senha)
    ensures ChangeEmail(us, emailAtual, novoEmail, senha) == WrongPassword <==>
      !EmailTaken(us, novoEmail) && forall u :: u in us ==> !Credentials(u, emailAtual, senha)
    ensures ChangeEmail(us, emailAtual, novoEmail, senha).Changed? ==>
      var r := ChangeEmail(us, emailAtual, novoEmail, senha).users;
      && |r| == |us|
      && (forall k :: 0 <= k < |us| && us[k].email != emailAtual ==> r[k] == us[k])
      && (forall k :: 0 <= k < |us| && us[k].email == emailAtual ==> r[k] == us[k].(email := novoEmail))
      && UniqueEmails(r)
      && EmailTaken(r, novoEmail) && !EmailTaken(r, emailAtual)
  {
    if !EmailTaken(us, novoEmail) {
      var i := CredentialIndex(us, emailAtual, senha);
      if i == |us| {
        forall u | u in us ensures !Credentials(u, emailAtual, senha) {
          var k :| 0 <= k < |us| && us[k] == u;
        }
      } else {
        var r := us[i := us[i].(email := novoEmail)];
        forall k | 0 <= k < |us| && us[k].email == emailAtual ensures r[k] == us[k].(email := novoEmail) {
          assert k == i;
        }
        forall a, b | 0 <= a < b < |r| ensures r[a].email != r[b].email {
          if a != i && b != i {
            assert r[a] == us[a] && r[b] == us[b];
          } else if a == i {
            assert r[b] == us[b];
          } else {
            assert r[a] == us[a];
          }
        }
        assert r[i].email == novoEmail;
        forall k | 0 <= k < |r| ensures r[k].email != emailAtual {
          if k != i {
            assert r[k] == us[k];
          } else {
            assert us[i].email == emailAtual;
          }
        }
      }
    }
  }

  /** Which stored record the logged-in copy follows after a change to the user with `email`. */
  function Follow(logado: Option<User>, email: string, updated: User): Option<User> {
    if logado.Some? && logado.value.email == email then Some(updated) else logado
  }

  class UserStore {
    var usuarios: seq<User>
    var logado: Option<User>

    predicate Valid()
      reads this
    {
      UniqueEmails(usuarios)
    }

    constructor ()
      ensures usuarios == [] && logado.None? && Valid()
    {
      usuarios := [];
      logado := None;
    }

    /** `salvarUsuario`. */
    method SalvarUsuario(kind: Registry, nome: string, email: string, telefone: string, senha: string)
      returns (ok: bool)
      requires Valid()
      modifies this
      ensures Valid()
      ensures ok <==> !EmailTaken(old(usuarios), email)
      ensures ok ==> usuarios == old(usuarios) + [NewUser(kind, nome, email, telefone, senha)]
      ensures !ok ==> usuarios == old(usuarios)
      ensures logado == old(logado)
    {
      RegisterBehaviour(kind, usuarios, nome, email, telefone, senha);
      if EmailTaken(usuarios, email) {
        return false;
      }
      usuarios := usuarios + [NewUser(kind, nome, email, telefone, senha)];
      ok := true;
    }

    /** `verificarLogin`. */
    function VerificarLogin(email: string, senha: string): Option<User>
      reads this
    {
      FindLogin(usuarios, email, senha)
    }

    /** The login form: a match becomes the logged-in record. */
    method Login(email: string, senha: string) returns (ok: bool)
      modifies this
      ensures ok <==> old(VerificarLogin(email, senha)).Some?
      ensures ok ==> logado == old(VerificarLogin(email, senha))
      ensures !ok ==> logado == old(logado)
      ensures usuarios == old(usuarios)
    {
      var found := FindLogin(usuarios, email, senha);
      if found.Some? {
        logado := found;
      }
      ok := found.Some?;
    }

    /** `realizarLogout`. */
    method RealizarLogout()
      modifies this
      ensures logado.None? && usuarios == old(usuarios)
    {
      logado := None;
    }

    /** `atualizarUsuario`. */
    method AtualizarUsuario(p: UserPatch) returns (ok: bool)
      requires Valid()
      modifies this
      ensures Valid()
      ensures ok <==> UpdateUser(old(usuarios), p).Some?
      ensures ok ==> usuarios == UpdateUser(old(usuarios), p).value
      ensures ok ==> logado == Follow(old(logado), p.email, usuarios[EmailIndex(old(usuarios), p.email)])
      ensures !ok ==> usuarios == old(usuarios) && logado == old(logado)
    {
      UpdateUserSpec(usuarios, p);
      var index := EmailIndex(usuarios, p.email);
      if index == |usuarios| {
        return false;
      }
      usuarios := usuarios[index := Merge(usuarios[index], p)];
      if logado.Some? && logado.value.email == p.email {
        logado := Some(usuarios[index]);
      }
      ok := true;
    }

    /** `alterarSenha`: the logged-in copy gets the new password when it has this email. */
    method AlterarSenha(email: string, senhaAtual: string, novaSenha: string) returns (ok: bool)
      requires Valid()
      modifies this
      ensures Valid()
      ensures ok <==> ChangePassword(old(usuarios), email, senhaAtual, novaSenha).Some?
      ensures ok ==> usuarios == ChangePassword(old(usuarios), email, senhaAtual, novaSenha).value
      ensures ok ==> logado == (if old(logado).Some? && old(logado).value.email == email
                                then Some(old(logado).value.(senha := novaSenha)) else old(logado))
      ensures !ok ==> usuarios == old(usuarios) && logado == old(logado)
    {
      ChangePasswordSpec(usuarios, email, senhaAtual, novaSenha);
      var index := CredentialIndex(usuarios, email, senhaAtual);
      if index == |usuarios| {
        return false;
      }
      usuarios := usuarios[index := usuarios[index].(senha := novaSenha)];
      if logado.Some? && logado.value.email == email {
        logado := Some(logado.value.(senha := novaSenha));
      }
      ok := true;
    }

    /** `alterarEmail`: the logged-in copy follows when it had the old email. */
    method AlterarEmail(emailAtual: string, novoEmail: string, senha: string) returns (ok: bool)
      requires Valid()
      modifies this
      ensures Valid()
      ensures ok <==> ChangeEmail(old(usuarios), emailAtual, novoEmail, senha).Changed?
      ensures ok ==> usuarios == ChangeEmail(old(usuarios), emailAtual, novoEmail, senha).users
      ensures ok ==> logado == (if old(logado).Some? && old(logado).value.email == emailAtual
                                then Some(old(logado).value.(email := novoEmail)) else old(logado))
      ensures !ok ==> usuarios == old(usuarios) && logado == old(logado)
    {
      ChangeEmailSpec(usuarios, emailAtual, novoEmail, senha);
      if EmailTaken(usuarios, novoEmail) {
        return false;
      }
      var index := CredentialIndex(usuarios, emailAtual, senha);
      if index == |usuarios| {
        return false;
      }
      usuarios := usuarios[index := usuarios[index].(email := novoEmail)];
      if logado.Some? && logado.value.email == emailAtual {
        logado := Some(logado.value.(email := novoEmail));
      }
      ok := true;
    }

    /**
     * The registration form: the checks run in order and the first failure
     * stops before anything is saved; a valid form then goes to
     * `salvarUsuario`, which may still refuse a duplicate email.
     */
    method Registrar(kind: Registry, nome: string, email: string, telefone: string, senha: string,
                     confirmarSenha: string) returns (outcome: Registration, saved: bool)
      requires Valid()
      modifies this
      ensures Valid()
      ensures outcome == CheckRegistration(nome, email, telefone, senha, confirmarSenha)
      ensures saved <==> outcome == Ready && !EmailTaken(old(usuarios), email)
      ensures saved ==> usuarios == old(usuarios) + [NewUser(kind, nome, email, telefone, senha)]
      ensures !saved ==> usuarios == old(usuarios)
      ensures logado == old(logado)
    {
      outcome := CheckRegistration(nome, email, telefone, senha, confirmarSenha);
      saved := false;
      if outcome == Ready {
        saved := SalvarUsuario(kind, nome, email, telefone, senha);
      }
    }

    /** The password form: a mismatching confirmation is refused before `alterarSenha` runs. */
    method ChangePasswordForm(email: string, senhaAtual: string, novaSenha: string, confirmarSenha: string)
      returns (ok: bool)
      requires Valid()
      modifies this
      ensures Valid()
      ensures novaSenha != confirmarSenha ==> !ok && usuarios == old(usuarios) && logado == old(logado)
      ensures novaSenha == confirmarSenha ==>
        (ok <==> ChangePassword(old(usuarios), email, senhaAtual, novaSenha).Some?)
      ensures ok ==> usuarios == ChangePassword(old(usuarios), email, senhaAtual, novaSenha).value
      ensures !ok ==> usuarios == old(usuarios)
    {
      if novaSenha != confirmarSenha {
        return false;
      }
      ok := AlterarSenha(email, senhaAtual, novaSenha);
    }

    /**
     * The profile form, as intended: the edited name, phone and avatar are
     * merged into the record of the user logged in now, keyed by that
     * user's current email, so no other field is written.
     */
    method EditProfile(nome: string, telefone: string, avatar: string) returns (ok: bool)
      requires Valid()
      modifies this
      ensures Valid()
      ensures old(logado).None? ==> !ok && usuarios == old(usuarios) && logado == old(logado)
      ensures old(logado).Some? ==>
        var p := ProfilePatch(old(logado).value.email, nome, telefone, avatar);
        (ok <==> UpdateUser(old(usuarios), p).Some?)
        && (ok ==> usuarios == UpdateUser(old(usuarios), p).value)
      ensures !ok ==> usuarios == old(usuarios)
    {
      if logado.None? {
        return false;
      }
      ok := AtualizarUsuario(ProfilePatch(logado.value.email, nome, telefone, avatar));
    }
  }

  /**
   * The profile edit as written: the patch is the record read when the page
   * loaded, with the edited name, phone and avatar on top.
   */
  function SnapshotPatch(snapshot: User, nome: string, telefone: string, avatar: string): UserPatch {
    UserPatch(Some(nome), snapshot.email, Some(telefone), Some(snapshot.senha), Some(avatar), snapshot.role)
  }

  /** The profile edit as intended: only the edited fields, keyed by the current email. */
  function ProfilePatch(email: string, nome: string, telefone: string, avatar: string): UserPatch {
    UserPatch(Some(nome), email, Some(telefone), None, Some(avatar), None)
  }

  /**
   * As written: a password changed on the profile page is put back to the
   * page-load value by a later profile edit on the same page.
   */
  lemma SnapshotEditRevertsPassword(us: seq<User>, snapshot: User, novaSenha: string,
                                    nome: string, telefone: string, avatar: string)
    requires UniqueEmails(us) && snapshot in us
    requires ChangePassword(us, snapshot.email, snapshot.senha, novaSenha).Some?
    ensures var after := ChangePassword(us, snapshot.email, snapshot.senha, novaSenha).value;
      var edited := UpdateUser(after, SnapshotPatch(snapshot, nome, telefone, avatar));
      && edited.Some?
      && (forall u :: u in after && u.email == snapshot.email ==> u.senha == novaSenha)
      && (forall u :: u in edited.value && u.email == snapshot.email ==> u.senha == snapshot.senha)
  {
    ChangePasswordSpec(us, snapshot.email, snapshot.senha, novaSenha);
    var after := ChangePassword(us, snapshot.email, snapshot.senha, novaSenha).value;
    var k :| 0 <= k < |us| && us[k] == snapshot;
    assert after[k].email == snapshot.email;
    UpdateUserSpec(after, SnapshotPatch(snapshot, nome, telefone, avatar));
    var edited := UpdateUser(after, SnapshotPatch(snapshot, nome, telefone, avatar)).value;
    forall u | u in after && u.email == snapshot.email ensures u.senha == novaSenha {
      var j :| 0 <= j < |after| && after[j] == u;
    }
    forall u | u in edited && u.email == snapshot.email ensures u.senha == snapshot.senha {
      var j :| 0 <= j < |edited| && edited[j] == u;
    }
  }

  /** As intended: a profile edit never touches a stored password. */
  lemma ProfileEditKeepsPasswords(us: seq<User>, email: string, nome: string, telefone: string, avatar: string)
    requires UniqueEmails(us)
    ensures UpdateUser(us, ProfilePatch(email, nome, telefone, avatar)).Some? <==> EmailTaken(us, email)
    ensures UpdateUser(us, ProfilePatch(email, nome, telefone, avatar)).Some? ==>
      var r := UpdateUser(us, ProfilePatch(email, nome, telefone, avatar)).value;
      |r| == |us| && forall k :: 0 <= k < |us| ==> r[k].senha == us[k].senha && r[k].email == us[k].email
  {
    UpdateUserSpec(us, ProfilePatch(email, nome, telefone, avatar));
  }
}
