/**
 * The login and registration page, index.php.  After `iniciarSessao` a
 * logged-in visitor is sent to the dashboard; otherwise a POST may carry
 * the login form, the registration form, or both, and each is processed
 * in that order.  Form fields are byte strings; a field that is absent
 * reads as the empty string, which every test on it treats as PHP does.
 */
module Accounts {
  import opened Wrappers
  import opened Bytes
  import opened SessionGuard
  import opened Store
  import opened Foreign

  /** `$_POST['email']` and `$_POST['senha']`. */
  datatype LoginForm = LoginForm(email: Bytes, senha: Bytes)

  /** `$_POST['nome']`, `['email_cadastro']`, `['senha_cadastro']` and `['confirmar_senha']`. */
  datatype RegisterForm = RegisterForm(nome: Bytes, email: Bytes, senha: Bytes, confirmar: Bytes)

  /**
   * One request to the page: whether it is a POST, and which of the two
   * forms it submits (`isset($_POST['login'])`, `isset($_POST['cadastrar'])`).
   */
  datatype IndexRequest = IndexRequest(isPost: bool, login: Option<LoginForm>, cadastro: Option<RegisterForm>)

  /** The messages the page shows in its `$erro` and `$sucesso` boxes. */
  datatype Notice =
    | FillAll
    | UnknownUser
    | WrongPassword
    | PasswordMismatch
    | InvalidEmail
    | EmailTaken
    | InsertFailed
    | Registered

  function NoticeText(n: Notice): Bytes {
    match n
    case FillAll => Utf8("Preencha todos os campos!")
    case UnknownUser => Utf8("Usuário não encontrado. Faça seu cadastro!")
    case WrongPassword => Utf8("Senha incorreta!")
    case PasswordMismatch => Utf8("As senhas não coincidem!")
    case InvalidEmail => Utf8("Email inválido!")
    case EmailTaken => Utf8("Este email já está cadastrado!")
    case InsertFailed => Utf8("Erro ao cadastrar. Tente novamente.")
    case Registered => Utf8("Cadastro realizado com sucesso! Faça login.")
  }

  datatype LoginResult = SignedIn(user: User) | Rejected(notice: Notice)

  /** The login block: sanitise the email, test both fields, look the user up, verify the password. */
  function Authenticate(lib: Library, users: seq<User>, form: LoginForm): (r: LoginResult)
    ensures r.Rejected? ==> r.notice in {FillAll, UnknownUser, WrongPassword}
    ensures r == Rejected(FillAll) <==> PhpEmpty(lib.sanitizeEmail(form.email)) || PhpEmpty(form.senha)
    ensures r.SignedIn? ==>
      r.user in users && r.user.email == lib.sanitizeEmail(form.email) && lib.passwordVerify(form.senha, r.user.senha)
  {
    var email := lib.sanitizeEmail(form.email);
    if PhpEmpty(email) || PhpEmpty(form.senha) then Rejected(FillAll)
    else
      match FindByEmail(users, email)
      case None => Rejected(UnknownUser)
      case Some(u) => if lib.passwordVerify(form.senha, u.senha) then SignedIn(u) else Rejected(WrongPassword)
  }

  /** An address no user has gives the unknown-user message. */
  lemma UnknownEmailRejected(lib: Library, users: seq<User>, form: LoginForm)
    requires !PhpEmpty(lib.sanitizeEmail(form.email)) && !PhpEmpty(form.senha)
    requires forall i :: 0 <= i < |users| ==> users[i].email != lib.sanitizeEmail(form.email)
    ensures Authenticate(lib, users, form) == Rejected(UnknownUser)
  {
  }

  /**
   * With distinct emails, the user the address belongs to gets in exactly
   * when the password verifies against that user's hash.
   */
  lemma LoginDecidedByOwnHash(lib: Library, users: seq<User>, form: LoginForm, i: nat)
    requires UniqueEmails(users)
    requires i < |users| && users[i].email == lib.sanitizeEmail(form.email)
    requires !PhpEmpty(lib.sanitizeEmail(form.email)) && !PhpEmpty(form.senha)
    ensures Authenticate(lib, users, form) ==
      if lib.passwordVerify(form.senha, users[i].senha) then SignedIn(users[i]) else Rejected(WrongPassword)
  {
    FindByEmailUnique(users, lib.sanitizeEmail(form.email), i);
  }

  /** The row the registration block would insert, or the message it stops with. */
  function PlanRegistration(lib: Library, users: seq<User>, form: RegisterForm): (r: Result<NewUser, Notice>)
    ensures r.Err? ==> r.error in {FillAll, PasswordMismatch, InvalidEmail, EmailTaken}
    ensures r == Err(FillAll) <==>
      PhpEmpty(lib.htmlEscape(Trim(form.nome))) || PhpEmpty(lib.sanitizeEmail(form.email)) || PhpEmpty(form.senha)
    ensures r.Ok? ==>
      r.value == NewUser(lib.htmlEscape(Trim(form.nome)), lib.sanitizeEmail(form.email), lib.passwordHash(form.senha)) &&
      form.senha == form.confirmar && lib.validEmail(r.value.email) && FindByEmail(users, r.value.email).None?
    // and a form that passes every test is planned
    ensures (!PhpEmpty(lib.htmlEscape(Trim(form.nome))) && !PhpEmpty(lib.sanitizeEmail(form.email)) &&
             !PhpEmpty(form.senha) && form.senha == form.confirmar && lib.validEmail(lib.sanitizeEmail(form.email)) &&
             FindByEmail(users, lib.sanitizeEmail(form.email)).None?) ==>
      r == Ok(NewUser(lib.htmlEscape(Trim(form.nome)), lib.sanitizeEmail(form.email), lib.passwordHash(form.senha)))
  {
    var nome := lib.htmlEscape(Trim(form.nome));
    var email := lib.sanitizeEmail(form.email);
    if PhpEmpty(nome) || PhpEmpty(email) || PhpEmpty(form.senha) then Err(FillAll)
    else if form.senha != form.confirmar then Err(PasswordMismatch)
    else if !lib.validEmail(email) then Err(InvalidEmail)
    else if FindByEmail(users, email).Some? then Err(EmailTaken)
    else Ok(NewUser(nome, email, lib.passwordHash(form.senha)))
  }

  /** The registration tests in their order: mismatch, then format, then duplicate. */
  lemma RegistrationOrder(lib: Library, users: seq<User>, form: RegisterForm)
    requires PlanRegistration(lib, users, form) != Err(FillAll)
    ensures form.senha != form.confirmar ==> PlanRegistration(lib, users, form) == Err(PasswordMismatch)
    ensures form.senha == form.confirmar && !lib.validEmail(lib.sanitizeEmail(form.email)) ==>
      PlanRegistration(lib, users, form) == Err(InvalidEmail)
    ensures form.senha == form.confirmar && lib.validEmail(lib.sanitizeEmail(form.email)) ==>
      (PlanRegistration(lib, users, form) == Err(EmailTaken) <==>
       exists i :: 0 <= i < |users| && users[i].email == lib.sanitizeEmail(form.email))
  {
  }

  /**
   * Registering then logging in: once the planned row is stored, the same
   * password logs in as the new user, given that the library verifies a
   * password against its own hash and that the address the login form
   * sanitises to is the one stored.
   */
  lemma RegisteredUserCanLogIn(lib: Library, users: seq<User>, form: RegisterForm, login: LoginForm)
    requires UniqueEmails(users)
    requires PlanRegistration(lib, users, form).Ok?
    requires lib.passwordVerify(form.senha, lib.passwordHash(form.senha))
    requires lib.sanitizeEmail(login.email) == lib.sanitizeEmail(form.email) && login.senha == form.senha
    ensures var row := PlanRegistration(lib, users, form).value;
      Authenticate(lib, WithUser(users, row), login) == SignedIn(User(|users| + 1, row.nome, row.email, row.senha))
  {
    var row := PlanRegistration(lib, users, form).value;
    WithUserKeepsUnique(users, row);
    LoginDecidedByOwnHash(lib, WithUser(users, row), login, |users|);
  }

  /** How the page ends. */
  datatype IndexOutcome =
    | SessionRedirect                               // `iniciarSessao` saw another address
    | ToDashboard                                   // Location: dashboard.php
    | ShowForm(erro: Option<Notice>, sucesso: Option<Notice>)  // the HTML page with its message boxes

  /** The session, the users table and the outcome after one request. */
  datatype IndexStep = IndexStep(session: SessionState, users: seq<User>, outcome: IndexOutcome)

  /** The three session writes of a successful login. */
  function SignInState(s: SessionState, u: User): (r: SessionState)
    ensures r.LoggedIn() && r.usuarioId == Some(u.id) && r.usuarioNome == Some(u.nome)
    ensures r.(usuarioId := s.usuarioId, usuarioNome := s.usuarioNome, usuarioLogado := s.usuarioLogado) == s
  {
    s.(usuarioId := Some(u.id), usuarioNome := Some(u.nome), usuarioLogado := true)
  }

  /**
   * index.php as a function of the stored session and users.  `insertOk`
   * is what the registration insert's `execute()` returns.
   */
  function IndexPage(lib: Library, s: SessionState, users: seq<User>, req: IndexRequest,
                     addr: Bytes, agent: Bytes, insertOk: bool): (r: IndexStep)
    ensures r.outcome == SessionRedirect <==> StartSession(s, addr, agent).outcome == Redirect
    // a changed address leaves the session as `iniciarSessao` destroyed it, and the table alone
    ensures r.outcome == SessionRedirect ==> r.session == StartSession(s, addr, agent).state && r.users == users
    // the form is shown again with the session as `iniciarSessao` left it
    ensures r.outcome.ShowForm? ==> r.session == StartSession(s, addr, agent).state
  {
    var st := StartSession(s, addr, agent);
    if st.outcome != Pass then IndexStep(st.state, users, SessionRedirect)
    else if st.state.usuarioLogado then IndexStep(st.state, users, ToDashboard)
    else
      var login := if req.isPost && req.login.Some? then Some(Authenticate(lib, users, req.login.value)) else None;
      if login.Some? && login.value.SignedIn? then
        IndexStep(SignInState(st.state, login.value.user), users, ToDashboard)
      else
        var erro := if login.Some? then Some(login.value.notice) else None;
        if req.isPost && req.cadastro.Some? then
          match PlanRegistration(lib, users, req.cadastro.value)
          case Err(n) => IndexStep(st.state, users, ShowForm(Some(n), None))
          case Ok(row) =>
            if insertOk then IndexStep(st.state, WithUser(users, row), ShowForm(erro, Some(Registered)))
            else IndexStep(st.state, users, ShowForm(Some(InsertFailed), None))
        else IndexStep(st.state, users, ShowForm(erro, None))
  }

  /**
   * The page keeps the session invariant and the users' distinct emails,
   * and adds at most the one planned row.
   */
  lemma IndexPageInvariants(lib: Library, s: SessionState, users: seq<User>, req: IndexRequest,
                            addr: Bytes, agent: Bytes, insertOk: bool)
    requires s.Valid() && UniqueEmails(users)
    ensures var r := IndexPage(lib, s, users, req, addr, agent, insertOk);
      r.session.Valid() && UniqueEmails(r.users) &&
      (r.users == users ||
       (req.isPost && req.cadastro.Some? && PlanRegistration(lib, users, req.cadastro.value).Ok? &&
        r.users == WithUser(users, PlanRegistration(lib, users, req.cadastro.value).value)))
  {
    var st := StartSession(s, addr, agent);
    var r := IndexPage(lib, s, users, req, addr, agent, insertOk);
    if st.outcome == Pass && !st.state.usuarioLogado && r.users != users {
      var plan := PlanRegistration(lib, users, req.cadastro.value);
      assert r.users == WithUser(users, plan.value);
      WithUserKeepsUnique(users, plan.value);
    }
  }

  /**
   * The page sends a visitor to the dashboard only with a logged-in
   * session: one that already was, or one just signed in as a registered
   * user whose password verified.
   */
  lemma DashboardNeedsLogin(lib: Library, s: SessionState, users: seq<User>, req: IndexRequest,
                            addr: Bytes, agent: Bytes, insertOk: bool)
    requires s.Valid()
    ensures var r := IndexPage(lib, s, users, req, addr, agent, insertOk);
      r.outcome == ToDashboard ==>
        r.session.LoggedIn() &&
        (s.usuarioLogado ||
         (req.isPost && req.login.Some? &&
          exists i :: 0 <= i < |users| && r.session.usuarioId == Some(users[i].id) &&
            lib.passwordVerify(req.login.value.senha, users[i].senha)))
  {
    var r := IndexPage(lib, s, users, req, addr, agent, insertOk);
    var st := StartSession(s, addr, agent);
    if r.outcome == ToDashboard && !st.state.usuarioLogado {
      var u := Authenticate(lib, users, req.login.value).user;
      var i :| 0 <= i < |users| && users[i] == u;
      assert r.session.usuarioId == Some(users[i].id);
    }
  }

  /**
   * A login that is refused (a field left empty, an unknown address, a
   * wrong password) shows its message on the form and leaves the session as
   * `iniciarSessao` left it, when no registration form comes with it.
   */
  lemma RejectedLoginKeepsSession(lib: Library, s: SessionState, users: seq<User>, form: LoginForm,
                                  addr: Bytes, agent: Bytes, insertOk: bool)
    requires StartSession(s, addr, agent).outcome == Pass && !StartSession(s, addr, agent).state.usuarioLogado
    requires Authenticate(lib, users, form).Rejected?
    ensures IndexPage(lib, s, users, IndexRequest(true, Some(form), None), addr, agent, insertOk) ==
      IndexStep(StartSession(s, addr, agent).state, users, ShowForm(Some(Authenticate(lib, users, form).notice), None))
  {
  }

  /**
   * A verified login on a started session that is not yet logged in
   * writes the matched user into the session and sends the visitor to the
   * dashboard, before any registration form is looked at.
   */
  lemma VerifiedLoginSignsIn(lib: Library, s: SessionState, users: seq<User>, req: IndexRequest,
                             addr: Bytes, agent: Bytes, insertOk: bool)
    requires StartSession(s, addr, agent).outcome == Pass && !StartSession(s, addr, agent).state.usuarioLogado
    requires req.isPost && req.login.Some? && Authenticate(lib, users, req.login.value).SignedIn?
    ensures IndexPage(lib, s, users, req, addr, agent, insertOk) ==
      IndexStep(SignInState(StartSession(s, addr, agent).state, Authenticate(lib, users, req.login.value).user),
                users, ToDashboard)
  {
  }

  /**
   * A registration that passes every test, on a started session that is
   * not logged in and not signed in by the same request, stores the
   * planned row and shows the success message when `execute()` succeeds,
   * and shows the insert-failure message with the table unchanged when it
   * does not.  A refused login in the same request keeps its message.
   */
  lemma PlannedRegistrationStored(lib: Library, s: SessionState, users: seq<User>, req: IndexRequest,
                                  addr: Bytes, agent: Bytes, insertOk: bool)
    requires StartSession(s, addr, agent).outcome == Pass && !StartSession(s, addr, agent).state.usuarioLogado
    requires req.isPost && req.cadastro.Some? && PlanRegistration(lib, users, req.cadastro.value).Ok?
    requires req.login.None? || Authenticate(lib, users, req.login.value).Rejected?
    ensures var st := StartSession(s, addr, agent).state;
      var row := PlanRegistration(lib, users, req.cadastro.value).value;
      var erro := if req.login.Some? then Some(Authenticate(lib, users, req.login.value).notice) else None;
      IndexPage(lib, s, users, req, addr, agent, insertOk) ==
        if insertOk then IndexStep(st, WithUser(users, row), ShowForm(erro, Some(Registered)))
        else IndexStep(st, users, ShowForm(Some(InsertFailed), None))
  {
  }

  /**
   * A registration that fails one of its tests shows that test's message,
   * in place of any refused login's, with the session as `iniciarSessao`
   * left it and the table unchanged.
   */
  lemma RefusedRegistrationShowsNotice(lib: Library, s: SessionState, users: seq<User>, req: IndexRequest,
                                       addr: Bytes, agent: Bytes, insertOk: bool)
    requires StartSession(s, addr, agent).outcome == Pass && !StartSession(s, addr, agent).state.usuarioLogado
    requires req.isPost && req.cadastro.Some? && PlanRegistration(lib, users, req.cadastro.value).Err?
    requires req.login.None? || Authenticate(lib, users, req.login.value).Rejected?
    ensures IndexPage(lib, s, users, req, addr, agent, insertOk) ==
      IndexStep(StartSession(s, addr, agent).state, users,
                ShowForm(Some(PlanRegistration(lib, users, req.cadastro.value).error), None))
  {
  }

  /**
   * A visit that posts no form, on a started session that is not logged
   * in, shows the page with both message boxes empty and changes nothing
   * more than `iniciarSessao` did.
   */
  lemma PlainVisitShowsForm(lib: Library, s: SessionState, users: seq<User>, req: IndexRequest,
                            addr: Bytes, agent: Bytes, insertOk: bool)
    requires StartSession(s, addr, agent).outcome == Pass && !StartSession(s, addr, agent).state.usuarioLogado
    requires !req.isPost || (req.login.None? && req.cadastro.None?)
    ensures IndexPage(lib, s, users, req, addr, agent, insertOk) ==
      IndexStep(StartSession(s, addr, agent).state, users, ShowForm(None, None))
  {
  }

  /** A logged-in visitor is sent on before any form is looked at. */
  lemma LoggedInSkipsForms(lib: Library, s: SessionState, users: seq<User>, req: IndexRequest,
                           addr: Bytes, agent: Bytes, insertOk: bool)
    requires s.usuarioLogado && StartSession(s, addr, agent).outcome == Pass
    ensures IndexPage(lib, s, users, req, addr, agent, insertOk) ==
      IndexStep(StartSession(s, addr, agent).state, users, ToDashboard)
  {
  }

  /** index.php for one request, on the client's session and the database. */
  method ServeIndex(lib: Library, session: Session, db: Database, req: IndexRequest,
                    addr: Bytes, agent: Bytes, insertOk: bool) returns (outcome: IndexOutcome)
    requires session.State().Valid() && db.Valid() && !session.active
    modifies session, db
    ensures IndexStep(session.State(), db.usuarios, outcome) ==
      IndexPage(lib, old(session.State()), old(db.usuarios), req, addr, agent, insertOk)
    ensures db.historico == old(db.historico) && db.Valid()
  {
    ghost var st := StartSession(session.State(), addr, agent);
    var started := session.Start(addr, agent);
    assert session.State() == st.state && started == st.outcome;
    if started != Pass {
      return SessionRedirect;
    }
    if session.usuarioLogado {
      return ToDashboard;
    }
    var erro: Option<Notice> := None;
    var sucesso: Option<Notice> := None;
    if req.isPost && req.login.Some? {
      var result := Authenticate(lib, db.usuarios, req.login.value);
      if result.SignedIn? {
        session.SignIn(result.user.id, result.user.nome);
        return ToDashboard;
      }
      erro := Some(result.notice);
    }
    if req.isPost && req.cadastro.Some? {
      var plan := PlanRegistration(lib, db.usuarios, req.cadastro.value);
      if plan.Err? {
        erro := Some(plan.error);
      } else {
        var inserted := db.InsertUser(plan.value, insertOk);
        if inserted {
          sucesso := Some(Registered);
        } else {
          erro := Some(InsertFailed);
        }
      }
    }
    return ShowForm(erro, sucesso);
  }
}
