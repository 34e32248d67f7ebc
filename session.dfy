/**
 * The session guard of config.php: `iniciarSessao`, `verificarLogin` and
 * `logout`.  `$_SESSION` is a record of optional fields; the request's
 * `REMOTE_ADDR`, `HTTP_USER_AGENT` and `time()` are parameters.  Each
 * operation is a pure function on `SessionState` (the specification) and
 * a method of class `Session` that updates the fields in place and is
 * proved to agree with it.
 */
module SessionGuard {
  import opened Wrappers
  import opened Bytes

  /** Seconds of inactivity after which `verificarLogin` ends the session. */
  const IDLE_LIMIT: int := 1800

  /** How a guard call ends: it returns, or it sends a `Location` header and exits. */
  datatype Outcome =
    | Pass             // the call returns and the page goes on
    | Redirect         // Location: index.php
    | RedirectTimeout  // Location: index.php?timeout=1
    | RedirectLogout   // Location: index.php?logout=sucesso

  /**
   * The session as PHP sees it during one request.  `active` is
   * `session_status() !== PHP_SESSION_NONE`: a request starts with it false.
   * `usuarioLogado` is whether `$_SESSION['usuario_logado']` holds `true`,
   * the only value the code ever stores there.
   */
  datatype SessionState = SessionState(
    active: bool,
    iniciada: bool,
    ip: Option<Bytes>,
    userAgent: Option<Bytes>,
    usuarioId: Option<int>,
    usuarioNome: Option<Bytes>,
    usuarioLogado: bool,
    ultimoAcesso: Option<int>)
  {
    /** Every code path that sets `usuario_logado` also sets `usuario_id`. */
    predicate Valid() {
      usuarioLogado ==> usuarioId.Some?
    }

    /** Whether `verificarLogin` lets the session through its login test. */
    predicate LoggedIn() {
      usuarioId.Some? && usuarioLogado
    }
  }

  /** A session with no fields: what `session_destroy()` or `$_SESSION = array()` leaves. */
  const EMPTY: SessionState := SessionState(false, false, None, None, None, None, false, None)

  /** The state after a guard call, and how the call ended. */
  datatype Step = Step(state: SessionState, outcome: Outcome)

  /** `iniciarSessao()`. */
  function StartSession(s: SessionState, addr: Bytes, agent: Bytes): (r: Step)
    ensures r.outcome == Pass || r.outcome == Redirect
    // first initialisation records the client, and the IP test then passes
    ensures !s.active && !s.iniciada ==>
      r.outcome == Pass && r.state.iniciada && r.state.ip == Some(addr) && r.state.userAgent == Some(agent)
    // later calls never overwrite what the first one recorded
    ensures s.iniciada && r.outcome == Pass ==> r.state.ip == s.ip && r.state.userAgent == s.userAgent
    // a changed address destroys the session
    ensures r.outcome == Redirect <==> !s.active && s.iniciada && s.ip.Some? && s.ip.value != addr
    ensures r.outcome == Redirect ==> r.state == EMPTY
    // a passing call touches no login field and leaves the session started
    ensures r.outcome == Pass ==>
      r.state.active && r.state.iniciada == (s.iniciada || !s.active) &&
      r.state.usuarioId == s.usuarioId && r.state.usuarioNome == s.usuarioNome &&
      r.state.usuarioLogado == s.usuarioLogado && r.state.ultimoAcesso == s.ultimoAcesso
    ensures s.active ==> r == Step(s, Pass)
    ensures s.Valid() ==> r.state.Valid()
  {
    if s.active then Step(s, Pass)
    else
      var started := s.(active := true);
      var init := if !started.iniciada
        then started.(iniciada := true, ip := Some(addr), userAgent := Some(agent))
        else started;
      if init.ip.Some? && init.ip.value != addr then Step(EMPTY, Redirect)
      else Step(init, Pass)
  }

  /**
   * The user agent is recorded but never compared: only the address
   * decides whether `iniciarSessao` destroys the session.
   */
  lemma AgentNotChecked(s: SessionState, addr: Bytes, a1: Bytes, a2: Bytes)
    ensures StartSession(s, addr, a1).outcome == StartSession(s, addr, a2).outcome
  {
  }

  /** `verificarLogin()` at time `now`. */
  function CheckLogin(s: SessionState, now: int, addr: Bytes, agent: Bytes): (r: Step)
    ensures r.outcome != RedirectLogout
    // the start-up test comes first
    ensures StartSession(s, addr, agent).outcome == Redirect ==> r == StartSession(s, addr, agent)
    // not logged in: back to the login page, the session kept
    ensures StartSession(s, addr, agent).outcome == Pass && !s.LoggedIn() ==>
      r == StartSession(s, addr, agent).(outcome := Redirect)
    // idle for more than IDLE_LIMIT seconds: the session is destroyed
    ensures r.outcome == RedirectTimeout <==>
      StartSession(s, addr, agent).outcome == Pass && s.LoggedIn() &&
      s.ultimoAcesso.Some? && now - s.ultimoAcesso.value > IDLE_LIMIT
    ensures r.outcome == RedirectTimeout ==> r.state == EMPTY
    // a pass needs a login and refreshes the last-access time
    ensures r.outcome == Pass ==>
      s.LoggedIn() && r.state.LoggedIn() && r.state.ultimoAcesso == Some(now) &&
      r.state.usuarioId == s.usuarioId && r.state.usuarioNome == s.usuarioNome
    // and changes nothing else of what `iniciarSessao` left
    ensures r.outcome == Pass ==> r.state == StartSession(s, addr, agent).state.(ultimoAcesso := Some(now))
    ensures r.outcome == Pass <==>
      StartSession(s, addr, agent).outcome == Pass && s.LoggedIn() &&
      (s.ultimoAcesso.Some? ==> now - s.ultimoAcesso.value <= IDLE_LIMIT)
    ensures s.Valid() ==> r.state.Valid()
  {
    var st := StartSession(s, addr, agent);
    if st.outcome != Pass then st
    else
      var t := st.state;
      if t.usuarioId.None? || !t.usuarioLogado then Step(t, Redirect)
      else if t.ultimoAcesso.Some? && now - t.ultimoAcesso.value > IDLE_LIMIT then Step(EMPTY, RedirectTimeout)
      else Step(t.(ultimoAcesso := Some(now)), Pass)
  }

  /** `logout()`. */
  function EndSession(s: SessionState, addr: Bytes, agent: Bytes): (r: Step)
    ensures r.state == EMPTY
    ensures r.outcome == RedirectLogout || r.outcome == Redirect
    ensures r.outcome == RedirectLogout <==> StartSession(s, addr, agent).outcome == Pass
  {
    var st := StartSession(s, addr, agent);
    if st.outcome != Pass then st else Step(EMPTY, RedirectLogout)
  }

  /**
   * A sequence of guarded requests by one client: the session, as stored
   * between requests, meets `verificarLogin` at each of the times `times`.
   * Every request starts with no session started.
   */
  function Requests(s: SessionState, addr: Bytes, agent: Bytes, times: seq<int>): seq<Outcome>
    decreases |times|
  {
    if times == [] then []
    else
      var r := CheckLogin(s.(active := false), times[0], addr, agent);
      [r.outcome] + Requests(r.state, addr, agent, times[1..])
  }

  /**
   * A logged-in session survives any number of requests from its own
   * address as long as no two successive ones are more than IDLE_LIMIT
   * seconds apart.
   */
  lemma {:induction false} ActiveSessionSurvives(s: SessionState, addr: Bytes, agent: Bytes, times: seq<int>)
    requires s.LoggedIn() && s.iniciada && s.ip == Some(addr)
    requires s.ultimoAcesso.Some? && |times| > 0 ==> times[0] - s.ultimoAcesso.value <= IDLE_LIMIT
    requires forall i :: 0 < i < |times| ==> times[i] - times[i - 1] <= IDLE_LIMIT
    ensures |Requests(s, addr, agent, times)| == |times|
    ensures forall i :: 0 <= i < |times| ==> Requests(s, addr, agent, times)[i] == Pass
    decreases |times|
  {
    if times != [] {
      var r := CheckLogin(s.(active := false), times[0], addr, agent);
      assert r.outcome == Pass;
      var rest := times[1..];
      assert forall i :: 0 < i < |rest| ==> rest[i] - rest[i - 1] <= IDLE_LIMIT by {
        forall i | 0 < i < |rest| ensures rest[i] - rest[i - 1] <= IDLE_LIMIT {
          assert rest[i] == times[i + 1] && rest[i - 1] == times[i];
        }
      }
      ActiveSessionSurvives(r.state, addr, agent, rest);
    }
  }

  /** The timeout boundary: exactly IDLE_LIMIT seconds passes, one second more does not. */
  lemma IdleBoundary(s: SessionState, t: int, addr: Bytes, agent: Bytes)
    requires s.LoggedIn() && !s.active && s.iniciada && s.ip == Some(addr) && s.ultimoAcesso == Some(t)
    ensures CheckLogin(s, t + IDLE_LIMIT, addr, agent).outcome == Pass
    ensures CheckLogin(s, t + IDLE_LIMIT + 1, addr, agent) == Step(EMPTY, RedirectTimeout)
  {
  }

  /** `$_SESSION` of one client, with the fields the code reads and writes. */
  class Session {
    var active: bool
    var iniciada: bool
    var ip: Option<Bytes>
    var userAgent: Option<Bytes>
    var usuarioId: Option<int>
    var usuarioNome: Option<Bytes>
    var usuarioLogado: bool
    var ultimoAcesso: Option<int>

    /** The field values as one record. */
    function State(): SessionState
      reads this
    {
      SessionState(active, iniciada, ip, userAgent, usuarioId, usuarioNome, usuarioLogado, ultimoAcesso)
    }

    /** A new client: no session yet. */
    constructor ()
      ensures State() == EMPTY
    {
      active, iniciada, ip, userAgent := false, false, None, None;
      usuarioId, usuarioNome, usuarioLogado, ultimoAcesso := None, None, false, None;
    }

    /** `session_destroy()`: the stored session is gone. */
    method Destroy()
      modifies this
      ensures State() == EMPTY
    {
      active, iniciada, ip, userAgent := false, false, None, None;
      usuarioId, usuarioNome, usuarioLogado, ultimoAcesso := None, None, false, None;
    }

    /** `iniciarSessao()`. */
    method Start(addr: Bytes, agent: Bytes) returns (outcome: Outcome)
      modifies this
      ensures Step(State(), outcome) == StartSession(old(State()), addr, agent)
    {
      outcome := Pass;
      if !active {
        active := true;
        if !iniciada {
          iniciada := true;
          ip := Some(addr);
          userAgent := Some(agent);
        }
        if ip.Some? && ip.value != addr {
          Destroy();
          outcome := Redirect;
        }
      }
    }

    /** `verificarLogin()` at time `now`. */
    method VerifyLogin(now: int, addr: Bytes, agent: Bytes) returns (outcome: Outcome)
      modifies this
      ensures Step(State(), outcome) == CheckLogin(old(State()), now, addr, agent)
    {
      outcome := Start(addr, agent);
      if outcome != Pass {
        return;
      }
      if usuarioId.None? || !usuarioLogado {
        outcome := Redirect;
        return;
      }
      if ultimoAcesso.Some? && now - ultimoAcesso.value > IDLE_LIMIT {
        Destroy();
        outcome := RedirectTimeout;
        return;
      }
      ultimoAcesso := Some(now);
    }

    /** `logout()`. */
    method Logout(addr: Bytes, agent: Bytes) returns (outcome: Outcome)
      modifies this
      ensures Step(State(), outcome) == EndSession(old(State()), addr, agent)
    {
      outcome := Start(addr, agent);
      if outcome != Pass {
        return;
      }
      Destroy();
      outcome := RedirectLogout;
    }

    /**
     * The end of a request: PHP writes the session back and closes it, so
     * the client's next request starts with `session_status()` at none and
     * every stored field kept.
     */
    method EndRequest()
      modifies this
      ensures State() == old(State()).(active := false)
    {
      active := false;
    }

    /** The three writes of a successful login in index.php. */
    method SignIn(id: int, nome: Bytes)
      modifies this
      ensures State() == old(State()).(usuarioId := Some(id), usuarioNome := Some(nome), usuarioLogado := true)
    {
      usuarioId := Some(id);
      usuarioNome := Some(nome);
      usuarioLogado := true;
    }
  }
}
