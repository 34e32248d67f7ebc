/**
 * The dashboard, dashboard.php: the login guard, the logout dispatch, the
 * history query with its collection loop, and the rendering rule of the
 * history list.  The query
 *   SELECT pergunta, resposta, data_interacao FROM historico_ia
 *   WHERE usuario_id = ? ORDER BY data_interacao DESC LIMIT 20
 * becomes `Selected`, a function over the in-memory interaction log.
 */
module History {
  import opened Wrappers
  import opened Bytes
  import opened SessionGuard
  import opened Store
  import opened Foreign

  /** The `LIMIT` of the history query. */
  const HISTORY_LIMIT: nat := 20

  /** How many bytes of an answer the list shows. */
  const EXCERPT_LENGTH: nat := 200

  /** What follows every shown answer: "...". */
  const ELLIPSIS: Bytes := [46, 46, 46]

  /** The user's rows, in log order: `WHERE usuario_id = ?`. */
  function OfUser(log: seq<Interaction>, uid: int): (r: seq<Interaction>)
    ensures forall i :: 0 <= i < |r| ==> r[i].usuarioId == uid
    ensures forall x :: x in r <==> x in log && x.usuarioId == uid
    ensures multiset(r) <= multiset(log)
  {
    if log == [] then []
    else
      var rest := OfUser(log[1..], uid);
      assert log == [log[0]] + log[1..];
      if log[0].usuarioId == uid then [log[0]] + rest else rest
  }

  /** The filter drops no row of the user: each is kept exactly as often as the log holds it. */
  lemma {:induction false} OfUserKeepsEachRow(log: seq<Interaction>, uid: int)
    ensures forall x :: multiset(OfUser(log, uid))[x] == if x.usuarioId == uid then multiset(log)[x] else 0
  {
    if log != [] {
      OfUserKeepsEachRow(log[1..], uid);
      assert log == [log[0]] + log[1..];
    }
  }

  /** How many rows of the log belong to `uid`. */
  function CountOf(log: seq<Interaction>, uid: int): nat {
    |OfUser(log, uid)|
  }

  /** Newest first. */
  ghost predicate NewestFirst(s: seq<Interaction>) {
    forall i, j :: 0 <= i < j < |s| ==> s[i].dataInteracao >= s[j].dataInteracao
  }

  /** No row of `s` is newer than `t`. */
  ghost predicate NoneNewerThan(s: seq<Interaction>, t: int) {
    forall i :: 0 <= i < |s| ==> s[i].dataInteracao <= t
  }

  /**
   * Places `x` into a newest-first sequence, after the rows at least as
   * new as it: ties keep the later-logged row in front.
   */
  function InsertByDate(x: Interaction, s: seq<Interaction>): (r: seq<Interaction>)
    ensures |r| == |s| + 1
    ensures multiset(r) == multiset(s) + multiset{x}
  {
    if s == [] || x.dataInteracao > s[0].dataInteracao then
      [x] + s
    else
      assert s == [s[0]] + s[1..];
      [s[0]] + InsertByDate(x, s[1..])
  }

  lemma {:induction false} InsertKeepsBound(x: Interaction, s: seq<Interaction>, t: int)
    requires x.dataInteracao <= t && NoneNewerThan(s, t)
    ensures NoneNewerThan(InsertByDate(x, s), t)
  {
    if s != [] && x.dataInteracao <= s[0].dataInteracao {
      InsertKeepsBound(x, s[1..], t);
    }
  }

  /** Inserting into a newest-first sequence keeps it newest first. */
  lemma {:induction false} InsertKeepsOrder(x: Interaction, s: seq<Interaction>)
    requires NewestFirst(s)
    ensures NewestFirst(InsertByDate(x, s))
  {
    if s != [] && x.dataInteracao <= s[0].dataInteracao {
      var rest := s[1..];
      InsertKeepsOrder(x, rest);
      InsertKeepsBound(x, rest, s[0].dataInteracao);
      var r := InsertByDate(x, s);
      assert r == [s[0]] + InsertByDate(x, rest);
      forall i, j | 0 <= i < j < |r|
        ensures r[i].dataInteracao >= r[j].dataInteracao
      {
        if i > 0 {
          assert r[i] == InsertByDate(x, rest)[i - 1] && r[j] == InsertByDate(x, rest)[j - 1];
        } else {
          assert r[j] == InsertByDate(x, rest)[j - 1];
        }
      }
    }
  }

  /** `ORDER BY data_interacao DESC`, by insertion from the back of the log. */
  function SortByDate(s: seq<Interaction>): (r: seq<Interaction>)
    ensures |r| == |s|
    ensures multiset(r) == multiset(s)
    ensures NewestFirst(r)
  {
    if s == [] then []
    else
      assert s == [s[0]] + s[1..];
      InsertKeepsOrder(s[0], SortByDate(s[1..]));
      InsertByDate(s[0], SortByDate(s[1..]))
  }

  /** The rows the query returns, in the order it returns them. */
  function Selected(log: seq<Interaction>, uid: int): (r: seq<Interaction>)
    ensures |r| <= HISTORY_LIMIT
  {
    var sorted := SortByDate(OfUser(log, uid));
    if |sorted| <= HISTORY_LIMIT then sorted else sorted[..HISTORY_LIMIT]
  }

  /** The history holds only rows of the log that belong to the user. */
  lemma SelectedOwnRowsOnly(log: seq<Interaction>, uid: int)
    ensures forall i :: 0 <= i < |Selected(log, uid)| ==>
      Selected(log, uid)[i] in log && Selected(log, uid)[i].usuarioId == uid
  {
    var all := OfUser(log, uid);
    var sorted := SortByDate(all);
    forall i | 0 <= i < |Selected(log, uid)|
      ensures Selected(log, uid)[i] in log && Selected(log, uid)[i].usuarioId == uid
    {
      var x := Selected(log, uid)[i];
      assert x == sorted[i];
      assert x in multiset(sorted);
      assert x in all;
    }
  }

  /** A user with n logged rows sees min(20, n) of them. */
  lemma SelectedSize(log: seq<Interaction>, uid: int)
    ensures |Selected(log, uid)| ==
      if CountOf(log, uid) < HISTORY_LIMIT then CountOf(log, uid) else HISTORY_LIMIT
  {
    assert |SortByDate(OfUser(log, uid))| == CountOf(log, uid);
  }

  /**
   * The history is newest first and leaves out no row newer than the ones
   * it shows: it is the first rows of an ordering of all the user's rows.
   */
  lemma SelectedIsNewestPrefix(log: seq<Interaction>, uid: int)
    ensures var h, sorted := Selected(log, uid), SortByDate(OfUser(log, uid));
      NewestFirst(h) &&
      multiset(sorted) == multiset(OfUser(log, uid)) &&
      h == sorted[..|h|] &&
      forall j :: |h| <= j < |sorted| ==> sorted[j].dataInteracao <= h[|h| - 1].dataInteracao
  {
    var sorted := SortByDate(OfUser(log, uid));
    var h := Selected(log, uid);
    assert h == sorted[..|h|];
    if |h| > 0 {
      NewestPrefix(sorted, |h|);
    }
  }

  /** The first `k` rows of a newest-first sequence are newest first and no older than the rest. */
  lemma NewestPrefix(s: seq<Interaction>, k: nat)
    requires NewestFirst(s) && 0 < k <= |s|
    ensures NewestFirst(s[..k])
    ensures forall j :: k <= j < |s| ==> s[j].dataInteracao <= s[..k][k - 1].dataInteracao
  {
    var p := s[..k];
    forall i, j | 0 <= i < j < k
      ensures p[i].dataInteracao >= p[j].dataInteracao
    {
      assert p[i] == s[i] && p[j] == s[j];
    }
  }

  /** A row of the history list: `$row` as `fetch_assoc` returns it. */
  datatype Row = Row(pergunta: Bytes, resposta: Bytes, dataInteracao: int)

  function RowOf(x: Interaction): Row {
    Row(x.pergunta, x.resposta, x.dataInteracao)
  }

  /** The result set of the history query. */
  function HistoryRows(log: seq<Interaction>, uid: int): (r: seq<Row>)
    ensures |r| == |Selected(log, uid)| <= HISTORY_LIMIT
    ensures forall i :: 0 <= i < |r| ==> r[i] == RowOf(Selected(log, uid)[i])
  {
    var sel := Selected(log, uid);
    seq(|sel|, i requires 0 <= i < |sel| => RowOf(sel[i]))
  }

  /** `while ($row = $resultado->fetch_assoc()) $historico[] = $row;` */
  method CollectRows(result: seq<Row>) returns (historico: seq<Row>)
    ensures historico == result
  {
    historico := [];
    var i := 0;
    while i < |result|
      invariant 0 <= i <= |result|
      invariant historico == result[..i]
    {
      historico := historico + [result[i]];
      i := i + 1;
    }
    assert result[..i] == result;
  }

  /**
   * One shown answer: the first 200 bytes, escaped, line breaks as
   * `<br />`, then "...", which every shown answer ends with, even a short one.
   */
  function Excerpt(lib: Library, resposta: Bytes): (r: Bytes)
    ensures |r| >= |ELLIPSIS| && r[|r| - |ELLIPSIS|..] == ELLIPSIS
  {
    lib.nl2br(lib.htmlEscape(Prefix(resposta, EXCERPT_LENGTH))) + ELLIPSIS
  }

  /** An answer of at most 200 bytes is shown whole, a longer one by its first 200 bytes. */
  lemma ExcerptCuts(lib: Library, resposta: Bytes)
    ensures |resposta| <= EXCERPT_LENGTH ==> Excerpt(lib, resposta) == lib.nl2br(lib.htmlEscape(resposta)) + ELLIPSIS
    ensures |resposta| > EXCERPT_LENGTH ==>
      Excerpt(lib, resposta) == lib.nl2br(lib.htmlEscape(resposta[..EXCERPT_LENGTH])) + ELLIPSIS
  {
  }

  /** An answer that differs only after its 200th byte is shown the same. */
  lemma ExcerptIgnoresTail(lib: Library, a: Bytes, b: Bytes)
    requires |a| >= EXCERPT_LENGTH && |b| >= EXCERPT_LENGTH && a[..EXCERPT_LENGTH] == b[..EXCERPT_LENGTH]
    ensures Excerpt(lib, a) == Excerpt(lib, b)
  {
    assert Prefix(a, EXCERPT_LENGTH) == a[..EXCERPT_LENGTH];
    assert Prefix(b, EXCERPT_LENGTH) == b[..EXCERPT_LENGTH];
  }

  /** One item of the list: the escaped question in full, the answer excerpt, the date. */
  datatype Item = Item(pergunta: Bytes, resposta: Bytes, dataInteracao: int)

  /** The history box: the placeholder, or one item per row in row order. */
  datatype HistoryView = Placeholder | Items(items: seq<Item>)

  function Render(lib: Library, rows: seq<Row>): (v: HistoryView)
    ensures v.Placeholder? <==> |rows| == 0
    ensures v.Items? ==> |v.items| == |rows|
    ensures v.Items? ==> forall i :: 0 <= i < |rows| ==>
      v.items[i] == Item(lib.htmlEscape(rows[i].pergunta), Excerpt(lib, rows[i].resposta), rows[i].dataInteracao)
  {
    if |rows| > 0 then Items(seq(|rows|, i requires 0 <= i < |rows| => RenderItem(lib, rows[i])))
    else Placeholder
  }

  function RenderItem(lib: Library, row: Row): Item {
    Item(lib.htmlEscape(row.pergunta), Excerpt(lib, row.resposta), row.dataInteracao)
  }

  /** How the page ends: one of the guard's redirects, or the page with its history box. */
  datatype DashboardOutcome = Redirected(outcome: Outcome) | Page(history: HistoryView)

  datatype DashboardStep = DashboardStep(session: SessionState, outcome: DashboardOutcome)

  /** dashboard.php as a function of the stored session and the log, at time `now`. */
  function Dashboard(lib: Library, s: SessionState, log: seq<Interaction>, logoutParam: bool,
                     now: int, addr: Bytes, agent: Bytes): (r: DashboardStep)
    ensures r.outcome.Page? <==> CheckLogin(s, now, addr, agent).outcome == Pass && !logoutParam
    ensures r.outcome.Redirected? ==> r.outcome.outcome != Pass
  {
    var c := CheckLogin(s, now, addr, agent);
    if c.outcome != Pass then DashboardStep(c.state, Redirected(c.outcome))
    else if logoutParam then
      var e := EndSession(c.state, addr, agent);
      DashboardStep(e.state, Redirected(e.outcome))
    else
      DashboardStep(c.state, Page(Render(lib, HistoryRows(log, c.state.usuarioId.value))))
  }

  /**
   * The guard runs first: the page is shown only to a session that passes
   * `verificarLogin`, and its history is the session user's.
   */
  lemma DashboardGuardFirst(lib: Library, s: SessionState, log: seq<Interaction>, logoutParam: bool,
                            now: int, addr: Bytes, agent: Bytes)
    ensures var c, r := CheckLogin(s, now, addr, agent), Dashboard(lib, s, log, logoutParam, now, addr, agent);
      (c.outcome != Pass ==> r == DashboardStep(c.state, Redirected(c.outcome))) &&
      (r.outcome.Page? ==>
        c.outcome == Pass && !logoutParam && r.session == c.state &&
        r.outcome.history == Render(lib, HistoryRows(log, s.usuarioId.value)))
  {
  }

  /**
   * A logged-in request with the `logout` parameter ends the session with
   * the logout redirect, before any history is loaded.
   */
  lemma LogoutBeforeHistory(lib: Library, s: SessionState, log: seq<Interaction>, now: int, addr: Bytes, agent: Bytes)
    requires CheckLogin(s, now, addr, agent).outcome == Pass
    ensures Dashboard(lib, s, log, true, now, addr, agent) == DashboardStep(EMPTY, Redirected(RedirectLogout))
  {
  }

  /** The placeholder shows exactly when the user has no rows; every item shown is one of the user's logged exchanges. */
  lemma PageShowsOwnHistory(lib: Library, s: SessionState, log: seq<Interaction>, now: int, addr: Bytes, agent: Bytes)
    requires CheckLogin(s, now, addr, agent).outcome == Pass
    ensures var v := Dashboard(lib, s, log, false, now, addr, agent).outcome.history;
      (v.Placeholder? <==> CountOf(log, s.usuarioId.value) == 0) &&
      (v.Items? ==> forall i :: 0 <= i < |v.items| ==>
        exists j :: 0 <= j < |log| && log[j].usuarioId == s.usuarioId.value &&
          v.items[i] == RenderItem(lib, RowOf(log[j])))
  {
    var uid := s.usuarioId.value;
    SelectedOwnRowsOnly(log, uid);
    SelectedSize(log, uid);
    var v := Dashboard(lib, s, log, false, now, addr, agent).outcome.history;
    if v.Items? {
      forall i | 0 <= i < |v.items|
        ensures exists j :: 0 <= j < |log| && log[j].usuarioId == uid && v.items[i] == RenderItem(lib, RowOf(log[j]))
      {
        var x := Selected(log, uid)[i];
        var j :| 0 <= j < |log| && log[j] == x;
        assert v.items[i] == RenderItem(lib, RowOf(log[j]));
      }
    }
  }

  /** dashboard.php for one request. */
  method ServeDashboard(lib: Library, session: Session, db: Database, logoutParam: bool,
                        now: int, addr: Bytes, agent: Bytes) returns (outcome: DashboardOutcome)
    requires !session.active
    modifies session
    ensures DashboardStep(session.State(), outcome) ==
      Dashboard(lib, old(session.State()), db.historico, logoutParam, now, addr, agent)
  {
    var guard := session.VerifyLogin(now, addr, agent);
    if guard != Pass {
      return Redirected(guard);
    }
    if logoutParam {
      var ended := session.Logout(addr, agent);
      return Redirected(ended);
    }
    var historico := CollectRows(HistoryRows(db.historico, session.usuarioId.value));
    return Page(Render(lib, historico));
  }
}
