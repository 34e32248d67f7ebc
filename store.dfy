/**
 * The two MySQL tables the pages use, held in memory: `usuarios`
 * (registered users) and `historico_ia` (the interaction log).  Rows are
 * only ever appended.  A failed `execute()` is a boolean input.
 */
module Store {
  import opened Wrappers
  import opened Bytes

  /** A row of `usuarios`; `senha` holds the password hash. */
  datatype User = User(id: int, nome: Bytes, email: Bytes, senha: Bytes)

  /** A row of `historico_ia`; `dataInteracao` is the server-assigned time of the insert. */
  datatype Interaction = Interaction(usuarioId: int, pergunta: Bytes, resposta: Bytes, dataInteracao: int)

  /** The values an `INSERT INTO usuarios` binds. */
  datatype NewUser = NewUser(nome: Bytes, email: Bytes, senha: Bytes)

  /** No two users share an email address. */
  ghost predicate UniqueEmails(users: seq<User>) {
    forall i, j :: 0 <= i < j < |users| ==> users[i].email != users[j].email
  }

  /** `users[i]` is the earliest row with this email. */
  ghost predicate FirstWithEmail(users: seq<User>, email: Bytes, i: int) {
    0 <= i < |users| && users[i].email == email && forall j :: 0 <= j < i ==> users[j].email != email
  }

  /** `SELECT id, nome, senha FROM usuarios WHERE email = ?`, first row. */
  function FindByEmail(users: seq<User>, email: Bytes): (r: Option<User>)
    ensures r.None? <==> forall i :: 0 <= i < |users| ==> users[i].email != email
    ensures r.Some? ==> r.value in users && r.value.email == email
    ensures r.Some? ==> exists i :: FirstWithEmail(users, email, i) && users[i] == r.value
  {
    if users == [] then None
    else if users[0].email == email then Some(users[0])
    else
      var r := FindByEmail(users[1..], email);
      assert forall i :: 1 <= i < |users| ==> users[i] == users[1..][i - 1];
      assert r.Some? ==> exists i :: FirstWithEmail(users, email, i) && users[i] == r.value by {
        if r.Some? {
          var k :| FirstWithEmail(users[1..], email, k) && users[1..][k] == r.value;
          assert users[k + 1] == r.value;
          forall j | 0 <= j < k + 1 ensures users[j].email != email {
            if j > 0 {
              assert users[j] == users[1..][j - 1];
            }
          }
          assert FirstWithEmail(users, email, k + 1);
        }
      }
      r
  }

  /** With unique emails, the user found is the only one with that email. */
  lemma FindByEmailUnique(users: seq<User>, email: Bytes, i: nat)
    requires UniqueEmails(users)
    requires i < |users| && users[i].email == email
    ensures FindByEmail(users, email) == Some(users[i])
  {
    var r := FindByEmail(users, email);
    var k :| FirstWithEmail(users, email, k) && users[k] == r.value;
    assert k == i;
  }

  /** The rows a new user gets: the next auto-increment identifier. */
  function WithUser(users: seq<User>, u: NewUser): (r: seq<User>)
    ensures |r| == |users| + 1 && r[..|users|] == users
    ensures r[|users|] == User(|users| + 1, u.nome, u.email, u.senha)
  {
    users + [User(|users| + 1, u.nome, u.email, u.senha)]
  }

  /** Adding a user whose email is not yet taken keeps emails unique. */
  lemma WithUserKeepsUnique(users: seq<User>, u: NewUser)
    requires UniqueEmails(users)
    requires FindByEmail(users, u.email).None?
    ensures UniqueEmails(WithUser(users, u))
  {
    var r := WithUser(users, u);
    forall i, j | 0 <= i < j < |r| ensures r[i].email != r[j].email {
      if j < |users| {
        assert r[i] == users[i] && r[j] == users[j];
      } else {
        assert r[i] == users[i];
      }
    }
  }

  class Database {
    var usuarios: seq<User>
    var historico: seq<Interaction>

    /** Users are numbered 1, 2, ... in insertion order and have distinct emails. */
    ghost predicate Valid()
      reads this
    {
      UniqueEmails(usuarios) && forall i :: 0 <= i < |usuarios| ==> usuarios[i].id == i + 1
    }

    constructor ()
      ensures Valid() && usuarios == [] && historico == []
    {
      usuarios, historico := [], [];
    }

    /** `INSERT INTO usuarios (nome, email, senha)`; `ok` is what `execute()` returns. */
    method InsertUser(u: NewUser, ok: bool) returns (inserted: bool)
      requires Valid() && FindByEmail(usuarios, u.email).None?
      modifies this
      ensures Valid() && inserted == ok
      ensures usuarios == if ok then WithUser(old(usuarios), u) else old(usuarios)
      ensures historico == old(historico)
    {
      inserted := ok;
      if ok {
        WithUserKeepsUnique(usuarios, u);
        usuarios := WithUser(usuarios, u);
      }
    }

    /** `INSERT INTO historico_ia (usuario_id, pergunta, resposta)` at time `now`. */
    method InsertInteraction(usuarioId: int, pergunta: Bytes, resposta: Bytes, now: int, ok: bool)
      modifies this
      ensures usuarios == old(usuarios)
      ensures historico ==
        if ok then old(historico) + [Interaction(usuarioId, pergunta, resposta, now)] else old(historico)
    {
      if ok {
        historico := historico + [Interaction(usuarioId, pergunta, resposta, now)];
      }
    }
  }
}
