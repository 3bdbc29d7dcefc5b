/** Registration and login. Password hashing and its check are parameters: `hash` stands for the
    salted hash and `verify` for checking a password against a stored hash. */
module AuthController {
  import opened Common
  import opened Text
  import opened Tables
  import opened Entities
  import opened Store

  datatype RegisterRequest = RegisterRequest(
    email: string,
    password: string,
    firstName: string,
    lastName: string,
    isOwner: bool,
    taxId: Option<string>)

  /** The claims the issued token carries: subject, email and role. */
  datatype Token = Token(subject: Guid, email: string, role: string)

  /** `_context.Accounts.AnyAsync(u => u.Email == email)`, ordinal comparison. */
  predicate EmailRegistered(accounts: seq<Row<Account>>, email: string) {
    exists a | a in accounts :: a.data.email == email
  }

  /** The account a successful registration stores: an owner with the tax id, or a customer. */
  function NewAccount(req: RegisterRequest, passwordHash: string): (r: Account)
    requires req.isOwner ==> !IsNullOrWhiteSpace(req.taxId)
    ensures r.email == req.email && r.passwordHash == passwordHash
    ensures r.firstName == req.firstName && r.lastName == req.lastName
    ensures r.kind.Owner? <==> req.isOwner
    ensures r.kind.Owner? ==> Some(r.kind.taxId) == req.taxId && !IsBlank(r.kind.taxId)
  {
    Account(req.firstName, req.lastName, req.email, passwordHash,
            if req.isOwner then Owner(req.taxId.value) else Customer)
  }

  /** POST api/auth/register. */
  method Register(db: Db, req: RegisterRequest, hash: string -> string, newId: Guid) returns (r: Response<()>)
    requires db.Valid() && !HasId(db.accounts, newId)
    modifies db`accounts
    ensures db.Valid()
    ensures EmailRegistered(old(db.accounts), req.email) ==> r == BadRequest(EmailTaken) && db.accounts == old(db.accounts)
    ensures !EmailRegistered(old(db.accounts), req.email) && req.isOwner && IsNullOrWhiteSpace(req.taxId) ==>
      r == BadRequest(TaxIdRequired) && db.accounts == old(db.accounts)
    ensures !EmailRegistered(old(db.accounts), req.email) && !(req.isOwner && IsNullOrWhiteSpace(req.taxId)) ==>
      && r == Ok(())
      && db.accounts == old(db.accounts) + [Row(newId, NewAccount(req, hash(req.password)))]
      && (IsOwnerAccount(db.accounts, newId) <==> req.isOwner)
  {
    if exists a | a in db.accounts :: a.data.email == req.email {
      return BadRequest(EmailTaken);
    }
    var passwordHash := hash(req.password);
    if req.isOwner && IsNullOrWhiteSpace(req.taxId) {
      return BadRequest(TaxIdRequired);
    }
    var row := Row(newId, NewAccount(req, passwordHash));
    forall k | 0 <= k < |db.accounts| ensures EmailsDiffer(db.accounts[k], row) {
      assert db.accounts[k] in db.accounts;
    }
    PairwiseAppend(db.accounts, row, EmailsDiffer);
    UniqueIdsAppend(db.accounts, row);
    ghost var before := db.accounts;
    db.accounts := db.accounts + [row];
    forall b | b in db.brands ensures IsOwnerAccount(db.accounts, b.data.ownerId) {
      var i :| 0 <= i < |before| && before[i].id == b.data.ownerId && before[i].data.kind.Owner?;
      assert db.accounts[i] == before[i];
    }
    assert db.accounts[|before|] == row;
    return Ok(());
  }

  /** The role claim: "Owner" for an owner account, "Customer" otherwise. */
  function Role(a: Account): (r: string)
    ensures r == "Owner" <==> a.kind.Owner?
    ensures r == "Owner" || r == "Customer"
  {
    if a.kind.Owner? then "Owner" else "Customer"
  }

  function HasEmail(email: string): Row<Account> -> bool {
    (a: Row<Account>) => a.data.email == email
  }

  /** POST api/auth/login: the first account with that email, if the password checks against its hash. */
  function Login(accounts: seq<Row<Account>>, email: string, password: string,
                 verify: (string, string) -> bool): (r: Response<Token>)
    ensures r.Ok? || r == Unauthorized
    ensures !EmailRegistered(accounts, email) ==> r == Unauthorized
    ensures r.Ok? ==> exists a :: a in accounts && a.data.email == email && verify(password, a.data.passwordHash)
                                  && r.value == Token(a.id, email, Role(a.data))
  {
    match FirstIndex(accounts, HasEmail(email))
    case None => Unauthorized
    case Some(i) =>
      var a := accounts[i];
      if !verify(password, a.data.passwordHash) then Unauthorized
      else Ok(Token(a.id, a.data.email, Role(a.data)))
  }

  /** With unique emails, a password that does not check against the one account of that email is refused. */
  lemma {:induction false} WrongPasswordIsRefused(accounts: seq<Row<Account>>, email: string, password: string,
                                                  verify: (string, string) -> bool, k: nat)
    requires EmailsUnique(accounts) && k < |accounts| && accounts[k].data.email == email
    ensures Login(accounts, email, password, verify).Ok? <==> verify(password, accounts[k].data.passwordHash)
    ensures Login(accounts, email, password, verify).Ok? ==>
      Login(accounts, email, password, verify).value == Token(accounts[k].id, email, Role(accounts[k].data))
  {
    var f := FirstIndex(accounts, HasEmail(email));
    assert f.Some?;
    var j := f.value;
    assert j <= k;
    assert j == k || EmailsDiffer(accounts[j], accounts[k]);
  }

  /** Whoever registers can then log in with the same email and password, and receives the role
      they registered for. */
  lemma {:induction false} RegisterThenLogin(accounts: seq<Row<Account>>, req: RegisterRequest, newId: Guid,
                                             hash: string -> string, verify: (string, string) -> bool)
    requires forall p :: verify(p, hash(p))
    requires !EmailRegistered(accounts, req.email)
    requires req.isOwner ==> !IsNullOrWhiteSpace(req.taxId)
    ensures Login(accounts + [Row(newId, NewAccount(req, hash(req.password)))], req.email, req.password, verify)
         == Ok(Token(newId, req.email, if req.isOwner then "Owner" else "Customer"))
  {
    var row := Row(newId, NewAccount(req, hash(req.password)));
    var all := accounts + [row];
    assert all[|accounts|] == row;
    forall j | 0 <= j < |accounts| ensures !HasEmail(req.email)(all[j]) {
      assert all[j] == accounts[j] && accounts[j] in accounts;
    }
    assert FirstIndex(all, HasEmail(req.email)) == Some(|accounts|);
  }
}
