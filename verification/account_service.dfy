/**
 Registration and login. Registration applies its checks fail-fast in a fixed
 order (blank username, short password, duplicate username) before the single
 insert; login is one lookup by username plus an exact password comparison.
 */
module AccountService {
  import opened Entities
  import opened Repository

  /** Shortest password registration accepts: the check rejects lengths up to four. */
  const MinPasswordLength := 5

  const BlankUsernameText := "The account username can not be blank."
  const ShortPasswordText := "The account password must be four or more characters long."
  const InvalidLoginText := "Invalid username and password."

  /** The duplicate-username message, spaces exactly as the service builds it. */
  function DuplicateUsernameText(username: string): string {
    "Account with username" + username + "already exists."
  }

  /** Some stored account has exactly these credentials. */
  predicate CredentialsMatch(accounts: map<int, Account>, username: string, password: string) {
    exists id :: id in accounts && accounts[id].username == username && accounts[id].password == password
  }

  /**
   `registerAccount`: each failure is characterised by the input alone, in the
   order the checks run; on success exactly one row is added, holding the
   candidate's username and password, and the message table is untouched.
   */
  function RegisterAccount(s: Store, candidate: Account): (r: Step<Result<Account>>)
    ensures r.result == Err(InvalidModelFieldValues(BlankUsernameText)) <==> candidate.username == ""
    ensures r.result == Err(InvalidModelFieldValues(ShortPasswordText))
      <==> candidate.username != "" && |candidate.password| < MinPasswordLength
    ensures r.result == Err(DataIntegrityViolation(DuplicateUsernameText(candidate.username)))
      <==> candidate.username != "" && |candidate.password| >= MinPasswordLength
           && UsernameTaken(s.accounts, candidate.username)
    ensures r.result.Ok?
      <==> candidate.username != "" && |candidate.password| >= MinPasswordLength
           && !UsernameTaken(s.accounts, candidate.username)
    ensures r.result.Err? ==> r.store == s
    ensures r.result.Ok? ==>
      && r.result.value.username == candidate.username
      && r.result.value.password == candidate.password
      && r.store.accounts == s.accounts[r.result.value.accountId := r.result.value]
      && r.store.messages == s.messages
    ensures r.result.Ok? && Valid(s) ==> r.result.value.accountId !in s.accounts && Valid(r.store)
  {
    if candidate.username == "" then
      Step(Err(InvalidModelFieldValues(BlankUsernameText)), s)
    else if |candidate.password| <= 4 then
      Step(Err(InvalidModelFieldValues(ShortPasswordText)), s)
    else if FindByUsername(s.accounts, candidate.username).Some? then
      Step(Err(DataIntegrityViolation(DuplicateUsernameText(candidate.username))), s)
    else
      var saved := SaveNewAccount(s, candidate);
      Step(Ok(saved.result), saved.store)
  }

  /**
   `login`: one generic failure whatever went wrong; success hands back the
   stored row (with its id), never the submitted credentials. Reading only,
   it returns no store.
   */
  function Login(s: Store, credentials: Account): (r: Result<Account>)
    ensures r.Err? ==> r.error == InvalidLogin(InvalidLoginText)
    ensures r.Ok? ==>
      && r.value in s.accounts.Values
      && r.value.username == credentials.username
      && r.value.password == credentials.password
    ensures UniqueUsernames(s.accounts) ==>
      (r.Ok? <==> CredentialsMatch(s.accounts, credentials.username, credentials.password))
  {
    var found := FindByUsername(s.accounts, credentials.username);
    if found.None? || found.value.password != credentials.password then
      Err(InvalidLogin(InvalidLoginText))
    else
      Ok(found.value)
  }
}
