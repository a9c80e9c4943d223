/**
 * The validation sequence of the `register` handler. A form field that is missing and one that is empty
 * are both falsy in the handler, so both are the empty string here. The users table is the set of
 * usernames already registered.
 */
module Registration {
  import opened Wrappers
  import opened Text
  import opened PasswordPolicy

  datatype RegisterError =
    | MissingUsername
    | MissingPassword
    | MissingConfirmation
    | PasswordMismatch
    | WeakPassword
    | UsernameTaken

  /** What a successful registration stores: the username, and the text whose hash is stored. */
  datatype NewUser = NewUser(username: string, secret: string)

  /**
   * The handler as written: the checks in its order, the password matched with `re.search` and the
   * pattern as written. On success the username is stored stripped, and the stripped password is the
   * text that is hashed. So a policy password followed by one newline is accepted, and the stored
   * secret is then the password without its newline.
   */
  function Register(users: set<string>, username: string, password: string, confirmation: string)
    : (r: Result<NewUser, RegisterError>)
    ensures r.Ok? ==> r.value.username == Strip(username) && r.value.username !in users
    ensures r.Ok? ==> confirmation == password && r.value.secret == Strip(password)
    ensures r.Ok? ==>
      || (StrongPassword(password) && r.value.secret == password)
      || (|password| >= 1 && var q := password[..|password| - 1];
          password == q + "\n" && StrongPassword(q) && r.value.secret == q)
  {
    if username == "" then Err(MissingUsername)
    else if password == "" then Err(MissingPassword)
    else if confirmation == "" then Err(MissingConfirmation)
    else if password != confirmation then Err(PasswordMismatch)
    else if !SearchMatches(password) then Err(WeakPassword)
    else if Strip(username) in users then Err(UsernameTaken)
    else
      SearchMatchesSpec(password);
      AcceptedSecret(password);
      Ok(NewUser(Strip(username), Strip(password)))
  }

  /** A password `re.search` accepts strips to the policy password it is built on. */
  lemma AcceptedSecret(password: string)
    requires SearchMatches(password)
    ensures
      || (StrongPassword(password) && Strip(password) == password)
      || (|password| >= 1 && var q := password[..|password| - 1];
          password == q + "\n" && StrongPassword(q) && Strip(password) == q)
  {
    SearchMatchesSpec(password);
    if StrongPassword(password) {
      StrongPasswordStripped(password);
    } else {
      var q := password[..|password| - 1];
      assert password == q + "\n";
      NewlineStripped(q);
    }
  }

  /**
   * The handler as evidently intended: the same checks, with the password checked against the policy
   * itself (the pattern anchored at the very end). A password it accepts has no whitespace, so the
   * stored secret is the password unchanged.
   */
  function RegisterIntended(users: set<string>, username: string, password: string, confirmation: string)
    : (r: Result<NewUser, RegisterError>)
    ensures r.Ok? ==> r.value.username == Strip(username) && r.value.username !in users
    ensures r.Ok? ==> StrongPassword(password) && confirmation == password && r.value.secret == password
  {
    if username == "" then Err(MissingUsername)
    else if password == "" then Err(MissingPassword)
    else if confirmation == "" then Err(MissingConfirmation)
    else if password != confirmation then Err(PasswordMismatch)
    else if !FullMatches(password) then Err(WeakPassword)
    else if Strip(username) in users then Err(UsernameTaken)
    else
      FullMatchIsPolicy(password);
      StrongPasswordStripped(password);
      Ok(NewUser(Strip(username), Strip(password)))
  }

  /**
   * Each error of the handler as written is reported exactly when every earlier check passed and its
   * own check failed, and the registration succeeds exactly when all six checks pass.
   */
  lemma RegisterErrorOrder(users: set<string>, username: string, password: string, confirmation: string)
    ensures var r := Register(users, username, password, confirmation);
      && (r == Err(MissingUsername) <==> username == "")
      && (r == Err(MissingPassword) <==> username != "" && password == "")
      && (r == Err(MissingConfirmation) <==> username != "" && password != "" && confirmation == "")
      && (r == Err(PasswordMismatch) <==>
            username != "" && password != "" && confirmation != "" && password != confirmation)
      && (r == Err(WeakPassword) <==>
            username != "" && password != "" && password == confirmation && !SearchMatches(password))
      && (r == Err(UsernameTaken) <==>
            username != "" && password == confirmation && SearchMatches(password) && Strip(username) in users)
      && (r.Ok? <==>
            username != "" && password == confirmation && SearchMatches(password) && Strip(username) !in users)
  {
    if SearchMatches(password) {
      SearchMatchesSpec(password);
      assert password != "";
    }
  }

  /** The same order for the intended handler, with the policy in place of the pattern as written. */
  lemma RegisterIntendedErrorOrder(users: set<string>, username: string, password: string, confirmation: string)
    ensures var r := RegisterIntended(users, username, password, confirmation);
      && (r == Err(MissingUsername) <==> username == "")
      && (r == Err(MissingPassword) <==> username != "" && password == "")
      && (r == Err(MissingConfirmation) <==> username != "" && password != "" && confirmation == "")
      && (r == Err(PasswordMismatch) <==>
            username != "" && password != "" && confirmation != "" && password != confirmation)
      && (r == Err(WeakPassword) <==>
            username != "" && password != "" && password == confirmation && !StrongPassword(password))
      && (r == Err(UsernameTaken) <==>
            username != "" && password == confirmation && StrongPassword(password) && Strip(username) in users)
      && (r.Ok? <==>
            username != "" && password == confirmation && StrongPassword(password) && Strip(username) !in users)
  {
    FullMatchIsPolicy(password);
    if StrongPassword(password) {
      assert password != "";
    }
  }

  /** The two handlers agree on every password that does not end in a newline. */
  lemma IntendedAgrees(users: set<string>, username: string, password: string, confirmation: string)
    requires password == [] || password[|password| - 1] != '\n'
    ensures Register(users, username, password, confirmation) == RegisterIntended(users, username, password, confirmation)
  {
    assert SearchMatches(password) <==> StrongPassword(password) by {
      SearchMatchesSpec(password);
    }
    RegisterErrorOrder(users, username, password, confirmation);
    RegisterIntendedErrorOrder(users, username, password, confirmation);
  }

  /**
   * The handler as written registers a policy password followed by a newline, storing the hash of the
   * password without it, where the intended handler refuses the password as weak.
   */
  lemma TrailingNewlineRegisters(users: set<string>, username: string, q: string)
    requires StrongPassword(q) && username != "" && Strip(username) !in users
    ensures Register(users, username, q + "\n", q + "\n") == Ok(NewUser(Strip(username), q))
    ensures RegisterIntended(users, username, q + "\n", q + "\n") == Err(WeakPassword)
  {
    TrailingNewlineAccepted(q);
    NewlineStripped(q);
    RegisterIntendedErrorOrder(users, username, q + "\n", q + "\n");
  }

  /** Registering a new name adds exactly that name: a second attempt with the same name is refused. */
  lemma RegisterTwiceRefused(users: set<string>, username: string, password: string)
    requires Register(users, username, password, password).Ok?
    ensures var name := Register(users, username, password, password).value.username;
      Register(users + {name}, username, password, password) == Err(UsernameTaken)
  {
  }

  /** "abc" is refused as a weak password. */
  lemma WeakPasswordExample(users: set<string>, username: string)
    requires username != ""
    ensures Register(users, username, "abc", "abc") == Err(WeakPassword)
  {
    PolicyExamples();
    SearchMatchesSpec("abc");
  }

  /** "Abcdef1!" is accepted for a name that is not yet taken and has no surrounding whitespace. */
  lemma StrongPasswordExample(users: set<string>, username: string)
    requires username != "" && username[0] !in Whitespace && username[|username| - 1] !in Whitespace
    requires username !in users
    ensures Register(users, username, "Abcdef1!", "Abcdef1!") == Ok(NewUser(username, "Abcdef1!"))
  {
    PolicyExamples();
    StripNoop(username);
    SearchMatchesSpec("Abcdef1!");
    StrongPasswordStripped("Abcdef1!");
  }
}
