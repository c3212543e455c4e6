/**
 * The decisions `_add_user` takes on the answers of its prompts. The prompts
 * themselves are not modelled: each answer is given as a value, in the form
 * the prompt facility reports it.
 */
module AddUserFlow {
  import opened Wrappers
  import opened Users
  import UsernameCheck

  /** How a prompt reports its answer: skipped, a selected value, or any other result kind. */
  datatype PromptResult<T> = Skip | Selection(value: T) | Other

  /** The error `_add_user` raises for a result kind it does not handle. */
  datatype FlowError = UnhandledResultType

  /** The shell preselected in the shell prompt and used when it yields no selection. */
  const DefaultShell: string := "/bin/bash"

  /**
   * The answers of the five prompts, in the order they are asked: username,
   * password (None when the password helper returns nothing), superuser
   * confirmation (the selected item is "yes"), full name and shell.
   */
  datatype Answers = Answers(
    username: PromptResult<string>,
    password: Option<Password>,
    sudo: PromptResult<bool>,
    fullName: PromptResult<string>,
    shell: PromptResult<string>)

  /** The username prompt produced a non-empty name and the password helper a password. */
  predicate HasNameAndPassword(a: Answers)
  {
    a.username.Selection? && a.username.value != "" && a.password.Some?
  }

  /**
   * `_add_user`: Success(None) when the user abandons the flow, Success(Some(u))
   * with the collected user, or Failure when a prompt reports a result kind
   * the flow does not handle.
   */
  function AddUser(a: Answers): (r: Result<Option<User>, FlowError>)
    // an unhandled result kind on the username prompt, or on the superuser
    // prompt once that prompt is reached, is an error
    ensures r.Failure? <==> a.username.Other? || (HasNameAndPassword(a) && !a.sudo.Selection?)
    // skipping the username, an empty username or no password: no user
    ensures r == Success(None) <==>
              a.username.Skip? || (a.username.Selection? && (a.username.value == "" || a.password.None?))
    ensures r.Success? && r.value.Some? ==>
              var u := r.value.value;
              && HasNameAndPassword(a) && a.sudo.Selection?
              && u.username == a.username.value && u.password == a.password.value
              && u.sudo == a.sudo.value
              && (u.fullName == None <==> !a.fullName.Selection?)
              && (a.fullName.Selection? ==> u.fullName == Some(a.fullName.value))
              && (u.shell == DefaultShell || a.shell.Selection?)
              && (a.shell.Selection? ==> u.shell == a.shell.value)
  {
    match a.username
    case Skip => Success(None)
    case Other => Failure(UnhandledResultType)
    case Selection(name) =>
      if name == "" then Success(None)
      else
        match a.password
        case None => Success(None)
        case Some(password) =>
          match a.sudo
          case Selection(sudo) =>
            var fullName := if a.fullName.Selection? then Some(a.fullName.value) else None;
            var shell := if a.shell.Selection? then a.shell.value else DefaultShell;
            Success(Some(User(name, password, sudo, shell, fullName)))
          case _ => Failure(UnhandledResultType)
  }

  /**
   * The username prompt only hands back a name its validator accepts; under
   * that, every user the flow creates has a valid username, and the answers
   * to prompts after the password never make the flow abandon.
   */
  lemma CreatedUserIsValid(a: Answers)
    requires a.username.Selection? ==> UsernameCheck.CheckUsername(Some(a.username.value)) == None
    requires a.username.Selection? && a.password.Some? && a.sudo.Selection?
    ensures AddUser(a).Success? && AddUser(a).value.Some?
    ensures UsernameCheck.MatchesPattern(AddUser(a).value.value.username)
    ensures 0 < |AddUser(a).value.value.username| <= UsernameCheck.MaxUsernameLength
  {
  }
}
