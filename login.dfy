/** The argument and registration guard of main.go's `handlerLogin`.

    The database is abstracted as the set of user names its `GetUser` query
    finds; the configuration as its `CurrentUserName` field; whether writing
    the configuration file succeeds is a parameter.
 */
module Login {
  import opened Cli

  /** The application state a handler receives. */
  class State {
    /** `s.config.CurrentUserName`: the logged-in user. */
    var currentUserName: string
    /** The names registered in the database. */
    var users: set<string>

    constructor (currentUserName: string, users: set<string>)
      ensures this.currentUserName == currentUserName && this.users == users
    {
      this.currentUserName := currentUserName;
      this.users := users;
    }

    /** Logs in `cmd.args[0]`: refuses a missing argument and an
        unregistered name without touching the configuration; otherwise sets
        the current user and returns the result of saving the configuration
        (`configSaved` says whether that write succeeds). */
    method HandlerLogin(cmd: Command, configSaved: bool) returns (err: Outcome)
      modifies this`currentUserName
      ensures |cmd.args| == 0 ==>
                err == Fail(UsernameRequired) && currentUserName == old(currentUserName)
      ensures |cmd.args| > 0 && cmd.args[0] !in users ==>
                err == Fail(NotRegistered(cmd.args[0])) && currentUserName == old(currentUserName)
      ensures |cmd.args| > 0 && cmd.args[0] in users ==>
                && currentUserName == cmd.args[0]
                && err == (if configSaved then Pass else Fail(ConfigWriteFailed))
      ensures err == Pass ==> currentUserName in users
    {
      if |cmd.args| < 1 {
        return Fail(UsernameRequired);
      }
      var username := cmd.args[0];
      if username !in users {
        return Fail(NotRegistered(username));
      }
      currentUserName := username;
      if !configSaved {
        return Fail(ConfigWriteFailed);
      }
      err := Pass;
    }
  }
}
