/** The CLI command registry of main.go: a table from lower-case command
    names to handlers, filled by `register` and consulted by `run`.

    Handlers are a type parameter `H`: the model never calls one, it only
    records which handler a name selects.
 */
module Cli {
  import opened Strings

  /** A CLI command: its name and its positional arguments. */
  datatype Command = Command(name: string, args: seq<string>)

  /** The errors the registry and the login handler return. */
  datatype Error =
    | CommandExists(name: string)      // "command already exists: <name>"
    | CommandNotFound(name: string)    // "command not found: <name>"
    | UsernameRequired                 // "username required"
    | NotRegistered(username: string)  // "<username> not registered"
    | ConfigWriteFailed                // the error returned by writing the config file

  /** A Go `error` result: nil or an error. */
  datatype Outcome = Pass | Fail(error: Error)

  /** A value or an error. */
  datatype Result<T> = Ok(value: T) | Err(error: Error)

  /** The registry invariant: every name in the table is its own lower-case form. */
  ghost predicate AllLower<H>(table: map<string, H>) {
    forall k :: k in table ==> ToLower(k) == k
  }

  /** In a table that keeps the invariant, no key has an upper-case letter. */
  lemma UppercaseNeverKey<H>(table: map<string, H>, name: string)
    ensures AllLower(table) && name in table ==> !HasUpper(name)
  {
  }

  /** The new table and the returned error of one `register` call. */
  datatype Registration<H> = Registration(table: map<string, H>, result: Outcome)

  /** `register(name, f)` on `table`: the name is lower-cased; a name already
      present is refused and the table is left as it was; otherwise the
      handler is stored under the lower-case name. */
  function AfterRegister<H>(table: map<string, H>, name: string, f: H): (r: Registration<H>)
    ensures r.result == Pass <==> ToLower(name) !in table
    ensures r.result != Pass ==> r.result == Fail(CommandExists(ToLower(name))) && r.table == table
    ensures r.result == Pass ==>
              && r.table.Keys == table.Keys + {ToLower(name)}
              && r.table[ToLower(name)] == f
              && forall k :: k in table ==> r.table[k] == table[k]
    ensures AllLower(table) ==> AllLower(r.table)
  {
    ToLowerIdempotent(name);
    var key := ToLower(name);
    if key in table then Registration(table, Fail(CommandExists(key)))
    else Registration(table[key := f], Pass)
  }

  /** Names that differ only in case collide: the second registration fails
      and the first handler stays. */
  lemma CaseVariantsCollide<H>(table: map<string, H>, a: string, b: string, f: H, g: H)
    requires ToLower(a) == ToLower(b)
    requires AfterRegister(table, a, f).result == Pass
    ensures var second := AfterRegister(AfterRegister(table, a, f).table, b, g);
            && second.result == Fail(CommandExists(ToLower(b)))
            && second.table == AfterRegister(table, a, f).table
            && second.table[ToLower(b)] == f
  {
  }

  /** "Login" then "login": the second call fails and "login" keeps the first handler. */
  lemma LoginThenLowerLoginFails<H>(table: map<string, H>, f: H, g: H)
    requires "login" !in table
    ensures var first := AfterRegister(table, "Login", f);
            var second := AfterRegister(first.table, "login", g);
            && first.result == Pass
            && second.result == Fail(CommandExists("login"))
            && second.table["login"] == f
  {
    assert ToLower("Login") == "login" by {
      assert ToLower("Login")[0] == LowerChar('L');
    }
    assert ToLower("login") == "login" by {
      ToLowerFixpoint("login");
    }
  }

  /** After registering `name` in a table that keeps the invariant, the name
      as given is a key exactly when it has no upper-case letter: a name
      registered with upper case can only be run in its lower-case form. */
  lemma {:induction false} RegisteredNameRunnable<H>(table: map<string, H>, name: string, f: H)
    requires AllLower(table)
    requires AfterRegister(table, name, f).result == Pass
    ensures var t := AfterRegister(table, name, f).table;
            && ToLower(name) in t && t[ToLower(name)] == f
            && (name in t <==> !HasUpper(name))
  {
    var t := AfterRegister(table, name, f).table;
    if HasUpper(name) {
      UppercaseNeverKey(t, name);
    } else {
      ToLowerFixpoint(name);
    }
  }

  /** The `commands` struct: its `cmds` map from command names to handlers. */
  class Commands<H> {
    var cmds: map<string, H>

    ghost predicate Valid()
      reads this
    {
      AllLower(cmds)
    }

    /** `commands{cmds: make(map[...])}`: an empty table. */
    constructor ()
      ensures cmds == map[] && Valid()
    {
      cmds := map[];
    }

    /** Adds a command under the lower-case form of `name`, or refuses a
        name that is already present. */
    method Register(name: string, f: H) returns (err: Outcome)
      modifies this
      ensures Registration(cmds, err) == AfterRegister(old(cmds), name, f)
      ensures old(Valid()) ==> Valid()
    {
      var key := ToLower(name);
      if key in cmds {
        return Fail(CommandExists(key));
      }
      cmds := cmds[key := f];
      err := Pass;
    }

    /** Looks up the command's name exactly as given and yields the handler
        that `run` goes on to call, or the "command not found" error. */
    function Run(cmd: Command): (r: Result<H>)
      reads this
      ensures r.Ok? <==> cmd.name in cmds
      ensures r.Ok? ==> r.value == cmds[cmd.name]
      ensures r.Err? ==> r.error == CommandNotFound(cmd.name)
      ensures Valid() && HasUpper(cmd.name) ==> r == Err(CommandNotFound(cmd.name))
    {
      UppercaseNeverKey(cmds, cmd.name);
      if cmd.name in cmds then Ok(cmds[cmd.name])
      else Err(CommandNotFound(cmd.name))
    }
  }

  /** A name made only of lower-case letters is its own lower-case form.
      This is the "if" half of ToLowerFixpoint for the names `main`
      registers; it is kept because its premise, a property of each
      character, is cheap to establish for a string literal, whereas
      ToLowerFixpoint's premise, the absence of an upper-case letter, is
      not. */
  lemma LowerLiteral(s: string)
    requires forall i :: 0 <= i < |s| ==> 'a' <= s[i] <= 'z'
    ensures ToLower(s) == s
  {
  }

  /** The three registrations of `main`, on tables: each succeeds. */
  lemma AppRegistrations<H>(login: H, register: H, reset: H)
    ensures var r1 := AfterRegister(map[], "login", login);
            var r2 := AfterRegister(r1.table, "register", register);
            var r3 := AfterRegister(r2.table, "reset", reset);
            && r1.result == Pass && r2.result == Pass && r3.result == Pass
            && r3.table == map["login" := login, "register" := register, "reset" := reset]
  {
    LowerLiteral("login");
    LowerLiteral("register");
    LowerLiteral("reset");
    assert "register"[0] != "login"[0];
    assert "reset"[0] != "login"[0] && "reset"[2] != "register"[2];
  }

  /** The registrations `main` makes before it runs a command: "login",
      "register" and "reset", each of which succeeds. */
  method NewAppCommands<H>(login: H, register: H, reset: H) returns (c: Commands<H>)
    ensures fresh(c) && c.Valid()
    ensures c.cmds == map["login" := login, "register" := register, "reset" := reset]
  {
    AppRegistrations(login, register, reset);
    c := new Commands();
    var e1 := c.Register("login", login);
    var e2 := c.Register("register", register);
    var e3 := c.Register("reset", reset);
  }
}
