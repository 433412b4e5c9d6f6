# BlogAggregator command registry, modelled in Dafny

BlogAggregator is a command-line RSS aggregator written in Go. Its `main`
builds a registry of CLI commands, then runs the command named on the
command line. This project models that registry and argument check:

- `commands.register` lower-cases the command name. It refuses a name that is
  already in the table and otherwise stores the handler under the
  lower-cased name.
- `commands.run` looks up the name exactly as given. It yields "command not
  found" or the handler that it then calls.
- The guard in `handlerLogin` needs a user name argument and a registered
  user. Only then does it set the configuration's current user.

Modules:

- `Strings` (strings.dfy): Go's `strings.ToLower`, ASCII-only. It is proved
  idempotent, and a string is proved to be its own lower-case form exactly
  when it has no upper-case letter.
- `Cli` (cli.dfy): commands, errors, the pure specification `AfterRegister` of
  one registration, and the class `Commands<H>` with the `cmds` map, `Register`
  and `Run`. Handlers are the type parameter `H`. The invariant `Valid()` says
  every key is lower case. It follows that a name with an upper-case letter
  can never be run.
- `Login` (login.dfy): the class `State`, holding the current user name from
  the configuration and the set of user names in the database. Its method is
  `HandlerLogin`.

## Model

| member | source | states |
|---|---|---|
| Strings.LowerChar | main.go:165 | one character: an upper-case letter becomes the lower-case letter at the same alphabet position, every other character is kept, and the result is never upper case |
| Strings.ToLower | main.go:165 | the result has the input's length, lowers each character on its own, and has no upper-case letter |
| Strings.ToLowerIdempotent | main.go:165 | lower-casing an already lower-cased name changes nothing |
| Strings.ToLowerFixpoint | main.go:165 | a name equals its lower-case form if and only if it has no upper-case letter |
| Cli.UppercaseNeverKey | main.go:165-172 | in a table whose keys are all lower case, no key has an upper-case letter |
| Cli.AfterRegister | main.go:164-175 | registration succeeds exactly when the lower-cased name is absent; on failure the error names the lower-cased name and the table is unchanged; on success exactly that one key is added, it maps to the new handler, every other entry keeps its handler, and an all-lower-case table stays all lower case |
| Cli.CaseVariantsCollide | main.go:165-170 | after one name is registered, registering any name with the same lower-case form fails, and the table and the first handler stay |
| Cli.LoginThenLowerLoginFails | main.go:165-170 | registering "Login" succeeds; registering "login" afterwards fails with "command already exists: login", and "login" keeps the first handler |
| Cli.RegisteredNameRunnable | main.go:164-186 | after a successful registration the lower-cased name maps to the new handler, and the name as given is a key if and only if it has no upper-case letter |
| Cli.Commands.constructor | main.go:44-46 | the registry starts empty, so the invariant holds |
| Cli.Commands.Register | main.go:164-175 | the new table and the returned error are those given by AfterRegister for the old table; the all-lower-case invariant is preserved |
| Cli.Commands.Run | main.go:178-186 | a name that is a key selects exactly its handler; any other name gives "command not found" with that name; when the invariant holds, a name with an upper-case letter is never found |
| Cli.AppRegistrations | main.go:44-49 | registering "login", "register" and "reset" in an empty table all succeed and give a table of exactly those three entries |
| Cli.NewAppCommands | main.go:44-49 | the registry `main` builds holds exactly "login", "register" and "reset" with their handlers, and keeps the invariant |
| Login.State.constructor | main.go:24-27 | the state a handler receives: the configuration's current user name and the names registered in the database, as given |
| Login.State.HandlerLogin | main.go:98-123 | with no argument it fails with "username required"; with an unregistered name it fails with "not registered"; in both cases the current user is unchanged; otherwise the current user becomes the first argument and the result is that of saving the configuration; success implies the current user is registered |

## Left out

- Cli.Commands.Run: it returns the handler that `run` selects instead of calling it. Calling the handler, `handlerFunc(s, cmd)`, is up to the caller, because handlers are opaque values here.
- Strings.ToLower: ASCII only. Go's `strings.ToLower` also lowers non-ASCII letters using Unicode case mappings.
- Login.State.HandlerLogin: the database is a set of user names. When `GetUser` fails for a reason other than "no rows", the source panics; that is not modelled. Writing the configuration file (`SetConfig`) is a boolean parameter saying whether it succeeded. Printing "Logged in as ..." is not modelled.
- The rest of `main` (main.go:51-88): reading the configuration file, opening the database connection, reading `os.Args`, and exiting through `panic` or `log.Fatal`. All of it is I/O. Also, `main` ignores the errors that its three `register` calls return.
- `handlerRegister` (main.go:130-151): it needs a name argument, inserts a user row and panics when the insert fails, then ends by calling `handlerLogin`, whose guard is modelled. The insert is a database write and is not modelled.
- `handlerReset` (main.go:155-157): it deletes all users and returns the database's error. It is a database call and is not modelled.
- internal/config/config.go: it locates, reads and writes a JSON file.
- command_feeds.go: thin wrappers around database queries whose SQL is not part of this model. They also depend on generated identifiers and the clock.
- command_login.go: a second definition of `handlerLogin`, which also refers to an undefined type. The version in main.go is the one modelled.
- Feed fetching, RSS parsing, reconciliation and polling: no code for them exists in main.go, command_feeds.go, command_login.go or internal/config/config.go, so they are not modelled.
