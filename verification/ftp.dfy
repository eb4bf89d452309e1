/** The FTP side of the client (`ftp_data.py`): the session context manager
    with its credential fallback, working-directory set-up and teardown, and
    the operations built on it. The PLC's server is an oracle: a value that
    fixes the outcome of every call the client can make. The commands the
    client issues are recorded in order, so the claims below are about that
    trace and the value or exception the client ends with. */
module Ftp {
  import opened Results
  import opened Text
  import Listing
  import ConfigDoc

  newtype byte = x: int | 0 <= x < 256

  /** A USER/PASS pair (section 4.1.1 of RFC 959). */
  datatype Credential = Credential(user: string, password: string)

  /** `DEFAULT_PW`, tried in this order. */
  const DefaultCredentials: seq<Credential> := [Credential("Administrator", "1"), Credential("webguest", "1")]

  /** What `ftplib.FTP.login()` sends when called without arguments. */
  const Anonymous: Credential := Credential("anonymous", "anonymous@")

  /** `DIRECTORY`. */
  const DefaultDirectory: string := "pmps"

  /** An exception raised by an `ftplib` call: `error_perm` (a 5xx reply) or
      anything else (socket errors, timeouts, other replies). */
  datatype ServerError = PermissionDenied(reply: string) | OtherFailure(reason: string)

  /** The PLC's FTP server as the client sees it. `login` answers with the
      reply text, which the client stores without inspecting (it only tests
      for `None`). `rootNames` is `nlst()` right after login, `names` and
      `listing` are `nlst()` and the `LIST` lines inside the working
      directory. */
  datatype Server = Server(
    connect: Result<(), ServerError>,
    login: Credential -> Result<Option<string>, ServerError>,
    rootNames: Result<seq<string>, ServerError>,
    mkd: Result<(), ServerError>,
    cwd: Result<(), ServerError>,
    names: Result<seq<string>, ServerError>,
    listing: Result<seq<string>, ServerError>,
    store: (string, seq<byte>) -> Result<(), ServerError>,
    retrieve: string -> Result<seq<seq<byte>>, ServerError>,
    quit: Result<(), ServerError>,
    close: Result<(), ServerError>
  )

  /** The commands the client issues, in order. */
  datatype Cmd =
    | Connect
    | Login(cred: Credential)
    | Nlst
    | Mkd(dir: string)
    | Cwd(dir: string)
    | NlstHere
    | List
    | Stor(target: string, data: seq<byte>)
    | Retr(source: string)
    | Quit
    | Close

  /** The commands of the session set-up. */
  predicate IsSetup(c: Cmd) {
    c.Connect? || c.Login? || c.Nlst? || c.Mkd? || c.Cwd?
  }

  /** The body of a `with ftp(...)` block: one command. */
  predicate IsBody(c: Cmd) {
    c.NlstHere? || c.List? || c.Stor? || c.Retr?
  }

  /** The exceptions the client's operations end with. */
  datatype FtpError =
    | Raised(error: ServerError)          // an ftplib exception, unchanged
    | CouldNotLogIn                       // the RuntimeError of the login fallback
    | BadListing(cause: Listing.ListingError)
    | NotAscii(value: byte)               // UnicodeDecodeError
    | LocalFile(reason: string)           // opening or decoding a local file
    | BadJson(reason: string)             // json.loads on the downloaded text

  /** What one operation did: the commands issued, then its value or
      exception. */
  datatype Run<T> = Run(trace: seq<Cmd>, result: Result<T, FtpError>)

  // ---------------------------------------------------------------------
  // Session set-up
  // ---------------------------------------------------------------------

  /** `directory or DIRECTORY`: `None` and the empty string both fall back. */
  function WorkingDirectory(directory: Option<string>): (d: string)
    ensures d == DefaultDirectory <==> directory.None? || directory.value == [] || directory.value == DefaultDirectory
    ensures directory.Some? && directory.value != [] ==> d == directory.value
    ensures d != []
  {
    if directory.Some? && directory.value != [] then directory.value else DefaultDirectory
  }

  /** The login is abandoned at this credential: it raised something other
      than `error_perm`. */
  predicate Fatal(s: Server, c: Credential) {
    s.login(c).Err? && s.login(c).error.OtherFailure?
  }

  /** The credential's login returned (accepted or not, with a reply). */
  predicate Replied(s: Server, c: Credential) {
    s.login(c).Ok?
  }

  datatype LoginRun = LoginRun(tried: seq<Credential>, outcome: Result<Option<string>, ServerError>)

  /** The `for user, pwd in DEFAULT_PW` loop: every credential is tried in
      order, with no `break` after a success; `error_perm` is swallowed and
      any other exception ends the loop. `rval` is the value of the last
      call that returned. */
  function TryLogins(s: Server, creds: seq<Credential>, rval: Option<string>): (r: LoginRun)
    ensures |r.tried| <= |creds| && r.tried == creds[..|r.tried|]
    ensures r.outcome.Ok? ==> r.tried == creds
  {
    if creds == [] then LoginRun([], Ok(rval))
    else
      var c := creds[0];
      match s.login(c)
      case Err(PermissionDenied(_)) =>
        var rest := TryLogins(s, creds[1..], rval);
        LoginRun([c] + rest.tried, rest.outcome)
      case Err(e) => LoginRun([c], Err(e))
      case Ok(reply) =>
        var rest := TryLogins(s, creds[1..], reply);
        LoginRun([c] + rest.tried, rest.outcome)
  }

  /** The loop ends with an exception exactly when some credential's login
      raises something other than `error_perm`. */
  lemma {:induction false} LoginAbandonedIffFatal(s: Server, creds: seq<Credential>, rval: Option<string>)
    ensures TryLogins(s, creds, rval).outcome.Ok? <==> forall i :: 0 <= i < |creds| ==> !Fatal(s, creds[i])
  {
    if creds != [] {
      var next := if s.login(creds[0]).Ok? then s.login(creds[0]).value else rval;
      LoginAbandonedIffFatal(s, creds[1..], next);
      assert forall i :: 1 <= i < |creds| ==> creds[i] == creds[1..][i - 1];
    }
  }

  /** When the loop ends with an exception, it is the exception of the first
      credential whose login is fatal, and nothing after it is tried. */
  lemma {:induction false} LoginAbandonedAtFirstFatal(s: Server, creds: seq<Credential>, rval: Option<string>)
    ensures var r := TryLogins(s, creds, rval);
      r.outcome.Err? ==> r.tried != [] && Fatal(s, r.tried[|r.tried| - 1])
                         && s.login(r.tried[|r.tried| - 1]) == Err(r.outcome.error)
                         && forall i :: 0 <= i < |r.tried| - 1 ==> !Fatal(s, r.tried[i])
  {
    if creds != [] && !Fatal(s, creds[0]) {
      var next := if s.login(creds[0]).Ok? then s.login(creds[0]).value else rval;
      LoginAbandonedAtFirstFatal(s, creds[1..], next);
      var rest := TryLogins(s, creds[1..], next);
      var r := TryLogins(s, creds, rval);
      assert r == LoginRun([creds[0]] + rest.tried, rest.outcome);
      if r.outcome.Err? {
        assert r.tried[|r.tried| - 1] == rest.tried[|rest.tried| - 1];
        assert forall i :: 1 <= i < |r.tried| ==> r.tried[i] == rest.tried[i - 1];
      }
    }
  }

  /** When the loop completes, the reply it holds is the one of the last
      credential whose login returned, or the initial `rval` if none did. In
      particular a success is overwritten by a later credential's reply. */
  lemma {:induction false} LoginKeepsLastReply(s: Server, creds: seq<Credential>, rval: Option<string>)
    ensures var r := TryLogins(s, creds, rval);
      && (r.outcome.Ok? && (forall i :: 0 <= i < |creds| ==> !Replied(s, creds[i])) ==> r.outcome.value == rval)
      && (r.outcome.Ok? ==> forall i :: 0 <= i < |creds| && Replied(s, creds[i])
                               && (forall j :: i < j < |creds| ==> !Replied(s, creds[j]))
                               ==> r.outcome.value == s.login(creds[i]).value)
  {
    LoginKeepsInitial(s, creds, rval);
    var r := TryLogins(s, creds, rval);
    forall i | 0 <= i < |creds| && Replied(s, creds[i]) && (forall j :: i < j < |creds| ==> !Replied(s, creds[j]))
      ensures r.outcome.Ok? ==> r.outcome.value == s.login(creds[i]).value
    {
      LoginKeepsLastReplied(s, creds, rval, i);
    }
  }

  /** A completed loop in which no login returned still holds `rval`. */
  lemma {:induction false} LoginKeepsInitial(s: Server, creds: seq<Credential>, rval: Option<string>)
    ensures var r := TryLogins(s, creds, rval);
      r.outcome.Ok? && (forall i :: 0 <= i < |creds| ==> !Replied(s, creds[i])) ==> r.outcome.value == rval
  {
    if creds != [] && !Replied(s, creds[0]) {
      LoginKeepsInitial(s, creds[1..], rval);
      assert forall i :: 0 <= i < |creds| - 1 ==> creds[1..][i] == creds[i + 1];
    }
  }

  /** A completed loop holds the reply of credential `i` when no later
      login returned. */
  lemma {:induction false} LoginKeepsLastReplied(s: Server, creds: seq<Credential>, rval: Option<string>, i: nat)
    requires i < |creds| && Replied(s, creds[i])
    requires forall j :: i < j < |creds| ==> !Replied(s, creds[j])
    ensures TryLogins(s, creds, rval).outcome.Ok? ==> TryLogins(s, creds, rval).outcome.value == s.login(creds[i]).value
  {
    var next := if s.login(creds[0]).Ok? then s.login(creds[0]).value else rval;
    assert forall j :: 0 <= j < |creds| - 1 ==> creds[1..][j] == creds[j + 1];
    if i == 0 {
      LoginKeepsInitial(s, creds[1..], next);
    } else {
      LoginKeepsLastReplied(s, creds[1..], next, i - 1);
    }
  }

  function LoginCmds(creds: seq<Credential>): (cmds: seq<Cmd>)
    ensures |cmds| == |creds|
    ensures forall i :: 0 <= i < |creds| ==> cmds[i] == Login(creds[i])
  {
    seq(|creds|, i requires 0 <= i < |creds| => Login(creds[i]))
  }

  /** The reply held after the default credentials, when no exception ended
      the loop. */
  function DefaultReply(s: Server): Result<Option<string>, ServerError> {
    TryLogins(s, DefaultCredentials, None).outcome
  }

  /** The end of the set-up, after `nlst()` has been issued on top of
      `prefix`: `mkd` when the root listing lacks `dir`, then `cwd` into it. */
  function EnterDirectory(s: Server, dir: string, prefix: seq<Cmd>): (o: Run<string>)
    ensures |o.trace| > |prefix| && o.trace[..|prefix|] == prefix
    ensures forall i :: |prefix| <= i < |o.trace| ==> IsSetup(o.trace[i]) && !o.trace[i].Login?
    ensures o.result != Err(CouldNotLogIn)
    ensures o.result.Err? ==> o.result.error.Raised?
    ensures o.result.Ok? ==> o.result.value == dir && s.rootNames.Ok?
    ensures o.result.Ok? ==> o.trace[|o.trace| - 1] == Cwd(dir)
    ensures o.result.Ok? ==> (Mkd(dir) in o.trace[|prefix|..] <==> dir !in s.rootNames.value)
    ensures o.trace[|prefix|] == Nlst
    ensures Mkd(dir) in o.trace[|prefix|..] <==> s.rootNames.Ok? && dir !in s.rootNames.value
  {
    var listed := prefix + [Nlst];
    assert listed[|prefix|..] == [Nlst];
    match s.rootNames
    case Err(e) => Run(listed, Err(Raised(e)))
    case Ok(rootNames) =>
      var afterMkd := if dir !in rootNames then listed + [Mkd(dir)] else listed;
      var made := if dir !in rootNames then s.mkd else Ok(());
      assert afterMkd[|prefix|..] == if dir !in rootNames then [Nlst, Mkd(dir)] else [Nlst];
      match made
      case Err(e) => Run(afterMkd, Err(Raised(e)))
      case Ok(_) =>
        var changed := afterMkd + [Cwd(dir)];
        assert changed[|prefix|..] == if dir !in rootNames then [Nlst, Mkd(dir), Cwd(dir)] else [Nlst, Cwd(dir)];
        match s.cwd
        case Err(e) => Run(changed, Err(Raised(e)))
        case Ok(_) => Run(changed, Ok(dir))
  }

  /** The set-up once the default credentials' loop completed on top of
      `prefix` with the reply `rval`: anonymous login when no reply was
      kept, the `RuntimeError` when that one returns none too, and then the
      working directory. */
  function AfterDefaults(s: Server, dir: string, prefix: seq<Cmd>, rval: Option<string>): (o: Run<string>)
    ensures |o.trace| > |prefix| && o.trace[..|prefix|] == prefix
    ensures forall i :: |prefix| <= i < |o.trace| ==> IsSetup(o.trace[i])
    ensures Login(Anonymous) in o.trace[|prefix|..] <==> rval.None?
    ensures o.result == Err(CouldNotLogIn) <==> rval.None? && s.login(Anonymous) == Ok(None)
    ensures o.result.Err? ==> o.result.error.Raised? || o.result.error == CouldNotLogIn
    ensures o.result.Ok? ==> o.result.value == dir
  {
    var afterLogin := if rval.None? then prefix + [Login(Anonymous)] else prefix;
    var final := if rval.None? then s.login(Anonymous) else Ok(rval);
    match final
    case Err(e) => Run(afterLogin, Err(Raised(e)))
    case Ok(None) => Run(afterLogin, Err(CouldNotLogIn))
    case Ok(Some(_)) =>
      var o := EnterDirectory(s, dir, afterLogin);
      assert o.trace[|prefix|..] == afterLogin[|prefix|..] + o.trace[|afterLogin|..];
      assert forall c :: c in o.trace[|afterLogin|..] ==> !c.Login?;
      o
  }

  /** After the logins, `mkd` comes only after the root listing was
      requested, and once it was, exactly when that listing succeeded and
      lacks `dir`. */
  lemma AfterDefaultsMkd(s: Server, dir: string, prefix: seq<Cmd>, rval: Option<string>)
    requires Mkd(dir) !in prefix && Nlst !in prefix
    ensures var o := AfterDefaults(s, dir, prefix, rval);
      && (Mkd(dir) in o.trace ==> Nlst in o.trace)
      && (Nlst in o.trace ==> (Mkd(dir) in o.trace <==> s.rootNames.Ok? && dir !in s.rootNames.value))
  {
    var afterLogin := if rval.None? then prefix + [Login(Anonymous)] else prefix;
    var final := if rval.None? then s.login(Anonymous) else Ok(rval);
    var o := AfterDefaults(s, dir, prefix, rval);
    assert Mkd(dir) !in afterLogin && Nlst !in afterLogin;
    if final.Ok? && final.value.Some? {
      var e := EnterDirectory(s, dir, afterLogin);
      assert o == e;
      InSuffix(e.trace, |afterLogin|, Mkd(dir));
      InSuffix(e.trace, |afterLogin|, Nlst);
      assert e.trace[|afterLogin|..][0] == Nlst;
    }
  }

  /** A command missing from the first `n` commands of `t` is in `t` iff it
      is in the rest. */
  lemma InSuffix(t: seq<Cmd>, n: nat, c: Cmd)
    requires n <= |t| && c !in t[..n]
    ensures c in t <==> c in t[n..]
  {
    assert t == t[..n] + t[n..];
  }

  /** The part of the `ftp` context manager before `yield`: connect, log in,
      create the working directory if the root listing lacks it, change into
      it. The value is the working directory. */
  function Open(s: Server, directory: Option<string>): (o: Run<string>)
    ensures o.trace != [] && o.trace[0] == Connect
    ensures forall i :: 0 <= i < |o.trace| ==> IsSetup(o.trace[i])
    ensures o.result.Ok? ==> o.result.value == WorkingDirectory(directory)
    ensures o.result.Err? ==> o.result.error.Raised? || o.result.error == CouldNotLogIn
    ensures s.connect.Ok? ==> var tried := TryLogins(s, DefaultCredentials, None).tried;
                              |o.trace| > |tried| && o.trace[..|tried| + 1] == [Connect] + LoginCmds(tried)
  {
    match s.connect
    case Err(e) => Run([Connect], Err(Raised(e)))
    case Ok(_) =>
      var logins := TryLogins(s, DefaultCredentials, None);
      var afterDefaults := [Connect] + LoginCmds(logins.tried);
      assert forall i :: 0 <= i < |afterDefaults| ==> IsSetup(afterDefaults[i]);
      match logins.outcome
      case Err(e) => Run(afterDefaults, Err(Raised(e)))
      case Ok(rval) =>
        var o := AfterDefaults(s, WorkingDirectory(directory), afterDefaults, rval);
        assert forall i :: 0 <= i < |afterDefaults| ==> o.trace[i] == afterDefaults[i];
        o
  }

  /** What follows the `yield` of the `ftp` context manager, after the
      session `o` was set up: the body issues `op` and ends with `body`.
      Cleanup is not in a `finally`: when the body raises, neither `quit` nor
      `close` is issued. Otherwise `quit` is issued, and `close` only if
      `quit` raised; an exception from `close` propagates. */
  function Finish<T>(s: Server, o: Run<string>, op: Cmd, body: Result<T, ServerError>): (r: Run<T>)
    requires IsBody(op)
    ensures o.result.Err? ==> r == Run(o.trace, Err(o.result.error))
    ensures o.result.Ok? ==> |r.trace| > |o.trace| && r.trace[..|o.trace| + 1] == o.trace + [op]
    ensures Quit in r.trace[|o.trace|..] <==> o.result.Ok? && body.Ok?
    ensures Close in r.trace[|o.trace|..] <==> o.result.Ok? && body.Ok? && s.quit.Err?
    ensures r.result.Ok? <==> o.result.Ok? && body.Ok? && (s.quit.Ok? || s.close.Ok?)
    ensures r.result.Ok? ==> r.result.value == body.value
    ensures r.result.Err? && o.result.Ok? ==> r.result.error.Raised?
  {
    match o.result
    case Err(e) => Run(o.trace, Err(e))
    case Ok(_) =>
      var t := o.trace + [op];
      assert (t + [Quit])[|o.trace|..] == [op, Quit];
      assert (t + [Quit, Close])[|o.trace|..] == [op, Quit, Close];
      match body
      case Err(e) => Run(t, Err(Raised(e)))
      case Ok(v) =>
        match s.quit
        case Ok(_) => Run(t + [Quit], Ok(v))
        case Err(_) =>
          match s.close
          case Ok(_) => Run(t + [Quit, Close], Ok(v))
          case Err(e) => Run(t + [Quit, Close], Err(Raised(e)))
  }

  /** A `with ftp(hostname, directory) as ftp_obj:` block whose body issues
      `op` and ends with `body`. */
  function WithSession<T>(s: Server, directory: Option<string>, op: Cmd, body: Result<T, ServerError>): Run<T>
    requires IsBody(op)
  {
    Finish(s, Open(s, directory), op, body)
  }

  // ---------------------------------------------------------------------
  // Properties of the session set-up
  // ---------------------------------------------------------------------

  /** `Login(Anonymous)` is never one of the default credentials' commands. */
  lemma AnonymousNotDefault(tried: seq<Credential>)
    requires |tried| <= |DefaultCredentials| && tried == DefaultCredentials[..|tried|]
    ensures Login(Anonymous) !in [Connect] + LoginCmds(tried)
  {
    var admin, guest, anon := DefaultCredentials[0].user, DefaultCredentials[1].user, Anonymous.user;
    assert admin[0] != anon[0] && guest[0] != anon[0];
    forall i | 0 <= i < |tried|
      ensures tried[i] != Anonymous
    {
      assert tried[i] == DefaultCredentials[i];
    }
  }

  /** Anonymous login is attempted exactly when the connection opened and no
      default credential left a reply; the `RuntimeError` is raised exactly
      when the anonymous login also returned none. */
  lemma AnonymousFallback(s: Server, directory: Option<string>)
    ensures Login(Anonymous) in Open(s, directory).trace <==> s.connect.Ok? && DefaultReply(s) == Ok(None)
    ensures Open(s, directory).result == Err(CouldNotLogIn)
            <==> s.connect.Ok? && DefaultReply(s) == Ok(None) && s.login(Anonymous) == Ok(None)
  {
    if s.connect.Ok? {
      var logins := TryLogins(s, DefaultCredentials, None);
      AnonymousNotDefault(logins.tried);
      var afterDefaults := [Connect] + LoginCmds(logins.tried);
      var o := Open(s, directory);
      if logins.outcome.Ok? {
        OpenAfterDefaults(s, directory);
        assert o.trace == afterDefaults + o.trace[|afterDefaults|..];
      }
    }
  }

  /** Every default credential is tried, in order, whatever the earlier ones
      answered, unless one of them raised something other than `error_perm`. */
  lemma EveryDefaultTried(s: Server, directory: Option<string>)
    requires s.connect.Ok?
    requires forall i :: 0 <= i < |DefaultCredentials| ==> !Fatal(s, DefaultCredentials[i])
    ensures |Open(s, directory).trace| > 2
    ensures Open(s, directory).trace[..3] == [Connect, Login(DefaultCredentials[0]), Login(DefaultCredentials[1])]
  {
    LoginAbandonedIffFatal(s, DefaultCredentials, None);
    var o := Open(s, directory);
    assert o.trace[..3] == o.trace[..|DefaultCredentials| + 1];
  }

  /** In particular the second default credential is tried after the first
      one was accepted, and its answer is the one kept. */
  lemma NoBreakAfterSuccess(s: Server, directory: Option<string>, reply: string)
    requires s.connect.Ok?
    requires s.login(DefaultCredentials[0]) == Ok(Some(reply))
    requires s.login(DefaultCredentials[1]).Err? && s.login(DefaultCredentials[1]).error.PermissionDenied?
    ensures Login(DefaultCredentials[1]) in Open(s, directory).trace
    ensures DefaultReply(s) == Ok(Some(reply))
  {
    EveryDefaultTried(s, directory);
    LoginAbandonedIffFatal(s, DefaultCredentials, None);
    LoginKeepsLastReply(s, DefaultCredentials, None);
    assert Replied(s, DefaultCredentials[0]) && !Replied(s, DefaultCredentials[1]);
    var t := Open(s, directory).trace;
    assert t[..3][2] == Login(DefaultCredentials[1]);
    assert t[2] in t;
  }

  /** After a successful set-up, `mkd` was issued exactly when the working
      directory was missing from the root listing, and the last command is
      the `cwd` into it. */
  lemma DirectoryCreatedIfAbsent(s: Server, directory: Option<string>)
    requires Open(s, directory).result.Ok?
    ensures s.rootNames.Ok?
    ensures Mkd(WorkingDirectory(directory)) in Open(s, directory).trace
            <==> WorkingDirectory(directory) !in s.rootNames.value
    ensures Open(s, directory).trace[|Open(s, directory).trace| - 1] == Cwd(WorkingDirectory(directory))
  {
    var o := Open(s, directory);
    var logins := TryLogins(s, DefaultCredentials, None);
    var afterDefaults := [Connect] + LoginCmds(logins.tried);
    assert s.connect.Ok? && logins.outcome.Ok?;
    OpenAfterDefaults(s, directory);
    assert Mkd(WorkingDirectory(directory)) !in afterDefaults;
    AfterDefaultsEnters(s, WorkingDirectory(directory), afterDefaults, logins.outcome.value);
  }

  /** Whether or not the set-up succeeds, `mkd` is issued only after the
      root listing was requested, and once it was, exactly when that listing
      succeeded and lacks the working directory. */
  lemma MkdOnlyWhenAbsent(s: Server, directory: Option<string>)
    ensures Mkd(WorkingDirectory(directory)) in Open(s, directory).trace ==> Nlst in Open(s, directory).trace
    ensures Nlst in Open(s, directory).trace ==>
              (Mkd(WorkingDirectory(directory)) in Open(s, directory).trace
               <==> s.rootNames.Ok? && WorkingDirectory(directory) !in s.rootNames.value)
  {
    var o := Open(s, directory);
    var dir := WorkingDirectory(directory);
    if s.connect.Ok? {
      var logins := TryLogins(s, DefaultCredentials, None);
      var afterDefaults := [Connect] + LoginCmds(logins.tried);
      assert Mkd(dir) !in afterDefaults && Nlst !in afterDefaults;
      if logins.outcome.Ok? {
        OpenAfterDefaults(s, directory);
        AfterDefaultsMkd(s, dir, afterDefaults, logins.outcome.value);
      }
    }
  }

  /** A set-up that gets past the logins issued on top of `prefix` makes
      the directory exactly when the root listing lacks it, and ends in it. */
  lemma AfterDefaultsEnters(s: Server, dir: string, prefix: seq<Cmd>, rval: Option<string>)
    requires AfterDefaults(s, dir, prefix, rval).result.Ok?
    requires Mkd(dir) !in prefix
    ensures s.rootNames.Ok?
    ensures var o := AfterDefaults(s, dir, prefix, rval);
            && (Mkd(dir) in o.trace <==> dir !in s.rootNames.value)
            && o.trace[|o.trace| - 1] == Cwd(dir)
  {
    var afterLogin := if rval.None? then prefix + [Login(Anonymous)] else prefix;
    var o := EnterDirectory(s, dir, afterLogin);
    assert AfterDefaults(s, dir, prefix, rval) == o;
    assert o.trace == afterLogin + o.trace[|afterLogin|..];
  }

  /** Once the default credentials' loop completed, the set-up continues as
      `AfterDefaults` on top of the connect and the logins. */
  lemma OpenAfterDefaults(s: Server, directory: Option<string>)
    requires s.connect.Ok? && TryLogins(s, DefaultCredentials, None).outcome.Ok?
    ensures var logins := TryLogins(s, DefaultCredentials, None);
            Open(s, directory) == AfterDefaults(s, WorkingDirectory(directory), [Connect] + LoginCmds(logins.tried), logins.outcome.value)
  {
  }

  // ---------------------------------------------------------------------
  // Teardown
  // ---------------------------------------------------------------------

  /** The teardown rule of a session whose set-up succeeded: `quit` exactly
      when the body returned, `close` exactly when `quit` then raised, and
      nothing at all after a body that raised. */
  lemma Teardown<T>(s: Server, directory: Option<string>, op: Cmd, body: Result<T, ServerError>)
    requires IsBody(op)
    requires Open(s, directory).result.Ok?
    ensures var r := WithSession(s, directory, op, body);
      && (Quit in r.trace <==> body.Ok?)
      && (Close in r.trace <==> body.Ok? && s.quit.Err?)
      && (body.Err? ==> r.result == Err(Raised(body.error)))
  {
    FinishTeardown(s, Open(s, directory), op, body);
  }

  /** The teardown rule for any set-up that succeeded issuing only set-up
      commands. */
  lemma FinishTeardown<T>(s: Server, o: Run<string>, op: Cmd, body: Result<T, ServerError>)
    requires IsBody(op) && o.result.Ok?
    requires forall i :: 0 <= i < |o.trace| ==> IsSetup(o.trace[i])
    ensures var r := Finish(s, o, op, body);
      && (Quit in r.trace <==> body.Ok?)
      && (Close in r.trace <==> body.Ok? && s.quit.Err?)
      && (body.Err? ==> r.result == Err(Raised(body.error)))
  {
    var r := Finish(s, o, op, body);
    assert r.trace == o.trace + r.trace[|o.trace|..];
    assert Quit !in o.trace && Close !in o.trace;
  }

  // ---------------------------------------------------------------------
  // Operations
  // ---------------------------------------------------------------------

  /** `list_filenames`: `nlst()` inside the working directory. */
  function ListFilenames(s: Server, directory: Option<string>): (r: Run<seq<string>>)
    ensures r.result.Ok? ==> s.names.Ok? && r.result.value == s.names.value
    ensures r.result.Ok? <==> Open(s, directory).result.Ok? && s.names.Ok? && (s.quit.Ok? || s.close.Ok?)
  {
    WithSession(s, directory, NlstHere, s.names)
  }

  /** `list_file_info`: the `LIST` lines are parsed after the session is
      over, one record per line in order; one bad line fails the call. */
  function ListFileInfo(s: Server, directory: Option<string>): (r: Run<seq<Listing.PlcFile>>)
    ensures r.result.Ok? <==> Open(s, directory).result.Ok? && s.listing.Ok? && (s.quit.Ok? || s.close.Ok?)
                              && Listing.ParseListing(s.listing.value).Ok?
    ensures r.result.Ok? ==> s.listing.Ok? && |r.result.value| == |s.listing.value|
    ensures r.result.Ok? ==> forall i :: 0 <= i < |s.listing.value| ==>
                               Listing.ParseListLine(s.listing.value[i]) == Ok(r.result.value[i])
    ensures r.result.Err? && r.result.error.BadListing? ==>
              s.listing.Ok? && Quit in r.trace
              && exists i :: 0 <= i < |s.listing.value|
                             && Listing.ParseListLine(s.listing.value[i]) == Err(r.result.error.cause)
                             && forall j :: 0 <= j < i ==> Listing.ParseListLine(s.listing.value[j]).Ok?
  {
    var got := WithSession(s, directory, List, s.listing);
    assert got.result.Ok? ==> got.result.value == s.listing.value && Quit in got.trace;
    ParseSessionLines(got)
  }

  /** The list comprehension of `list_file_info`, run on the lines a session
      `got` returned once it is over; a session error passes through. */
  function ParseSessionLines(got: Run<seq<string>>): (r: Run<seq<Listing.PlcFile>>)
    requires got.result.Err? ==> !got.result.error.BadListing?
    ensures r.trace == got.trace
    ensures got.result.Err? ==> r.result == Err(got.result.error)
    ensures r.result.Ok? <==> got.result.Ok? && Listing.ParseListing(got.result.value).Ok?
    ensures r.result.Ok? ==> |r.result.value| == |got.result.value|
    ensures r.result.Ok? ==> forall i :: 0 <= i < |got.result.value| ==>
                               Listing.ParseListLine(got.result.value[i]) == Ok(r.result.value[i])
    ensures r.result.Err? && r.result.error.BadListing? ==>
              got.result.Ok?
              && exists i :: 0 <= i < |got.result.value|
                             && Listing.ParseListLine(got.result.value[i]) == Err(r.result.error.cause)
                             && forall j :: 0 <= j < i ==> Listing.ParseListLine(got.result.value[j]).Ok?
  {
    match got.result
    case Err(e) => Run(got.trace, Err(e))
    case Ok(lines) =>
      match Listing.ParseListing(lines)
      case Ok(files) => Run(got.trace, Ok(files))
      case Err(e) => Run(got.trace, Err(BadListing(e)))
  }

  /** `upload_file`: one `STOR` of the file's bytes under `target`. */
  function UploadFile(s: Server, directory: Option<string>, target: string, data: seq<byte>): (r: Run<()>)
    ensures Stor(target, data) in r.trace <==> Open(s, directory).result.Ok?
    ensures r.result.Ok? <==> Open(s, directory).result.Ok? && s.store(target, data).Ok? && (s.quit.Ok? || s.close.Ok?)
  {
    WithSession(s, directory, Stor(target, data), s.store(target, data))
  }

  /** `os.path.basename`: what follows the last `/`. */
  function Basename(path: string): (b: string)
    ensures '/' !in b
    ensures |b| <= |path| && b == path[|path| - |b|..]
    ensures |b| < |path| ==> path[|path| - |b| - 1] == '/'
  {
    if path == [] then []
    else if path[|path| - 1] == '/' then []
    else Basename(path[..|path| - 1]) + [path[|path| - 1]]
  }

  /** `dest_filename or os.path.basename(filename)`. */
  function TargetName(filename: string, dest: Option<string>): (t: string)
    ensures dest.Some? && dest.value != [] ==> t == dest.value
    ensures dest.None? || dest.value == [] ==> t == Basename(filename)
  {
    if dest.Some? && dest.value != [] then dest.value else Basename(filename)
  }

  /** `upload_filename`: the local file is opened first (`local` is the
      outcome of reading it), so a local failure issues no command at all. */
  function UploadFilename(s: Server, directory: Option<string>, filename: string, local: Result<seq<byte>, string>,
                          dest: Option<string>): (r: Run<()>)
    ensures local.Err? ==> r == Run([], Err(LocalFile(local.error)))
    ensures local.Ok? && Open(s, directory).result.Ok? ==> Stor(TargetName(filename, dest), local.value) in r.trace
    ensures local.Ok? ==> (Stor(TargetName(filename, dest), local.value) in r.trace <==> Open(s, directory).result.Ok?)
    ensures local.Ok? ==> (r.result.Ok? <==> Open(s, directory).result.Ok?
                                             && s.store(TargetName(filename, dest), local.value).Ok?
                                             && (s.quit.Ok? || s.close.Ok?))
  {
    match local
    case Err(e) => Run([], Err(LocalFile(e)))
    case Ok(data) => UploadFile(s, directory, TargetName(filename, dest), data)
  }

  /** A name without a `/` is its own basename. */
  lemma {:induction false} BasenameOfPlainName(name: string)
    requires '/' !in name
    ensures Basename(name) == name
  {
    if name != [] {
      BasenameOfPlainName(name[..|name| - 1]);
      assert name == name[..|name| - 1] + [name[|name| - 1]];
    }
  }

  /** Whatever directory precedes it, a path uploads under the part after
      its last `/`. */
  lemma {:induction false} BasenameAfterSlash(dir: string, name: string)
    requires '/' !in name
    ensures Basename(dir + "/" + name) == name
  {
    var p := dir + "/" + name;
    if name != [] {
      var init := name[..|name| - 1];
      assert p[..|p| - 1] == dir + "/" + init;
      BasenameAfterSlash(dir, init);
      assert name == init + [name[|name| - 1]];
    }
  }

  // ---------------------------------------------------------------------
  // Downloads
  // ---------------------------------------------------------------------

  /** `bytes.decode('ascii')`. */
  function DecodeAscii(bytes: seq<byte>): (r: Result<string, FtpError>)
    ensures r.Ok? <==> forall i :: 0 <= i < |bytes| ==> bytes[i] < 0x80
    ensures r.Ok? ==> |r.value| == |bytes| && forall i :: 0 <= i < |bytes| ==> r.value[i] as int == bytes[i] as int
    ensures r.Err? ==> exists i :: 0 <= i < |bytes| && r.error == NotAscii(bytes[i]) && bytes[i] >= 0x80
                                   && forall j :: 0 <= j < i ==> bytes[j] < 0x80
  {
    if bytes == [] then Ok([])
    else if bytes[0] >= 0x80 then Err(NotAscii(bytes[0]))
    else
      var rest :- DecodeAscii(bytes[1..]);
      Ok([bytes[0] as int as char] + rest)
  }

  predicate IsAscii(text: string) {
    forall i :: 0 <= i < |text| ==> text[i] as int < 0x80
  }

  /** `str.encode('ascii')`, the inverse of `DecodeAscii`. */
  function EncodeAscii(text: string): (bytes: seq<byte>)
    requires IsAscii(text)
    ensures |bytes| == |text| && forall i :: 0 <= i < |text| ==> bytes[i] as int == text[i] as int
  {
    seq(|text|, i requires 0 <= i < |text| => text[i] as int as byte)
  }

  lemma AsciiRoundTrip(text: string, bytes: seq<byte>)
    ensures IsAscii(text) ==> DecodeAscii(EncodeAscii(text)) == Ok(text)
    ensures DecodeAscii(bytes).Ok? ==> IsAscii(DecodeAscii(bytes).value) && EncodeAscii(DecodeAscii(bytes).value) == bytes
  {
    if IsAscii(text) {
      var e := EncodeAscii(text);
      var d := DecodeAscii(e);
      assert d.Ok?;
      forall i | 0 <= i < |text|
        ensures d.value[i] == text[i]
      {
        assert d.value[i] as int == e[i] as int == text[i] as int;
      }
      assert d.value == text;
    }
    if DecodeAscii(bytes).Ok? {
      var t := DecodeAscii(bytes).value;
      forall i | 0 <= i < |t|
        ensures t[i] as int < 0x80
      {
        assert t[i] as int == bytes[i] as int;
      }
      var e := EncodeAscii(t);
      forall i | 0 <= i < |bytes|
        ensures e[i] == bytes[i]
      {
        assert e[i] as int == t[i] as int == bytes[i] as int;
      }
    }
  }

  function Flatten(chunks: seq<seq<byte>>): (all: seq<byte>)
  {
    if chunks == [] then [] else chunks[0] + Flatten(chunks[1..])
  }

  /** The `for chunk in byte_chunks: contents += chunk.decode('ascii')`
      loop: chunks are decoded in order and the first failure is raised. */
  function DecodeChunks(chunks: seq<seq<byte>>): (r: Result<string, FtpError>)
  {
    if chunks == [] then Ok([])
    else
      var head :- DecodeAscii(chunks[0]);
      var tail :- DecodeChunks(chunks[1..]);
      Ok(head + tail)
  }

  lemma {:induction false} DecodeAsciiAppend(a: seq<byte>, b: seq<byte>)
    ensures DecodeAscii(a + b) == (if DecodeAscii(a).Err? then DecodeAscii(a)
                                   else if DecodeAscii(b).Err? then DecodeAscii(b)
                                   else Ok(DecodeAscii(a).value + DecodeAscii(b).value))
  {
    if a == [] {
      assert a + b == b;
      assert DecodeAscii(b).Ok? ==> [] + DecodeAscii(b).value == DecodeAscii(b).value;
    } else if a[0] >= 0x80 {
      assert (a + b)[0] == a[0];
    } else {
      assert (a + b)[0] == a[0];
      assert (a + b)[1..] == a[1..] + b;
      DecodeAsciiAppend(a[1..], b);
      if DecodeAscii(a[1..]).Ok? && DecodeAscii(b).Ok? {
        var c := [a[0] as int as char];
        var x, y := DecodeAscii(a[1..]).value, DecodeAscii(b).value;
        assert c + (x + y) == (c + x) + y;
      }
    }
  }

  /** How the server splits the file into chunks makes no difference: the
      loop decodes exactly as decoding the whole file at once would. */
  lemma {:induction false} DecodeChunksIsDecodeAll(chunks: seq<seq<byte>>)
    ensures DecodeChunks(chunks) == DecodeAscii(Flatten(chunks))
  {
    if chunks != [] {
      DecodeChunksIsDecodeAll(chunks[1..]);
      DecodeAsciiAppend(chunks[0], Flatten(chunks[1..]));
    }
  }

  /** `download_file_text`: one `RETR` inside a session, then the chunks are
      decoded after the session is over. The text is the file's bytes, one
      character per byte, and any byte from 0x80 up raises. */
  function DownloadText(s: Server, directory: Option<string>, filename: string): (r: Run<string>)
    ensures Retr(filename) in r.trace <==> Open(s, directory).result.Ok?
    ensures r.result.Ok? <==> Open(s, directory).result.Ok? && s.retrieve(filename).Ok? && (s.quit.Ok? || s.close.Ok?)
                              && forall b :: b in Flatten(s.retrieve(filename).value) ==> b < 0x80
    ensures r.result.Ok? ==> s.retrieve(filename).Ok?
                             && IsAscii(r.result.value)
                             && EncodeAscii(r.result.value) == Flatten(s.retrieve(filename).value)
    ensures r.result.Ok? ==> |r.result.value| == |Flatten(s.retrieve(filename).value)|
    ensures s.retrieve(filename).Ok? && (exists b :: b in Flatten(s.retrieve(filename).value) && b >= 0x80) ==> r.result.Err?
    ensures r.result.Err? && r.result.error.NotAscii? ==>
              s.retrieve(filename).Ok? && r.result.error.value >= 0x80
              && r.result.error.value in Flatten(s.retrieve(filename).value)
  {
    var got := WithSession(s, directory, Retr(filename), s.retrieve(filename));
    match got.result
    case Err(e) => Run(got.trace, Err(e))
    case Ok(chunks) =>
      DecodedDownload(chunks);
      Run(got.trace, DecodeChunks(chunks))
  }

  /** What decoding the downloaded chunks gives: the text whose encoding is
      their concatenation when every byte is below 0x80, and otherwise the
      error for a byte at or above 0x80 that occurs in them. */
  lemma DecodedDownload(chunks: seq<seq<byte>>)
    ensures DecodeChunks(chunks).Ok? <==> forall b :: b in Flatten(chunks) ==> b < 0x80
    ensures DecodeChunks(chunks).Ok? ==> IsAscii(DecodeChunks(chunks).value)
                                         && EncodeAscii(DecodeChunks(chunks).value) == Flatten(chunks)
                                         && |DecodeChunks(chunks).value| == |Flatten(chunks)|
    ensures DecodeChunks(chunks).Err? ==> DecodeChunks(chunks).error.NotAscii?
                                          && DecodeChunks(chunks).error.value >= 0x80
                                          && DecodeChunks(chunks).error.value in Flatten(chunks)
  {
    var all := Flatten(chunks);
    DecodeChunksIsDecodeAll(chunks);
    AsciiRoundTrip([], all);
    var d := DecodeAscii(all);
    if d.Ok? {
      forall b | b in all
        ensures b < 0x80
      {
        var i :| 0 <= i < |all| && all[i] == b;
      }
    } else {
      var i :| 0 <= i < |all| && d.error == NotAscii(all[i]) && all[i] >= 0x80;
      assert all[i] in all;
    }
  }

  /** `download_file_json_dict`: `parse` stands for `json.loads`. */
  function DownloadJson(s: Server, directory: Option<string>, filename: string,
                        parse: string -> Result<ConfigDoc.Document, string>): (r: Run<ConfigDoc.Document>)
    ensures r.result.Ok? <==> DownloadText(s, directory, filename).result.Ok?
                              && parse(DownloadText(s, directory, filename).result.value).Ok?
    ensures r.result.Ok? ==> DownloadText(s, directory, filename).result.Ok?
                             && parse(DownloadText(s, directory, filename).result.value) == Ok(r.result.value)
  {
    var text := DownloadText(s, directory, filename);
    match text.result
    case Err(e) => Run(text.trace, Err(e))
    case Ok(t) =>
      match parse(t)
      case Err(e) => Run(text.trace, Err(BadJson(e)))
      case Ok(doc) => Run(text.trace, Ok(doc))
  }

  // ---------------------------------------------------------------------
  // Comparison
  // ---------------------------------------------------------------------

  /** `str()` of an optional argument, as an f-string renders it. */
  function Rendered(name: Option<string>): string {
    if name.Some? then name.value else "None"
  }

  /** `compare_file` as written: `local` is the outcome of loading the local
      file, read first; `plc_filename` is forwarded to the download as it is,
      so an omitted name requests the file called `None`. */
  function CompareFile(s: Server, directory: Option<string>, localFilename: string,
                       local: Result<ConfigDoc.Document, string>, plcFilename: Option<string>,
                       parse: string -> Result<ConfigDoc.Document, string>): (r: Run<bool>)
    ensures local.Err? ==> r == Run([], Err(LocalFile(local.error)))
    ensures r.result.Ok? <==> local.Ok? && DownloadJson(s, directory, Rendered(plcFilename), parse).result.Ok?
    ensures r.result.Ok? ==> (r.result.value <==> ConfigDoc.CanonDoc(local.value)
                                                  == ConfigDoc.CanonDoc(DownloadJson(s, directory, Rendered(plcFilename), parse).result.value))
  {
    match local
    case Err(e) => Run([], Err(LocalFile(e)))
    case Ok(mine) =>
      var theirs := DownloadJson(s, directory, Rendered(plcFilename), parse);
      match theirs.result
      case Err(e) => Run(theirs.trace, Err(e))
      case Ok(doc) =>
        ConfigDoc.DocEqCanon(mine, doc);
        Run(theirs.trace, Ok(ConfigDoc.DocEq(mine, doc)))
  }

  /** The name the docstring promises: the PLC file name, or the local
      file's basename when it is omitted. */
  function PlcName(localFilename: string, plcFilename: Option<string>): (n: string)
    ensures plcFilename.Some? ==> n == plcFilename.value
    ensures plcFilename.None? ==> n == Basename(localFilename)
  {
    if plcFilename.Some? then plcFilename.value else Basename(localFilename)
  }

  /** `compare_file` with the omitted PLC name defaulting as documented. */
  function CompareFileIntended(s: Server, directory: Option<string>, localFilename: string,
                               local: Result<ConfigDoc.Document, string>, plcFilename: Option<string>,
                               parse: string -> Result<ConfigDoc.Document, string>): (r: Run<bool>)
    ensures local.Err? ==> r == Run([], Err(LocalFile(local.error)))
    ensures local.Ok? && Open(s, directory).result.Ok? ==> Retr(PlcName(localFilename, plcFilename)) in r.trace
    ensures r.result.Ok? <==> local.Ok? && DownloadJson(s, directory, PlcName(localFilename, plcFilename), parse).result.Ok?
    ensures r.result.Ok? ==> (r.result.value <==> ConfigDoc.CanonDoc(local.value)
                                                  == ConfigDoc.CanonDoc(DownloadJson(s, directory, PlcName(localFilename, plcFilename), parse).result.value))
  {
    match local
    case Err(e) => Run([], Err(LocalFile(e)))
    case Ok(mine) =>
      var theirs := DownloadJson(s, directory, PlcName(localFilename, plcFilename), parse);
      match theirs.result
      case Err(e) => Run(theirs.trace, Err(e))
      case Ok(doc) =>
        ConfigDoc.DocEqCanon(mine, doc);
        Run(theirs.trace, Ok(ConfigDoc.DocEq(mine, doc)))
  }

  /** After a set-up made of set-up commands only, the only body command
      is the session's own. */
  lemma FinishOnlyItsBody<T>(s: Server, o: Run<string>, op: Cmd, body: Result<T, ServerError>)
    requires IsBody(op)
    requires forall i :: 0 <= i < |o.trace| ==> IsSetup(o.trace[i])
    ensures forall c :: c in Finish(s, o, op, body).trace && IsBody(c) ==> c == op
  {
    var r := Finish(s, o, op, body);
    if o.result.Ok? {
      var tail := if body.Err? then [op] else if s.quit.Ok? then [op, Quit] else [op, Quit, Close];
      assert r.trace == o.trace + tail;
      assert forall c :: c in o.trace ==> !IsBody(c);
      assert !IsBody(Quit) && !IsBody(Close);
    }
  }

  /** A session issues no body command other than its own. */
  lemma OnlyItsBodyCommand<T>(s: Server, directory: Option<string>, op: Cmd, body: Result<T, ServerError>)
    requires IsBody(op)
    ensures forall c :: c in WithSession(s, directory, op, body).trace && IsBody(c) ==> c == op
  {
    FinishOnlyItsBody(s, Open(s, directory), op, body);
  }

  /** The discrepancy: with the PLC name omitted, the code as written asks
      the server for a file named `None`, never for the local file's
      basename, which the intended definition requests. */
  lemma OmittedPlcNameRequestsNone(s: Server, directory: Option<string>, dir: string, name: string,
                                   local: ConfigDoc.Document, parse: string -> Result<ConfigDoc.Document, string>)
    requires Open(s, directory).result.Ok?
    requires '/' !in name && name != "None"
    ensures Retr("None") in CompareFile(s, directory, dir + "/" + name, Ok(local), None, parse).trace
    ensures Retr(name) !in CompareFile(s, directory, dir + "/" + name, Ok(local), None, parse).trace
    ensures Retr(name) in CompareFileIntended(s, directory, dir + "/" + name, Ok(local), None, parse).trace
  {
    BasenameAfterSlash(dir, name);
    var none := Rendered(None);
    OnlyItsBodyCommand(s, directory, Retr(none), s.retrieve(none));
  }

  /** Where a PLC name is given, the two agree. */
  lemma CompareFileIntendedAgrees(s: Server, directory: Option<string>, localFilename: string,
                                  local: Result<ConfigDoc.Document, string>, plcName: string,
                                  parse: string -> Result<ConfigDoc.Document, string>)
    ensures CompareFileIntended(s, directory, localFilename, local, Some(plcName), parse)
            == CompareFile(s, directory, localFilename, local, Some(plcName), parse)
  {
  }
}
