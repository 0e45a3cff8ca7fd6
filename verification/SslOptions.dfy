/** The client's SSL options: the option cases of sslopt-case.h folded over a command line, and the connection
    settings sslopt-vars.h makes of the result. The value of `--ssl-mode` is the mode find_type_or_exit
    returned. */
module SslOptions {
  import opened Options

  const DISABLED := 1
  const PREFERRED := 2
  const REQUIRED := 3
  const VERIFY_CA := 4
  const VERIFY_IDENTITY := 5

  type Mode = m: int | 1 <= m <= 5 witness 1

  datatype ClientOption =
    | SslMode(mode: Mode)
    | Ssl(on: bool)
    | VerifyServerCert(on: bool)
    | Ca(path: string)
    | CaPath(path: string)
    | Key(path: string)
    | Cert(path: string)
    | Cipher(list: string)
    | Crl(path: string)
    | CrlPath(path: string)
    | TlsVersion(list: string)
  {
    predicate Deprecated() { Ssl? || VerifyServerCert? }
    predicate NamesCa() { Ca? || CaPath? }
    // Takes a mode that was not chosen explicitly to VERIFY_CA or above.
    predicate Raises() { NamesCa() || this == VerifyServerCert(true) }
  }

  // The option variables.
  datatype Settings = Settings(
    mode: Mode,
    explicit: bool,
    ca: Option<string>,
    capath: Option<string>,
    cert: Option<string>,
    cipher: Option<string>,
    key: Option<string>,
    crl: Option<string>,
    crlpath: Option<string>,
    tls: Option<string>)

  const DEFAULTS := Settings(PREFERRED, false, None, None, None, None, None, None, None, None)

  function Handle(s: Settings, o: ClientOption): Settings {
    match o
    case SslMode(m) => s.(mode := m, explicit := true)
    case Ssl(on) => s.(mode := if !on then DISABLED else if s.mode < REQUIRED then REQUIRED else s.mode)
    case VerifyServerCert(on) =>
      s.(mode := if on then VERIFY_IDENTITY else if s.mode >= VERIFY_IDENTITY then VERIFY_CA else s.mode)
    case Ca(p) => s.(ca := Some(p), mode := if s.explicit then s.mode else VERIFY_CA)
    case CaPath(p) => s.(capath := Some(p), mode := if s.explicit then s.mode else VERIFY_CA)
    case Key(p) => s.(key := Some(p))
    case Cert(p) => s.(cert := Some(p))
    case Cipher(c) => s.(cipher := Some(c))
    case Crl(p) => s.(crl := Some(p))
    case CrlPath(p) => s.(crlpath := Some(p))
    case TlsVersion(v) => s.(tls := Some(v))
  }

  // The settings after a command line, first option first.
  function Process(opts: seq<ClientOption>): Settings {
    if opts == [] then DEFAULTS else Handle(Process(opts[..|opts| - 1]), opts[|opts| - 1])
  }

  // What set_client_ssl_options prints and hands to the connection.
  datatype Connection = Connection(
    warned: bool,
    key: Option<string>,
    cert: Option<string>,
    ca: Option<string>,
    capath: Option<string>,
    cipher: Option<string>,
    crl: Option<string>,
    crlpath: Option<string>,
    tls: Option<string>,
    mode: Mode)

  function Connect(s: Settings): Connection {
    var verify := s.mode >= VERIFY_CA;
    Connection(s.explicit && !verify && (s.ca.Some? || s.capath.Some?),
               s.key, s.cert,
               if verify then s.ca else None,
               if verify then s.capath else None,
               s.cipher, s.crl, s.crlpath, s.tls, s.mode)
  }

  /** The static option variables, updated in place. */
  class OptionVariables {
    var sslMode: Mode
    var sslModeSetExplicitly: bool
    var sslCa: Option<string>
    var sslCapath: Option<string>
    var sslCert: Option<string>
    var sslCipher: Option<string>
    var sslKey: Option<string>
    var sslCrl: Option<string>
    var sslCrlpath: Option<string>
    var tlsVersion: Option<string>

    function Current(): Settings
      reads this
    {
      Settings(sslMode, sslModeSetExplicitly, sslCa, sslCapath, sslCert, sslCipher, sslKey, sslCrl, sslCrlpath,
               tlsVersion)
    }

    constructor ()
      ensures Current() == Process([])
    {
      sslMode, sslModeSetExplicitly := PREFERRED, false;
      sslCa, sslCapath, sslCert, sslCipher := None, None, None, None;
      sslKey, sslCrl, sslCrlpath, tlsVersion := None, None, None, None;
    }

    // The option parser stores the argument, then runs the option's case.
    method HandleOption(o: ClientOption, ghost before: seq<ClientOption>)
      requires Current() == Process(before)
      modifies this
      ensures Current() == Process(before + [o])
    {
      assert (before + [o])[..|before|] == before;
      match o {
        case SslMode(m) =>
          sslMode := m;
          sslModeSetExplicitly := true;
        case Ssl(on) =>
          if !on {
            sslMode := DISABLED;
          } else if sslMode < REQUIRED {
            sslMode := REQUIRED;
          }
        case VerifyServerCert(on) =>
          if !on {
            if sslMode >= VERIFY_IDENTITY {
              sslMode := VERIFY_CA;
            }
          } else {
            sslMode := VERIFY_IDENTITY;
          }
        case Ca(p) =>
          sslCa := Some(p);
          if !sslModeSetExplicitly {
            sslMode := VERIFY_CA;
          }
        case CaPath(p) =>
          sslCapath := Some(p);
          if !sslModeSetExplicitly {
            sslMode := VERIFY_CA;
          }
        case Key(p) => sslKey := Some(p);
        case Cert(p) => sslCert := Some(p);
        case Cipher(c) => sslCipher := Some(c);
        case Crl(p) => sslCrl := Some(p);
        case CrlPath(p) => sslCrlpath := Some(p);
        case TlsVersion(v) => tlsVersion := Some(v);
      }
    }

    method SetClientSslOptions() returns (c: Connection)
      ensures c == Connect(Current())
    {
      var warned := sslModeSetExplicitly && sslMode < VERIFY_CA && (sslCa.Some? || sslCapath.Some?);
      if sslMode >= VERIFY_CA {
        c := Connection(warned, sslKey, sslCert, sslCa, sslCapath, sslCipher, sslCrl, sslCrlpath, tlsVersion, sslMode);
      } else {
        c := Connection(warned, sslKey, sslCert, None, None, sslCipher, sslCrl, sslCrlpath, tlsVersion, sslMode);
      }
    }
  }

  // ---------- the final mode without deprecated options ----------

  predicate GivesCa(opts: seq<ClientOption>) { exists o <- opts :: o.NamesCa() }
  predicate GivesMode(opts: seq<ClientOption>) { exists o <- opts :: o.SslMode? }

  // The modes named by --ssl-mode, in order.
  function Modes(opts: seq<ClientOption>): seq<Mode> {
    if opts == [] then []
    else
      var last := opts[|opts| - 1];
      Modes(opts[..|opts| - 1]) + (if last.SslMode? then [last.mode] else [])
  }

  lemma GivesLast(opts: seq<ClientOption>)
    requires opts != []
    ensures var init, last := opts[..|opts| - 1], opts[|opts| - 1];
            && GivesCa(opts) == (GivesCa(init) || last.NamesCa())
            && GivesMode(opts) == (GivesMode(init) || last.SslMode?)
            && EverRaised(opts) == (EverRaised(init) || last.Raises())
  {
    var init, last := opts[..|opts| - 1], opts[|opts| - 1];
    assert opts == init + [last];
    assert last in opts;
    forall o | o in init
      ensures o in opts
    {
    }
  }

  lemma {:induction false} ProcessFlags(opts: seq<ClientOption>)
    ensures Process(opts).explicit == GivesMode(opts) == (Modes(opts) != [])
    ensures (Process(opts).ca.Some? || Process(opts).capath.Some?) == GivesCa(opts)
  {
    if opts != [] {
      var n := |opts| - 1;
      ProcessFlags(opts[..n]);
      GivesLast(opts);
    }
  }

  /** Without deprecated options the final mode is the last one named by --ssl-mode, or else VERIFY_CA if a CA
      file or directory was given, or else PREFERRED. */
  lemma {:induction false} FinalMode(opts: seq<ClientOption>)
    requires forall o <- opts :: !o.Deprecated()
    ensures Process(opts).mode ==
            var ms := Modes(opts);
            if ms != [] then ms[|ms| - 1] else if GivesCa(opts) then VERIFY_CA else PREFERRED
  {
    if opts != [] {
      var n := |opts| - 1;
      assert opts[n] in opts;
      FinalMode(opts[..n]);
      ProcessFlags(opts[..n]);
      GivesLast(opts);
    }
  }

  /** So how CA options are interleaved with mode options does not matter. */
  lemma CaOrderDoesNotMatter(a: seq<ClientOption>, b: seq<ClientOption>)
    requires forall o <- a :: !o.Deprecated()
    requires forall o <- b :: !o.Deprecated()
    requires Modes(a) == Modes(b) && GivesCa(a) == GivesCa(b)
    ensures Process(a).mode == Process(b).mode
  {
    FinalMode(a);
    FinalMode(b);
  }

  // ---------- the final mode of any command line ----------

  // A CA option sets the mode unless one was named before it.
  predicate CaSetsMode(opts: seq<ClientOption>, i: nat)
    requires i < |opts|
  {
    opts[i].NamesCa() && !GivesMode(opts[..i])
  }

  // Whatever the mode was, the option at a position leaves it at a level or above.
  predicate Lifts(opts: seq<ClientOption>, i: nat, level: Mode)
    requires i < |opts|
  {
    || opts[i] == VerifyServerCert(true)
    || (opts[i] == Ssl(true) && level <= REQUIRED)
    || (opts[i].SslMode? && opts[i].mode >= level)
    || (CaSetsMode(opts, i) && level <= VERIFY_CA)
  }

  // Whatever the mode was, the option at a position leaves it below a level.
  predicate Lowers(opts: seq<ClientOption>, i: nat, level: Mode)
    requires i < |opts|
  {
    || (opts[i] == Ssl(false) && level > DISABLED)
    || (opts[i].SslMode? && opts[i].mode < level)
    || (opts[i] == VerifyServerCert(false) && level > VERIFY_CA)
    || (CaSetsMode(opts, i) && level > VERIFY_CA)
  }

  predicate KeptFrom(opts: seq<ClientOption>, i: nat, level: Mode) {
    forall j :: i <= j < |opts| ==> !Lowers(opts, j, level)
  }

  predicate ReachedAt(opts: seq<ClientOption>, i: nat, level: Mode)
    requires i < |opts|
  {
    Lifts(opts, i, level) && KeptFrom(opts, i + 1, level)
  }

  // The mode starts at the level or an option lifts it there, and no later option lowers it.
  predicate Reached(opts: seq<ClientOption>, level: Mode) {
    (level <= PREFERRED && KeptFrom(opts, 0, level)) || exists i :: 0 <= i < |opts| && ReachedAt(opts, i, level)
  }

  lemma EffectsInInit(opts: seq<ClientOption>, n: nat, level: Mode)
    requires |opts| == n + 1
    ensures forall i :: 0 <= i < n ==> Lifts(opts[..n], i, level) == Lifts(opts, i, level)
    ensures forall i :: 0 <= i <= n ==>
              KeptFrom(opts, i, level) == (KeptFrom(opts[..n], i, level) && !Lowers(opts, n, level))
  {
    forall i | 0 <= i < n
      ensures Lifts(opts[..n], i, level) == Lifts(opts, i, level)
      ensures Lowers(opts[..n], i, level) == Lowers(opts, i, level)
    {
      assert opts[..n][..i] == opts[..i];
    }
  }

  lemma ReachedLast(opts: seq<ClientOption>, n: nat, level: Mode)
    requires |opts| == n + 1
    ensures Reached(opts, level) ==
            (Lifts(opts, n, level) || (Reached(opts[..n], level) && !Lowers(opts, n, level)))
  {
    EffectsInInit(opts, n, level);
    var init := opts[..n];
    if Lifts(opts, n, level) {
      assert ReachedAt(opts, n, level);
    } else if i :| 0 <= i < n && ReachedAt(opts, i, level) {
      assert ReachedAt(init, i, level);
    } else if i :| 0 <= i < n && ReachedAt(init, i, level) {
      assert !Lowers(opts, n, level) ==> ReachedAt(opts, i, level);
    }
  }

  /** For every command line, the final mode is at a level or above exactly when it started there or some option
      lifts it there, and no option after that lowers it below. */
  lemma {:induction false} ModeExactly(opts: seq<ClientOption>, level: Mode)
    ensures Process(opts).mode >= level <==> Reached(opts, level)
  {
    if opts != [] {
      var n := |opts| - 1;
      ReachedLast(opts, n, level);
      ModeExactly(opts[..n], level);
      ProcessFlags(opts[..n]);
    }
  }

  predicate LiftsToVerification(opts: seq<ClientOption>, i: nat)
    requires i < |opts|
  {
    opts[i] in [VerifyServerCert(true), SslMode(VERIFY_CA), SslMode(VERIFY_IDENTITY)] || CaSetsMode(opts, i)
  }

  predicate EndsVerification(o: ClientOption) {
    o in [Ssl(false), SslMode(DISABLED), SslMode(PREFERRED), SslMode(REQUIRED)]
  }

  /** So the server is verified exactly when `--ssl-verify-server-cert`, a verifying mode, or a CA option with no
      mode named before it is given, with neither `--ssl` turned off nor a lesser mode named after it. */
  lemma VerifiedExactly(opts: seq<ClientOption>)
    ensures Process(opts).mode >= VERIFY_CA <==>
            exists i :: 0 <= i < |opts| && LiftsToVerification(opts, i)
                        && forall j :: i < j < |opts| ==> !EndsVerification(opts[j])
  {
    ModeExactly(opts, VERIFY_CA);
    forall i | 0 <= i < |opts|
      ensures Lifts(opts, i, VERIFY_CA) <==> LiftsToVerification(opts, i)
      ensures Lowers(opts, i, VERIFY_CA) <==> EndsVerification(opts[i])
    {
    }
    if i :| 0 <= i < |opts| && LiftsToVerification(opts, i)
            && forall j :: i < j < |opts| ==> !EndsVerification(opts[j]) {
      assert ReachedAt(opts, i, VERIFY_CA);
    }
  }

  // ---------- what happens to a CA ----------

  // --ssl was turned off and nothing after it raises the mode again.
  predicate LoweredForGood(opts: seq<ClientOption>) {
    exists i :: 0 <= i < |opts| && LoweredAt(opts, i)
  }

  predicate LoweredAt(opts: seq<ClientOption>, i: nat)
    requires i < |opts|
  {
    opts[i] == Ssl(false) && forall j :: i < j < |opts| ==> !opts[j].Raises()
  }

  predicate EverRaised(opts: seq<ClientOption>) { exists o <- opts :: o.Raises() }

  lemma LoweredLast(opts: seq<ClientOption>)
    requires opts != []
    ensures var init, last := opts[..|opts| - 1], opts[|opts| - 1];
            LoweredForGood(opts) == (last == Ssl(false) || (LoweredForGood(init) && !last.Raises()))
  {
    var n := |opts| - 1;
    var init, last := opts[..n], opts[n];
    if last == Ssl(false) {
      assert LoweredAt(opts, n);
    } else if LoweredForGood(opts) {
      var i :| 0 <= i < |opts| && LoweredAt(opts, i);
      assert LoweredAt(init, i);
    } else if LoweredForGood(init) {
      var i :| 0 <= i < |init| && LoweredAt(init, i);
      assert !last.Raises() ==> LoweredAt(opts, i);
    }
  }

  lemma {:induction false} UnchosenMode(opts: seq<ClientOption>)
    requires !GivesMode(opts)
    ensures Process(opts).mode >= VERIFY_CA <==> EverRaised(opts) && !LoweredForGood(opts)
  {
    if opts != [] {
      var init := opts[..|opts| - 1];
      GivesLast(opts);
      LoweredLast(opts);
      UnchosenMode(init);
      ProcessFlags(init);
    }
  }

  // A CA that was given reaches the connection, or the missing verification is announced.
  predicate CaAccountedFor(opts: seq<ClientOption>) {
    var c := Connect(Process(opts));
    c.ca.Some? || c.capath.Some? || c.warned
  }

  /** A CA that was given is dropped without a word exactly when no mode was named, and --ssl was turned off
      with nothing after it raising the mode. */
  lemma CaDroppedSilently(opts: seq<ClientOption>)
    requires GivesCa(opts)
    ensures CaAccountedFor(opts) <==> GivesMode(opts) || !LoweredForGood(opts)
  {
    ProcessFlags(opts);
    if !GivesMode(opts) {
      UnchosenMode(opts);
      assert EverRaised(opts);
    }
  }

  /** In particular a CA is accounted for, deprecated options or not, if --ssl is never turned off. */
  lemma CaAccountedForUnlessTurnedOff(opts: seq<ClientOption>)
    requires GivesCa(opts) && Ssl(false) !in opts
    ensures CaAccountedFor(opts)
  {
    CaDroppedSilently(opts);
  }

  /** Turning --ssl off and on again after a CA requires encryption but drops the CA in silence. */
  lemma CaDroppedExample(path: string)
    ensures var opts := [Ca(path), Ssl(false), Ssl(true)];
            Process(opts).mode == REQUIRED && !CaAccountedFor(opts)
  {
    var opts := [Ca(path), Ssl(false), Ssl(true)];
    assert opts[..2] == [Ca(path), Ssl(false)];
    assert [Ca(path), Ssl(false)][..1] == [Ca(path)];
    assert [Ca(path)][..0] == [];
    assert Process([Ca(path)]) == Handle(DEFAULTS, Ca(path));
    assert Process([Ca(path), Ssl(false)]) == Handle(Process([Ca(path)]), Ssl(false));
  }

  // ---------- what the connection is given ----------

  function KeyOf(o: ClientOption): Option<string> { if o.Key? then Some(o.path) else None }
  function CertOf(o: ClientOption): Option<string> { if o.Cert? then Some(o.path) else None }
  function CaOf(o: ClientOption): Option<string> { if o.Ca? then Some(o.path) else None }
  function CaPathOf(o: ClientOption): Option<string> { if o.CaPath? then Some(o.path) else None }
  function CipherOf(o: ClientOption): Option<string> { if o.Cipher? then Some(o.list) else None }
  function CrlOf(o: ClientOption): Option<string> { if o.Crl? then Some(o.path) else None }
  function CrlPathOf(o: ClientOption): Option<string> { if o.CrlPath? then Some(o.path) else None }
  function TlsOf(o: ClientOption): Option<string> { if o.TlsVersion? then Some(o.list) else None }

  // The argument of the last option of a kind.
  function LastArgument(opts: seq<ClientOption>, argument: ClientOption -> Option<string>): Option<string> {
    if opts == [] then None
    else Newer(argument(opts[|opts| - 1]), LastArgument(opts[..|opts| - 1], argument))
  }

  function Newer(a: Option<string>, b: Option<string>): Option<string> { if a.Some? then a else b }

  lemma {:induction false} SettingsAreLastArguments(opts: seq<ClientOption>)
    ensures Process(opts).key == LastArgument(opts, KeyOf)
    ensures Process(opts).cert == LastArgument(opts, CertOf)
    ensures Process(opts).ca == LastArgument(opts, CaOf)
    ensures Process(opts).capath == LastArgument(opts, CaPathOf)
    ensures Process(opts).cipher == LastArgument(opts, CipherOf)
    ensures Process(opts).crl == LastArgument(opts, CrlOf)
    ensures Process(opts).crlpath == LastArgument(opts, CrlPathOf)
    ensures Process(opts).tls == LastArgument(opts, TlsOf)
  {
    if opts != [] {
      var init, last := opts[..|opts| - 1], opts[|opts| - 1];
      SettingsAreLastArguments(init);
      HandleStores(Process(init), last);
    }
  }

  // An option replaces its own argument and leaves the others.
  lemma HandleStores(s: Settings, o: ClientOption)
    ensures Handle(s, o).key == Newer(KeyOf(o), s.key)
    ensures Handle(s, o).cert == Newer(CertOf(o), s.cert)
    ensures Handle(s, o).ca == Newer(CaOf(o), s.ca)
    ensures Handle(s, o).capath == Newer(CaPathOf(o), s.capath)
    ensures Handle(s, o).cipher == Newer(CipherOf(o), s.cipher)
    ensures Handle(s, o).crl == Newer(CrlOf(o), s.crl)
    ensures Handle(s, o).crlpath == Newer(CrlPathOf(o), s.crlpath)
    ensures Handle(s, o).tls == Newer(TlsOf(o), s.tls)
  {
  }

  /** For every command line the connection is given, kind by kind, the argument of the last such option; the CA
      ones only if the server is verified. Its mode is the final one, at every level as the options decide. The
      warning is given exactly when a mode was named, a CA was given and the server is not verified. */
  lemma ConnectionExact(opts: seq<ClientOption>, level: Mode)
    ensures var c := Connect(Process(opts));
            && c.key == LastArgument(opts, KeyOf)
            && c.cert == LastArgument(opts, CertOf)
            && c.cipher == LastArgument(opts, CipherOf)
            && c.crl == LastArgument(opts, CrlOf)
            && c.crlpath == LastArgument(opts, CrlPathOf)
            && c.tls == LastArgument(opts, TlsOf)
            && c.ca == (if Reached(opts, VERIFY_CA) then LastArgument(opts, CaOf) else None)
            && c.capath == (if Reached(opts, VERIFY_CA) then LastArgument(opts, CaPathOf) else None)
            && (c.mode >= level <==> Reached(opts, level))
            && (c.warned <==> GivesMode(opts) && GivesCa(opts) && !Reached(opts, VERIFY_CA))
  {
    SettingsAreLastArguments(opts);
    ProcessFlags(opts);
    ModeExactly(opts, level);
    ModeExactly(opts, VERIFY_CA);
  }
}
