/** The Redis backend's options: the `redisOpts` record, its defaults and the
    `With*` option functions, each of which assigns one field of the shared
    record in place. The record also has the `username` field that the
    client construction reads. */
module RedisOptions {
  import opened Common

  /** A stand-in for a `*tls.Config`; the empty settings are `&tls.Config{}`. */
  datatype TlsConfig = TlsConfig(settings: map<string, string>)

  const EmptyTlsConfig: TlsConfig := TlsConfig(map[])

  const DefaultRedisPoolSize: int := 3
  const DefaultRedisMaxRetries: int := 3
  const DefaultRedisTimeout: int := 5 * Second
  const DefaultRedisAddr: string := "localhost:6379"
  const DefaultRedisPrefix: string := "mightymap_"

  /** The contents of a `redisOpts` record. A nil TLS config is None; the
      test handle of the mock option is modelled by whether it is set. */
  datatype RedisSettings = RedisSettings(
    addr: string,
    username: string,
    password: string,
    db: int,
    poolSize: int,
    maxRetries: int,
    tls: bool,
    tlsConfig: Option<TlsConfig>,
    prefix: string,
    timeout: int,
    expire: int,
    mock: bool)

  /** `getDefaultRedisOptions`. */
  function DefaultRedisSettings(): (o: RedisSettings)
    ensures o.addr == "localhost:6379" && o.username == "" && o.password == "" && o.db == 0
    ensures o.poolSize == 3 && o.maxRetries == 3
    ensures !o.tls && o.tlsConfig == None
    ensures o.prefix == "mightymap_" && o.timeout == 5_000_000_000 && o.expire == 0
    ensures !o.mock
  {
    RedisSettings(DefaultRedisAddr, "", "", 0, DefaultRedisPoolSize, DefaultRedisMaxRetries,
                  false, None, DefaultRedisPrefix, DefaultRedisTimeout, 0, false)
  }

  /** The option functions. */
  datatype RedisOption =
    | WithExpire(expire: int)
    | WithTimeout(timeout: int)
    | WithAddr(addr: string)
    | WithPassword(password: string)
    | WithDB(db: int)
    | WithPoolSize(poolSize: int)
    | WithMaxRetries(maxRetries: int)
    | WithTLS(tls: bool)
    | WithTLSConfig(config: Option<TlsConfig>)
    | WithPrefix(prefix: string)
    | WithMock(mock: bool)

  /** What one option does to the record. `WithTLSConfig` is the odd one: on
      a record without a TLS config it installs an empty config and drops its
      argument; only on a record that already has one does it store the
      argument (which may be nil). */
  function ApplyRedisOption(o: RedisSettings, opt: RedisOption): (r: RedisSettings)
    ensures opt.WithTLSConfig? && o.tlsConfig == None ==> r.tlsConfig == Some(EmptyTlsConfig)
    ensures opt.WithTLSConfig? && o.tlsConfig != None ==> r.tlsConfig == opt.config
    ensures opt.WithPrefix? ==> r.prefix == opt.prefix
  {
    match opt
    case WithExpire(expire) => o.(expire := expire)
    case WithTimeout(timeout) => o.(timeout := timeout)
    case WithAddr(addr) => o.(addr := addr)
    case WithPassword(password) => o.(password := password)
    case WithDB(db) => o.(db := db)
    case WithPoolSize(poolSize) => o.(poolSize := poolSize)
    case WithMaxRetries(maxRetries) => o.(maxRetries := maxRetries)
    case WithTLS(tls) => o.(tls := tls)
    case WithTLSConfig(config) =>
      if o.tlsConfig == None then o.(tlsConfig := Some(EmptyTlsConfig)) else o.(tlsConfig := config)
    case WithPrefix(prefix) => o.(prefix := prefix)
    case WithMock(mock) => o.(mock := mock)
  }

  /** Each option changes only its own field: every field an option does not
      name keeps its value. */
  lemma OptionChangesOnlyItsField(o: RedisSettings, opt: RedisOption)
    ensures var r := ApplyRedisOption(o, opt);
      && (r.addr != o.addr ==> opt.WithAddr?)
      && r.username == o.username
      && (r.password != o.password ==> opt.WithPassword?)
      && (r.db != o.db ==> opt.WithDB?)
      && (r.poolSize != o.poolSize ==> opt.WithPoolSize?)
      && (r.maxRetries != o.maxRetries ==> opt.WithMaxRetries?)
      && (r.tls != o.tls ==> opt.WithTLS?)
      && (r.tlsConfig != o.tlsConfig ==> opt.WithTLSConfig?)
      && (r.prefix != o.prefix ==> opt.WithPrefix?)
      && (r.timeout != o.timeout ==> opt.WithTimeout?)
      && (r.expire != o.expire ==> opt.WithExpire?)
      && (r.mock != o.mock ==> opt.WithMock?)
  {
  }

  /** The options applied in order. */
  function ApplyRedisOptions(o: RedisSettings, options: seq<RedisOption>): (r: RedisSettings)
    decreases |options|
  {
    if options == [] then o
    else ApplyRedisOptions(ApplyRedisOption(o, options[0]), options[1..])
  }

  /** The argument of `WithTLSConfig` only sticks the second time: the first
      call on a record without a config installs an empty one. */
  lemma TlsConfigNeedsTwoCalls(o: RedisSettings, c: TlsConfig)
    requires o.tlsConfig == None
    ensures ApplyRedisOptions(o, [WithTLSConfig(Some(c))]).tlsConfig == Some(EmptyTlsConfig)
    ensures ApplyRedisOptions(o, [WithTLSConfig(Some(c)), WithTLSConfig(Some(c))]).tlsConfig == Some(c)
  {
    var once := ApplyRedisOption(o, WithTLSConfig(Some(c)));
    assert [WithTLSConfig(Some(c))][1..] == [];
    assert ApplyRedisOptions(once, []) == once;
    assert [WithTLSConfig(Some(c)), WithTLSConfig(Some(c))][1..] == [WithTLSConfig(Some(c))];
    assert ApplyRedisOptions(once, [WithTLSConfig(Some(c))]) == ApplyRedisOption(once, WithTLSConfig(Some(c)));
  }

  /** One option sets the prefix when it is a prefix option and keeps it
      otherwise. */
  lemma PrefixStep(o: RedisSettings, opt: RedisOption)
    ensures ApplyRedisOption(o, opt).prefix == if opt.WithPrefix? then opt.prefix else o.prefix
  {
  }

  /** The prefix is the one the last prefix option sets, or the starting
      prefix when there is none. */
  lemma {:induction false} PrefixOfOptions(o: RedisSettings, options: seq<RedisOption>)
    ensures (forall i :: 0 <= i < |options| ==> !options[i].WithPrefix?) ==>
      ApplyRedisOptions(o, options).prefix == o.prefix
    ensures forall i ::
      (0 <= i < |options| && options[i].WithPrefix? &&
       (forall j :: i < j < |options| ==> !options[j].WithPrefix?))
      ==> ApplyRedisOptions(o, options).prefix == options[i].prefix
    decreases |options|
  {
    if options != [] {
      var rest := options[1..];
      var first := ApplyRedisOption(o, options[0]);
      PrefixStep(o, options[0]);
      assert ApplyRedisOptions(o, options) == ApplyRedisOptions(first, rest);
      PrefixOfOptions(first, rest);
      forall i | 0 <= i < |options| && options[i].WithPrefix? &&
        (forall j :: i < j < |options| ==> !options[j].WithPrefix?)
        ensures ApplyRedisOptions(o, options).prefix == options[i].prefix
      {
        forall j | i <= j < |rest| ensures !rest[j].WithPrefix? {
          assert rest[j] == options[j + 1];
        }
        if i > 0 {
          assert rest[i - 1] == options[i];
        }
      }
    }
  }

  /** The construction-time TLS fix-up: TLS enabled without a config gets an
      empty config. */
  function WithTlsDefault(o: RedisSettings): (r: RedisSettings)
    ensures r.tls ==> r.tlsConfig.Some?
    ensures o.tlsConfig.Some? ==> r == o
    ensures !o.tls ==> r == o
    ensures o.tls && o.tlsConfig == None ==> r == o.(tlsConfig := Some(EmptyTlsConfig))
  {
    if o.tlsConfig == None && o.tls then o.(tlsConfig := Some(EmptyTlsConfig)) else o
  }

  /** The options handed to the Redis client. */
  datatype ClientOptions = ClientOptions(
    addr: string,
    username: string,
    password: string,
    db: int,
    poolSize: int,
    maxRetries: int,
    tlsConfig: Option<TlsConfig>)

  /** The client options built from the record: connection fields copied,
      the TLS config only when TLS is on, and with a mock only the mock
      server's address, everything else left at Go's zero values. */
  function ClientOptionsFor(o: RedisSettings, mockAddr: string): (c: ClientOptions)
    ensures o.mock ==> c == ClientOptions(mockAddr, "", "", 0, 0, 0, None)
    ensures !o.mock ==> c.addr == o.addr && c.username == o.username && c.password == o.password
    ensures !o.mock ==> c.db == o.db && c.poolSize == o.poolSize && c.maxRetries == o.maxRetries
    ensures !o.mock ==> c.tlsConfig == if o.tls then o.tlsConfig else None
  {
    if o.mock then ClientOptions(mockAddr, "", "", 0, 0, 0, None)
    else
      ClientOptions(o.addr, o.username, o.password, o.db, o.poolSize, o.maxRetries,
                    if o.tls then o.tlsConfig else None)
  }

  /** With TLS enabled and no mock, the client always gets a TLS config. */
  lemma TlsClientGetsConfig(o: RedisSettings, mockAddr: string)
    requires o.tls && !o.mock
    ensures ClientOptionsFor(WithTlsDefault(o), mockAddr).tlsConfig.Some?
  {
  }

  /** A `redisOpts` record the option functions update in place. */
  class RedisOpts {
    var addr: string
    var username: string
    var password: string
    var db: int
    var poolSize: int
    var maxRetries: int
    var tls: bool
    var tlsConfig: Option<TlsConfig>
    var prefix: string
    var timeout: int
    var expire: int
    var mock: bool

    /** The record's contents. */
    function Snapshot(): (o: RedisSettings)
      reads this
    {
      RedisSettings(addr, username, password, db, poolSize, maxRetries, tls, tlsConfig,
                    prefix, timeout, expire, mock)
    }

    /** `getDefaultRedisOptions`. */
    constructor ()
      ensures Snapshot() == DefaultRedisSettings()
    {
      addr, username, password, db := DefaultRedisAddr, "", "", 0;
      poolSize, maxRetries := DefaultRedisPoolSize, DefaultRedisMaxRetries;
      tls, tlsConfig := false, None;
      prefix, timeout, expire, mock := DefaultRedisPrefix, DefaultRedisTimeout, 0, false;
    }

    /** Runs one option function on the record. */
    method Apply(opt: RedisOption)
      modifies this
      ensures Snapshot() == ApplyRedisOption(old(Snapshot()), opt)
    {
      ghost var before := Snapshot();
      match opt
      case WithExpire(e) =>
        expire := e;
        assert Snapshot() == before.(expire := e);
      case WithTimeout(t) =>
        timeout := t;
        assert Snapshot() == before.(timeout := t);
      case WithAddr(a) =>
        addr := a;
        assert Snapshot() == before.(addr := a);
      case WithPassword(p) =>
        password := p;
        assert Snapshot() == before.(password := p);
      case WithDB(d) =>
        db := d;
        assert Snapshot() == before.(db := d);
      case WithPoolSize(n) =>
        poolSize := n;
        assert Snapshot() == before.(poolSize := n);
      case WithMaxRetries(n) =>
        maxRetries := n;
        assert Snapshot() == before.(maxRetries := n);
      case WithTLS(b) =>
        tls := b;
        assert Snapshot() == before.(tls := b);
      case WithTLSConfig(config) =>
        if tlsConfig == None {
          tlsConfig := Some(EmptyTlsConfig);
          assert Snapshot() == before.(tlsConfig := Some(EmptyTlsConfig));
          return;
        }
        tlsConfig := config;
        assert Snapshot() == before.(tlsConfig := config);
      case WithPrefix(p) =>
        prefix := p;
        assert Snapshot() == before.(prefix := p);
      case WithMock(m) =>
        mock := m;
        assert Snapshot() == before.(mock := m);
    }

    /** The start of `NewMightyMapRedisStorage`: the options applied in order
        over the defaults, then the TLS fix-up. */
    method ApplyAll(options: seq<RedisOption>)
      modifies this
      ensures Snapshot() == WithTlsDefault(ApplyRedisOptions(old(Snapshot()), options))
    {
      var i := 0;
      while i < |options|
        invariant 0 <= i <= |options|
        invariant ApplyRedisOptions(Snapshot(), options[i..]) == ApplyRedisOptions(old(Snapshot()), options)
      {
        assert options[i..][1..] == options[i + 1..];
        Apply(options[i]);
        i := i + 1;
      }
      if tlsConfig == None && tls {
        tlsConfig := Some(EmptyTlsConfig);
      }
    }
  }
}
