/** The Redis backend: a byte storage over a Redis server, modelled as the
    server's whole key space, a map from key bytes to value bytes. Every
    backend key is the configured prefix followed by the msgpack encoding of
    the user's key; keys are found with SCAN over the pattern `prefix*`, and a
    scanned key is turned back into a user key by splitting it at the first
    occurrence of the prefix. SCAN's replies are a parameter: for each cursor,
    the page of keys and the next cursor. */
module RedisStore {
  import opened Common
  import opened Contract
  import opened ByteKeys
  import opened RedisOptions

  /** Go's conversion of the prefix string to bytes, one byte per character
      (exact for ASCII prefixes). */
  function AsBytes(s: string): (b: Bytes)
    ensures |b| == |s|
    ensures forall i :: 0 <= i < |s| && (s[i] as int) < 256 ==> b[i] == s[i] as int
  {
    seq(|s|, i requires 0 <= i < |s| => (s[i] as int) % 256)
  }

  // ---------------------------------------------------------------------
  // Key splitting

  predicate HasPrefix(b: Bytes, prefix: Bytes)
  {
    |prefix| <= |b| && b[..|prefix|] == prefix
  }

  /** `sep` occurs in `s` at position `j`. */
  predicate OccursAt(s: Bytes, sep: Bytes, j: nat)
  {
    j + |sep| <= |s| && s[j..j + |sep|] == sep
  }

  /** The first position from `from` on where `sep` occurs in `s`. */
  function IndexFrom(s: Bytes, sep: Bytes, from: nat): (r: Option<nat>)
    ensures r.Some? ==> from <= r.value && OccursAt(s, sep, r.value)
    ensures r.Some? ==> forall j: nat :: from <= j < r.value ==> !OccursAt(s, sep, j)
    ensures r.None? ==> forall j: nat :: from <= j ==> !OccursAt(s, sep, j)
    decreases |s| - from
  {
    if from + |sep| > |s| then None
    else if s[from..from + |sep|] == sep then Some(from)
    else IndexFrom(s, sep, from + 1)
  }

  /** A UTF-8 continuation byte, `10xxxxxx`. */
  predicate IsContinuation(b: byte)
  {
    0x80 <= b <= 0xBF
  }

  /** The width of the first character of `s` as `utf8.DecodeRuneInString`
      reads it: the length of a well-formed UTF-8 sequence at the front (no
      overlong forms, no surrogates, nothing above U+10FFFF), and 1 for a
      byte that starts none. */
  function RuneWidth(s: Bytes): (w: nat)
    requires |s| > 0
    ensures 1 <= w <= 4 && w <= |s|
    ensures s[0] < 0x80 ==> w == 1
    ensures w > 1 ==> 0xC2 <= s[0] <= 0xF4 && forall j :: 1 <= j < w ==> IsContinuation(s[j])
  {
    var b0 := s[0];
    if b0 < 0x80 then 1
    else if 0xC2 <= b0 <= 0xDF then
      if |s| >= 2 && IsContinuation(s[1]) then 2 else 1
    else if 0xE0 <= b0 <= 0xEF then
      var lo := if b0 == 0xE0 then 0xA0 else 0x80;
      var hi := if b0 == 0xED then 0x9F else 0xBF;
      if |s| >= 3 && lo <= s[1] <= hi && IsContinuation(s[2]) then 3 else 1
    else if 0xF0 <= b0 <= 0xF4 then
      var lo := if b0 == 0xF0 then 0x90 else 0x80;
      var hi := if b0 == 0xF4 then 0x8F else 0xBF;
      if |s| >= 4 && lo <= s[1] <= hi && IsContinuation(s[2]) && IsContinuation(s[3]) then 4 else 1
    else 1
  }

  /** `strings.SplitN(s, sep, 2)`. With a separator: the parts before and
      after its first occurrence, or `s` alone when it does not occur. With an
      empty separator the first character (one UTF-8 sequence, or one byte
      that starts none) is split off; a string of one character is one part
      and the empty string none. */
  function SplitN2(s: Bytes, sep: Bytes): (parts: seq<Bytes>)
    ensures |parts| <= 2
  {
    if |sep| == 0 then
      if |s| == 0 then []
      else
        var w := RuneWidth(s);
        if w == |s| then [s] else [s[..w], s[w..]]
    else
      match IndexFrom(s, sep, 0)
      case None => [s]
      case Some(i) => [s[..i], s[i + |sep|..]]
  }

  /** What SplitN2 returns: with a separator, two parts exactly when the
      separator occurs, joined by it they give back `s`, and the first part
      holds no occurrence; with an empty separator, two parts exactly when `s`
      holds more than one character, and they are its first character and
      the rest. */
  lemma SplitN2Parts(s: Bytes, sep: Bytes)
    ensures var parts := SplitN2(s, sep);
      && (|sep| > 0 && |parts| == 2 ==>
            s == parts[0] + sep + parts[1] && forall j: nat :: j < |parts[0]| ==> !OccursAt(s, sep, j))
      && (|sep| > 0 && |parts| != 2 ==> parts == [s] && forall j: nat :: !OccursAt(s, sep, j))
      && (|sep| == 0 ==> (|parts| == 2 <==> |s| > 0 && RuneWidth(s) < |s|))
      && (|sep| == 0 && |parts| == 2 ==> parts == [s[..RuneWidth(s)], s[RuneWidth(s)..]] && s == parts[0] + parts[1])
  {
    if |sep| > 0 {
      var r := IndexFrom(s, sep, 0);
      if r.Some? {
        var i := r.value;
        assert s[i..i + |sep|] == sep;
        assert s == s[..i] + s[i..i + |sep|] + s[i + |sep|..];
      }
    } else if |s| > 0 && RuneWidth(s) < |s| {
      assert s == s[..RuneWidth(s)] + s[RuneWidth(s)..];
    }
  }

  /** With a non-empty prefix, a key that starts with the prefix splits into
      the empty string and the rest of the key. */
  lemma SplitPrefixed(prefix: Bytes, s: Bytes)
    requires |prefix| > 0
    ensures SplitN2(prefix + s, prefix) == [[], s]
  {
    assert OccursAt(prefix + s, prefix, 0) by {
      assert (prefix + s)[0..|prefix|] == prefix;
    }
    var parts := SplitN2(prefix + s, prefix);
    SplitN2Parts(prefix + s, prefix);
    assert |parts| == 2;
    assert |parts[0]| == 0;
    assert prefix + s == prefix + parts[1];
  }

  /** With an empty prefix, only the part after the first character reaches
      the key decoder, so an encoded key is not read back as written: an
      ASCII first byte is dropped alone, a well-formed two-byte sequence at
      the front is dropped whole. */
  lemma EmptyPrefixSplitsFirstRune(b: Bytes)
    requires |b| >= 2
    ensures b[0] < 0x80 ==> SplitN2([] + b, []) == [b[..1], b[1..]]
    ensures 0xC2 <= b[0] <= 0xDF && IsContinuation(b[1]) && |b| > 2 ==>
      SplitN2([] + b, []) == [b[..2], b[2..]]
  {
    assert [] + b == b;
  }

  /** A two-byte UTF-8 sequence in front of a one-byte encoding leaves only
      that byte after the split with an empty separator. */
  lemma EmptyPrefixSplitExample()
    ensures SplitN2([0xCC, 0x80, 0x01], []) == [[0xCC, 0x80], [0x01]]
    ensures SplitN2([0xCC, 0x01, 0x01], []) == [[0xCC], [0x01, 0x01]]
  {
    var s: Bytes := [0xCC, 0x80, 0x01];
    assert RuneWidth(s) == 2;
    assert s[..2] == [0xCC, 0x80] && s[2..] == [0x01];
    var t: Bytes := [0xCC, 0x01, 0x01];
    assert RuneWidth(t) == 1;
    assert t[..1] == [0xCC] && t[1..] == [0x01, 0x01];
  }

  /** Whether a scanned key can be decoded without a panic: a key that
      splits into two parts must have a decodable second part. */
  predicate KeyDecodes<K(!new)>(codec: KeyCodec<K>, prefix: Bytes, b: Bytes)
  {
    |SplitN2(b, prefix)| == 2 ==> codec.decode(SplitN2(b, prefix)[1]).Some?
  }

  predicate AllKeysDecode<K(!new)>(codec: KeyCodec<K>, prefix: Bytes, keys: seq<Bytes>)
  {
    forall i :: 0 <= i < |keys| ==> KeyDecodes(codec, prefix, keys[i])
  }

  /** The user key of a scanned key: none when it does not split into two
      parts, otherwise the decoding of the second part. */
  function SplitDecode<K(!new)>(codec: KeyCodec<K>, prefix: Bytes, b: Bytes): Option<K>
  {
    var parts := SplitN2(b, prefix);
    if |parts| == 2 then codec.decode(parts[1]) else None
  }

  /** The backend's key codec: the prefix followed by the key's encoding,
      and back by splitting and decoding. */
  function PrefixedCodec<K(!new)>(codec: KeyCodec<K>, prefix: Bytes): (c: KeyCodec<K>)
  {
    KeyCodec(k => prefix + codec.encode(k), b => SplitDecode(codec, prefix, b))
  }

  /** A scanned key that decodes without a panic has a user key exactly when
      it splits into two parts, and it is the second part's decoding. */
  lemma PrefixedDecodeOfSplit<K(!new)>(codec: KeyCodec<K>, prefix: Bytes, b: Bytes)
    requires KeyDecodes(codec, prefix, b)
    ensures var parts := SplitN2(b, prefix);
      && (PrefixedCodec(codec, prefix).decode(b).Some? <==> |parts| == 2)
      && (|parts| == 2 ==> PrefixedCodec(codec, prefix).decode(b) == codec.decode(parts[1]))
  {
  }

  /** One more scanned entry in a pass: it adds its decoded entry when its key
      splits into two parts, and nothing otherwise. */
  lemma SplitStep<K(!new)>(codec: KeyCodec<K>, prefix: Bytes, es: seq<(Bytes, Bytes)>, i: nat)
    requires i < |es| && KeyDecodes(codec, prefix, es[i].0)
    ensures var parts := SplitN2(es[i].0, prefix);
      DecodedKeyEntries(PrefixedCodec(codec, prefix), es[..i + 1]) ==
        DecodedKeyEntries(PrefixedCodec(codec, prefix), es[..i]) +
        if |parts| == 2 then [(codec.decode(parts[1]).value, es[i].1)] else []
  {
    DecodedKeyEntriesSnoc(PrefixedCodec(codec, prefix), es, i);
    PrefixedDecodeOfSplit(codec, prefix, es[i].0);
  }

  /** For a non-empty prefix, user keys round-trip through the backend key:
      a lawful codec stays lawful with the prefix in front. */
  lemma PrefixedCodecLawful<K(!new)>(codec: KeyCodec<K>, prefix: Bytes)
    requires codec.Lawful() && |prefix| > 0
    ensures PrefixedCodec(codec, prefix).Lawful()
  {
    var c := PrefixedCodec(codec, prefix);
    forall k ensures c.decode(c.encode(k)) == Some(k) {
      SplitPrefixed(prefix, codec.encode(k));
    }
  }

  /** The keys of the server in this backend's namespace: those that match
      the pattern `prefix*`. */
  function MatchingKeys(m: map<Bytes, Bytes>, prefix: Bytes): (ks: set<Bytes>)
    ensures ks <= m.Keys
    ensures forall b :: b in m && HasPrefix(b, prefix) ==> b in ks
  {
    set b | b in m && HasPrefix(b, prefix)
  }

  /** What SCAN promises of a full iteration: every key it returns matches,
      and every key that matches throughout is returned at least once; a key
      may be returned more than once. */
  predicate Covers(scanned: seq<Bytes>, keys: set<Bytes>)
  {
    && (forall i :: 0 <= i < |scanned| ==> scanned[i] in keys)
    && (forall b :: b in keys ==> b in scanned)
  }

  /** A scan that returns every key at least once is at least as long as the
      set of keys. */
  lemma {:induction false} CoverLength(scanned: seq<Bytes>, keys: set<Bytes>)
    requires forall b :: b in keys ==> b in scanned
    ensures |keys| <= |scanned|
  {
    if scanned == [] {
      assert keys == {};
    } else {
      var rest := keys - {scanned[0]};
      forall b | b in rest ensures b in scanned[1..] {
        var i :| 0 <= i < |scanned| && scanned[i] == b;
        assert scanned[1..][i - 1] == b;
      }
      CoverLength(scanned[1..], rest);
      assert keys <= rest + {scanned[0]};
    }
  }

  /** A scan that returns some key twice is longer than the set of keys. */
  lemma {:induction false} RepeatedKeyOvercounts(scanned: seq<Bytes>, keys: set<Bytes>, i: nat, j: nat)
    requires Covers(scanned, keys)
    requires i < j < |scanned| && scanned[i] == scanned[j]
    ensures |keys| < |scanned|
  {
    var rest := scanned[..i] + scanned[i + 1..];
    forall b | b in keys ensures b in rest {
      var k :| 0 <= k < |scanned| && scanned[k] == b;
      if k < i {
        assert rest[k] == b;
      } else if k == i {
        assert rest[j - 1] == b;
      } else {
        assert rest[k - 1] == b;
      }
    }
    CoverLength(rest, keys);
  }

  /** A decoded key list covers the scanned keys exactly when every scanned
      key is canonical: re-encoding the decoded keys gives the scanned keys,
      whether or not the scan repeats a key. */
  lemma {:induction false} DecodedKeysCoverScan<K(!new)>(c: KeyCodec<K>, m: map<Bytes, Bytes>, scanned: seq<Bytes>, keys: set<Bytes>)
    requires Covers(scanned, keys) && keys <= m.Keys
    requires forall b :: b in keys ==> c.Canonical(b)
    ensures c.EncodedSet(KeysOf(DecodedKeyEntries(c, Entries(m, scanned)))) == keys
    ensures |KeysOf(DecodedKeyEntries(c, Entries(m, scanned)))| == |scanned|
  {
    var es := Entries(m, scanned);
    forall i | 0 <= i < |es| ensures c.Canonical(es[i].0) {
      assert es[i].0 == scanned[i];
    }
    DecodedKeyEntriesOfCanonical(c, es);
    var ks := KeysOf(DecodedKeyEntries(c, es));
    forall i | 0 <= i < |ks| ensures c.encode(ks[i]) == scanned[i] {
      assert es[i].0 == scanned[i];
    }
    forall b | b in keys ensures b in c.EncodedSet(ks) {
      var i :| 0 <= i < |scanned| && scanned[i] == b;
      assert c.encode(ks[i]) == b;
    }
  }

  /** For a non-empty prefix, every scanned key splits into two parts, so
      the first scanned key splits exactly when the namespace is not empty. */
  lemma FirstScannedSplits(m: map<Bytes, Bytes>, prefix: Bytes, scanned: seq<Bytes>)
    requires Covers(scanned, MatchingKeys(m, prefix)) && |prefix| > 0
    ensures (scanned != [] && |SplitN2(scanned[0], prefix)| == 2) <==> |MatchingKeys(m, prefix)| > 0
  {
    if |MatchingKeys(m, prefix)| > 0 {
      var b :| b in MatchingKeys(m, prefix);
      assert b in scanned;
    }
    if scanned != [] {
      var b := scanned[0];
      assert b in MatchingKeys(m, prefix);
      assert HasPrefix(b, prefix);
      assert b == prefix + b[|prefix|..];
      SplitPrefixed(prefix, b[|prefix|..]);
    }
  }

  /** Deleting the re-encoding of a canonical key's decoding deletes that
      very key. */
  lemma RemoveFirstScanned<K(!new)>(c: KeyCodec<K>, m: map<Bytes, Bytes>, b: Bytes, k: K)
    requires b in m && c.decode(b) == Some(k) && c.Canonical(b)
    ensures m - {c.encode(k)} == m - {b} && |m - {b}| == |m| - 1
  {
    RemoveOneCount(m, b);
  }

  /** Removing every key of the namespace leaves none in it. */
  lemma NamespaceEmptied(m: map<Bytes, Bytes>, prefix: Bytes)
    ensures MatchingKeys(m - MatchingKeys(m, prefix), prefix) == {}
  {
    var rest := m - MatchingKeys(m, prefix);
    forall b | b in rest ensures !HasPrefix(b, prefix) {
      assert b !in MatchingKeys(m, prefix);
    }
  }

  // ---------------------------------------------------------------------
  // SCAN

  /** The server's replies to SCAN for one pattern: the page of keys at a
      cursor and the next cursor, 0 when the iteration is complete. `rank`
      bounds the pages still to come, so a full iteration ends. */
  datatype ScanReplies = ScanReplies(reply: nat -> (seq<Bytes>, nat), rank: nat -> nat)
  {
    ghost predicate Terminating()
    {
      forall c: nat :: reply(c).1 != 0 ==> rank(reply(c).1) < rank(c)
    }
  }

  /** The pages from `cursor` on, concatenated in order: the page at the
      cursor comes first, and nothing follows it when its next cursor is 0. */
  function ScanFrom(s: ScanReplies, cursor: nat): (keys: seq<Bytes>)
    requires s.Terminating()
    ensures |s.reply(cursor).0| <= |keys| && keys[..|s.reply(cursor).0|] == s.reply(cursor).0
    ensures s.reply(cursor).1 == 0 ==> keys == s.reply(cursor).0
    decreases s.rank(cursor)
  {
    var (page, next) := s.reply(cursor);
    page + if next == 0 then [] else ScanFrom(s, next)
  }

  class RedisStorage<K(==, !new)> {
    /** The server's key space. */
    var server: map<Bytes, Bytes>
    const settings: RedisSettings
    const prefix: Bytes
    const codec: KeyCodec<K>
    const zeroKey: K

    /** User keys to backend keys and back. */
    function Keyed(): KeyCodec<K>
    {
      PrefixedCodec(codec, prefix)
    }

    /** Every key in the namespace was written by this backend: it is the
        prefix followed by a canonical key encoding. */
    predicate Valid()
      reads this
    {
      forall b :: b in server && HasPrefix(b, prefix) ==> Keyed().Canonical(b)
    }

    /** `s` is a complete SCAN over `prefix*` of the current key space: it
        ends, and returns each key of the namespace at least once. */
    ghost predicate Scans(s: ScanReplies)
      reads this
    {
      s.Terminating() && Covers(ScanFrom(s, 0), MatchingKeys(server, prefix))
    }

    /** `NewMightyMapRedisStorage`: the options record built from the
        defaults, the options in order and the TLS fix-up; the key prefix is
        the record's. */
    constructor (options: seq<RedisOption>, existing: map<Bytes, Bytes>, codec: KeyCodec<K>, zeroKey: K)
      ensures settings == WithTlsDefault(ApplyRedisOptions(DefaultRedisSettings(), options))
      ensures prefix == AsBytes(settings.prefix)
      ensures server == existing && this.codec == codec && this.zeroKey == zeroKey
    {
      var opts := new RedisOpts();
      opts.ApplyAll(options);
      settings := opts.Snapshot();
      prefix := AsBytes(opts.prefix);
      server := existing;
      this.codec := codec;
      this.zeroKey := zeroKey;
    }

    /** `SET prefix+key`, overwriting any value (the expiry is not part of
        the model). */
    method Store(key: K, value: Bytes)
      modifies this
      ensures server == old(server)[Keyed().encode(key) := value]
      ensures old(Valid()) && codec.Lawful() && |prefix| > 0 ==> Valid()
    {
      server := server[prefix + codec.encode(key) := value];
      if codec.Lawful() && |prefix| > 0 {
        PrefixedCodecLawful(codec, prefix);
        EncodedIsCanonical(Keyed(), key);
      }
    }

    /** `GET prefix+key`; a missing key is not found. */
    method Load(key: K) returns (value: Bytes, ok: bool)
      ensures ok <==> Keyed().encode(key) in server
      ensures ok ==> value == server[Keyed().encode(key)]
      ensures !ok ==> value == []
    {
      var backendKey := prefix + codec.encode(key);
      if backendKey !in server {
        return [], false;
      }
      value, ok := server[backendKey], true;
    }

    /** `DEL prefix+key` for each key in turn. */
    method Delete(keys: seq<K>)
      modifies this
      ensures server == old(server) - Keyed().EncodedSet(keys)
      ensures old(Valid()) ==> Valid()
    {
      var i := 0;
      while i < |keys|
        invariant 0 <= i <= |keys|
        invariant server == old(server) - Keyed().EncodedSet(keys[..i])
      {
        var backendKey := prefix + codec.encode(keys[i]);
        assert keys[..i + 1] == keys[..i] + [keys[i]];
        Keyed().EncodedSetSnoc(keys[..i], keys[i]);
        RemoveOneMore(old(server), Keyed().EncodedSet(keys[..i]), backendKey);
        server := server - {backendKey};
        i := i + 1;
      }
      assert keys[..i] == keys;
    }

    /** The cursor loop: request pages from cursor 0, following the returned
        cursor until it is 0, and concatenate the pages. */
    method Scan(s: ScanReplies) returns (keys: seq<Bytes>)
      requires s.Terminating()
      ensures keys == ScanFrom(s, 0)
    {
      var cursor: nat := 0;
      keys := [];
      while true
        invariant keys + ScanFrom(s, cursor) == ScanFrom(s, 0)
        decreases s.rank(cursor)
      {
        var (page, next) := s.reply(cursor);
        assert ScanFrom(s, cursor) == page + if next == 0 then [] else ScanFrom(s, next);
        keys := keys + page;
        if next == 0 {
          return;
        }
        assert keys + ScanFrom(s, next) == ScanFrom(s, 0);
        cursor := next;
      }
    }

    /** The number of keys a SCAN over `prefix*` returns, repeats included:
        at least the size of the namespace, and exactly that when the scan
        returns no key twice. */
    method Len(s: ScanReplies) returns (n: int)
      requires Scans(s)
      ensures n == |ScanFrom(s, 0)|
      ensures n >= |MatchingKeys(server, prefix)|
      ensures IsEnumeration(ScanFrom(s, 0), MatchingKeys(server, prefix)) ==> n == |MatchingKeys(server, prefix)|
    {
      var keys := Scan(s);
      n := |keys|;
      CoverLength(keys, MatchingKeys(server, prefix));
      if IsEnumeration(keys, MatchingKeys(server, prefix)) {
        EnumerationLength(keys, MatchingKeys(server, prefix));
      }
    }

    /** The user keys of the scanned keys: keys that do not split into two
        parts are skipped. */
    method Keys(s: ScanReplies) returns (keys: seq<K>)
      requires Scans(s) && AllKeysDecode(codec, prefix, ScanFrom(s, 0))
      ensures keys == KeysOf(DecodedKeyEntries(Keyed(), Entries(server, ScanFrom(s, 0))))
      ensures Valid() ==> Keyed().EncodedSet(keys) == MatchingKeys(server, prefix)
      ensures Valid() ==> |keys| == |ScanFrom(s, 0)|
    {
      var scanned := Scan(s);
      var es := Entries(server, scanned);
      forall i | 0 <= i < |es| ensures KeyDecodes(codec, prefix, es[i].0) {
        assert es[i].0 == scanned[i];
      }
      keys := ScannedKeys(es);
      if Valid() {
        DecodedKeysCoverScan(Keyed(), server, scanned, MatchingKeys(server, prefix));
      }
    }

    /** Deletes the user keys of every scanned key (when there is one). On a
        valid key space that empties the namespace and leaves every other key
        as it was. */
    method Clear(s: ScanReplies)
      requires Scans(s) && AllKeysDecode(codec, prefix, ScanFrom(s, 0))
      modifies this
      ensures server == old(server) - Keyed().EncodedSet(KeysOf(DecodedKeyEntries(Keyed(), Entries(old(server), ScanFrom(s, 0)))))
      ensures old(Valid()) ==> server == old(server) - MatchingKeys(old(server), prefix)
      ensures old(Valid()) ==> MatchingKeys(server, prefix) == {}
    {
      ghost var before := server;
      var keys := Keys(s);
      if |keys| > 0 {
        Delete(keys);
      } else {
        assert Keyed().EncodedSet(keys) == {};
        assert server - {} == server;
      }
      NamespaceEmptied(before, prefix);
    }

    /** Takes the first scanned key. With none, or one that does not split
        into two parts, nothing changes and the result is not found;
        otherwise its value is read and its user key deleted. */
    method Next(s: ScanReplies) returns (key: K, value: Bytes, ok: bool)
      requires Scans(s)
      requires ScanFrom(s, 0) != [] ==> KeyDecodes(codec, prefix, ScanFrom(s, 0)[0])
      modifies this
      ensures ok <==> ScanFrom(s, 0) != [] && |SplitN2(ScanFrom(s, 0)[0], prefix)| == 2
      ensures |prefix| > 0 ==> (ok <==> |MatchingKeys(old(server), prefix)| > 0)
      ensures !ok ==> key == zeroKey && value == [] && server == old(server)
      ensures ok ==> Some(key) == Keyed().decode(ScanFrom(s, 0)[0]) && value == old(server)[ScanFrom(s, 0)[0]]
      ensures ok ==> server == old(server) - {Keyed().encode(key)}
      ensures ok && old(Valid()) ==> server == old(server) - {ScanFrom(s, 0)[0]} && |server| == |old(server)| - 1
    {
      var keys := Scan(s);
      if |prefix| > 0 {
        FirstScannedSplits(server, prefix, keys);
      }
      if |keys| == 0 {
        return zeroKey, [], false;
      }
      var splitKey := SplitN2(keys[0], prefix);
      if |splitKey| != 2 {
        return zeroKey, [], false;
      }
      PrefixedDecodeOfSplit(codec, prefix, keys[0]);
      var k := codec.decode(splitKey[1]).value;
      var v := server[keys[0]];
      ghost var valid := Valid();
      ghost var before := server;
      Delete([k]);
      Keyed().EncodedSetSnoc([], k);
      if valid {
        assert HasPrefix(keys[0], prefix);
        RemoveFirstScanned(Keyed(), before, keys[0], k);
      }
      return k, v, true;
    }

    /** One pass over the scanned keys: keys that do not split into two
        parts are skipped, the others are read, decoded and handed to `visit`
        until it returns false. */
    method Range(s: ScanReplies, visit: (K, Bytes) -> bool) returns (visited: seq<(K, Bytes)>)
      requires Scans(s) && AllKeysDecode(codec, prefix, ScanFrom(s, 0))
      ensures visited == RangeTrace(DecodedKeyEntries(Keyed(), Entries(server, ScanFrom(s, 0))), visit)
    {
      var scanned := Scan(s);
      var es := Entries(server, scanned);
      forall i | 0 <= i < |es| ensures KeyDecodes(codec, prefix, es[i].0) {
        assert es[i].0 == scanned[i];
      }
      visited := VisitRows(es, visit);
    }

    /** Keys' loop over the scanned keys: the user key of each key that
        splits off the prefix. */
    method ScannedKeys(es: seq<(Bytes, Bytes)>) returns (keys: seq<K>)
      requires forall i :: 0 <= i < |es| ==> KeyDecodes(codec, prefix, es[i].0)
      ensures keys == KeysOf(DecodedKeyEntries(Keyed(), es))
    {
      keys := [];
      var i := 0;
      while i < |es|
        invariant 0 <= i <= |es|
        invariant keys == KeysOf(DecodedKeyEntries(Keyed(), es[..i]))
      {
        SplitStep(codec, prefix, es, i);
        var keySplit := SplitN2(es[i].0, prefix);
        if |keySplit| == 2 {
          var k := codec.decode(keySplit[1]).value;
          keys := keys + [k];
        }
        i := i + 1;
      }
      assert es[..i] == es;
    }

    /** Range's loop over the scanned keys, each paired with the value GET
        returns for it. */
    method VisitRows(es: seq<(Bytes, Bytes)>, visit: (K, Bytes) -> bool) returns (visited: seq<(K, Bytes)>)
      requires forall i :: 0 <= i < |es| ==> KeyDecodes(codec, prefix, es[i].0)
      ensures visited == RangeTrace(DecodedKeyEntries(Keyed(), es), visit)
    {
      visited := [];
      var i := 0;
      while i < |es|
        invariant 0 <= i <= |es|
        invariant visited == DecodedKeyEntries(Keyed(), es[..i])
        invariant forall j :: 0 <= j < |visited| ==> visit(visited[j].0, visited[j].1)
      {
        var (key, vb) := es[i];
        SplitStep(codec, prefix, es, i);
        var splitKey := SplitN2(key, prefix);
        if |splitKey| == 2 {
          var k := codec.decode(splitKey[1]).value;
          visited := visited + [(k, vb)];
          if !visit(k, vb) {
            DecodedPassStops(Keyed(), es, i + 1, visit);
            return;
          }
        }
        i := i + 1;
      }
      assert es[..i] == es;
      AcceptedThroughout(visited, visit);
    }

    /** Closes the client; the client's close error, a parameter here, is
        returned as it is. */
    method Close(engineErr: Option<string>) returns (err: Option<string>)
      ensures err == engineErr
    {
      err := engineErr;
    }
  }
}
