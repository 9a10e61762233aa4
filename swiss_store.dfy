/** The swiss-table backend: a byte storage over a `swiss.Map`, whose
    iteration callback says whether to stop (the opposite of Range's
    convention). Also the Go version check run at construction and the
    default-capacity option. */
module SwissStore {
  import opened Common
  import opened Contract

  type uint32 = x: int | 0 <= x < 0x1_0000_0000

  /** The initial capacity used when no option sets one. */
  const DefaultSwissCapacity: uint32 := 10_000

  /** The swiss backend's configuration record. */
  datatype SwissOptions = SwissOptions(defaultCapacity: uint32)

  function DefaultSwissOptions(): (o: SwissOptions)
    ensures o.defaultCapacity == 10_000
  {
    SwissOptions(DefaultSwissCapacity)
  }

  /** The one option the backend takes: `WithDefaultCapacity`. */
  datatype SwissOption = WithDefaultCapacity(capacity: uint32)

  /** Applying options in order on top of the defaults. */
  function ApplySwissOptions(o: SwissOptions, options: seq<SwissOption>): (r: SwissOptions)
    ensures options == [] ==> r == o
    ensures options != [] ==> r.defaultCapacity == options[|options| - 1].capacity
    decreases |options|
  {
    if options == [] then o
    else ApplySwissOptions(SwissOptions(options[0].capacity), options[1..])
  }

  // ---------------------------------------------------------------------
  // checkGoVersion

  predicate IsDigit(c: char)
  {
    '0' <= c <= '9'
  }

  predicate AllDigits(s: string)
  {
    forall i :: 0 <= i < |s| ==> IsDigit(s[i])
  }

  /** The value of a string of decimal digits. */
  function DigitsValue(s: string): (n: nat)
    requires AllDigits(s)
  {
    if s == [] then 0
    else DigitsValue(s[..|s| - 1]) * 10 + (s[|s| - 1] as int - '0' as int)
  }

  /** `strconv.Atoi`: an optional sign followed by at least one decimal digit,
      with a result that fits a 64-bit int; anything else is an error. */
  function Atoi(s: string): (r: Option<int>)
    ensures r.Some? ==> -0x8000_0000_0000_0000 <= r.value <= 0x7FFF_FFFF_FFFF_FFFF
    ensures r.Some? ==> |s| > 0
  {
    var signed := |s| > 0 && (s[0] == '+' || s[0] == '-');
    var digits := if signed then s[1..] else s;
    if |digits| == 0 || !AllDigits(digits) then None
    else
      var n: int := if signed && s[0] == '-' then -(DigitsValue(digits) as int) else DigitsValue(digits);
      if n < -0x8000_0000_0000_0000 || n > 0x7FFF_FFFF_FFFF_FFFF then None else Some(n)
  }

  /** `strings.Split(s, ".")[0]`: everything before the first dot. */
  function FirstField(s: string): (f: string)
    ensures |f| <= |s| && f == s[..|f|]
    ensures '.' !in f
    ensures |f| < |s| ==> s[|f|] == '.'
  {
    if s == [] || s[0] == '.' then [] else [s[0]] + FirstField(s[1..])
  }

  /** Whether `checkGoVersion` logs its warning for the runtime version
      string: the version starts with "go1." and the first dot-separated field
      after it is an integer of at least 24. */
  function WarnsForGoVersion(version: string): (warns: bool)
    ensures warns ==> |version| > 4 && version[..4] == "go1."
  {
    && |version| >= 4 && version[..4] == "go1."
    && var major := Atoi(FirstField(version[4..]));
      major.Some? && major.value >= 24
  }

  /** The decimal representation of a natural number. */
  function DecimalString(n: nat): (s: string)
    ensures |s| > 0 && AllDigits(s)
    decreases n
  {
    if n < 10 then [('0' as int + n) as char]
    else DecimalString(n / 10) + [('0' as int + n % 10) as char]
  }

  /** Reading back a decimal representation gives the number. */
  lemma {:induction false} DigitsValueOfDecimal(n: nat)
    ensures DigitsValue(DecimalString(n)) == n
    decreases n
  {
    var s := DecimalString(n);
    if n >= 10 {
      DigitsValueOfDecimal(n / 10);
      assert s[..|s| - 1] == DecimalString(n / 10);
    }
  }

  /** `Atoi` parses every decimal representation of a 64-bit value. */
  lemma AtoiOfDecimal(n: nat)
    requires n <= 0x7FFF_FFFF_FFFF_FFFF
    ensures Atoi(DecimalString(n)) == Some(n)
  {
    DigitsValueOfDecimal(n);
    assert IsDigit(DecimalString(n)[0]);
  }

  /** The first dot-separated field of `f + rest` is `f` when `f` has no dot
      and `rest` is empty or starts with a dot. */
  lemma {:induction false} FirstFieldOfConcat(f: string, rest: string)
    requires '.' !in f
    requires rest == [] || rest[0] == '.'
    ensures FirstField(f + rest) == f
  {
    if f != [] {
      assert (f + rest)[1..] == f[1..] + rest;
      FirstFieldOfConcat(f[1..], rest);
    }
  }

  /** For a release-style version "go1.<minor>" followed by nothing or by
      ".<patch>", the warning is logged exactly when minor >= 24. */
  lemma GoVersionWarningForMinor(minor: nat, rest: string)
    requires minor <= 0x7FFF_FFFF_FFFF_FFFF
    requires rest == [] || rest[0] == '.'
    ensures WarnsForGoVersion("go1." + DecimalString(minor) + rest) <==> minor >= 24
  {
    var v := "go1." + DecimalString(minor) + rest;
    assert v[..4] == "go1.";
    assert v[4..] == DecimalString(minor) + rest;
    forall i | 0 <= i < |DecimalString(minor)| ensures DecimalString(minor)[i] != '.' {
      assert IsDigit(DecimalString(minor)[i]);
    }
    FirstFieldOfConcat(DecimalString(minor), rest);
    AtoiOfDecimal(minor);
  }

  /** A version that does not start with "go1." never warns, nor does a
      pre-release suffix glued to the minor number. */
  lemma GoVersionWarningExamples()
    ensures !WarnsForGoVersion("devel go1.25")
    ensures !WarnsForGoVersion("go1.24rc1")
    ensures !WarnsForGoVersion("go2.0")
  {
    assert "go1.24rc1"[4..] == "24rc1";
    assert FirstField("24rc1") == "24rc1";
    assert !IsDigit("24rc1"[2]);
  }

  // ---------------------------------------------------------------------
  // The storage

  class SwissStorage<K(==)> {
    /** The swiss map's entries. */
    var data: map<K, Bytes>
    /** The initial capacity handed to the swiss map. */
    const capacity: uint32
    const zeroKey: K

    /** `NewMightyMapSwissStorage`: options applied in order over the
        defaults, and an empty table. */
    constructor (options: seq<SwissOption>, zeroKey: K)
      ensures data == map[]
      ensures capacity == ApplySwissOptions(DefaultSwissOptions(), options).defaultCapacity
      ensures this.zeroKey == zeroKey
    {
      var opts := DefaultSwissOptions();
      var i := 0;
      while i < |options|
        invariant 0 <= i <= |options|
        invariant ApplySwissOptions(opts, options[i..]) == ApplySwissOptions(DefaultSwissOptions(), options)
      {
        assert options[i..][1..] == options[i + 1..];
        opts := SwissOptions(options[i].capacity);
        i := i + 1;
      }
      data := map[];
      capacity := opts.defaultCapacity;
      this.zeroKey := zeroKey;
    }

    method Load(key: K) returns (value: Bytes, ok: bool)
      ensures ok <==> key in data
      ensures ok ==> value == data[key]
      ensures !ok ==> value == []
    {
      if key in data {
        value, ok := data[key], true;
      } else {
        value, ok := [], false;
      }
    }

    /** `Put`: inserts or overwrites. */
    method Store(key: K, value: Bytes)
      modifies this
      ensures data == old(data)[key := value]
      ensures |data| == if key in old(data) then |old(data)| else |old(data)| + 1
    {
      data := data[key := value];
    }

    method Delete(keys: seq<K>)
      modifies this
      ensures data == RemoveAll(old(data), keys)
    {
      var i := 0;
      while i < |keys|
        invariant 0 <= i <= |keys|
        invariant data == RemoveAll(old(data), keys[..i])
      {
        assert keys[..i + 1] == keys[..i] + [keys[i]];
        data := data - {keys[i]};
        i := i + 1;
      }
      assert keys[..i] == keys;
    }

    /** The library's `Iter`: calls `stop` on each entry in iteration order
        and ends right after the first call that returns true. */
    method Iter(order: seq<K>, stop: (K, Bytes) -> bool) returns (visited: seq<(K, Bytes)>)
      requires IsEnumeration(order, data.Keys)
      ensures visited == IterTrace(Entries(data, order), stop)
    {
      var es := Entries(data, order);
      visited := [];
      var i := 0;
      while i < |es|
        invariant 0 <= i <= |es|
        invariant visited == es[..i]
        invariant forall j :: 0 <= j < i ==> !stop(es[j].0, es[j].1)
      {
        visited := visited + [es[i]];
        if stop(es[i].0, es[i].1) {
          IterTraceAfter(es, stop, i);
          assert IterTrace(es[i..], stop) == [es[i]];
          return;
        }
        i := i + 1;
      }
      IterTraceAfter(es, stop, i);
      assert es[..i] == es;
    }

    /** Range hands the library the negation of the visitor. */
    method Range(order: seq<K>, visit: (K, Bytes) -> bool) returns (visited: seq<(K, Bytes)>)
      requires IsEnumeration(order, data.Keys)
      ensures visited == RangeTrace(Entries(data, order), visit)
    {
      var stop := (k: K, v: Bytes) => !visit(k, v);
      visited := Iter(order, stop);
      IterOfNegationIsRange(Entries(data, order), visit, stop);
    }

    /** Collects every key with a callback that never stops. */
    method Keys(order: seq<K>) returns (keys: seq<K>)
      requires IsEnumeration(order, data.Keys)
      ensures keys == order
      ensures |keys| == |data|
    {
      var neverStop := (k: K, v: Bytes) => false;
      var visited := Iter(order, neverStop);
      IterNeverStopping(Entries(data, order), neverStop);
      keys := KeysOf(visited);
      EnumerationLength(order, data.Keys);
    }

    /** `Count`. */
    method Len() returns (n: int)
      ensures n == |data|
    {
      n := |data|;
    }

    method Clear()
      modifies this
      ensures data == map[]
    {
      data := map[];
    }

    /** The same zero-key check as the in-memory storage. */
    method Next(order: seq<K>) returns (key: K, value: Bytes, ok: bool)
      requires IsEnumeration(order, data.Keys)
      modifies this
      ensures (Popped(key, value, ok), data) == ZeroCheckedNext(old(data), order, zeroKey, [])
    {
      key, value, ok := zeroKey, [], false;
      var stopAtOnce := (k: K, v: Bytes) => false;
      var visited := Range(order, stopAtOnce);
      StopAtOnceVisitsOne(Entries(data, order), stopAtOnce);
      if |visited| > 0 {
        key, value := visited[0].0, visited[0].1;
      }
      if key != zeroKey {
        ok := true;
        Delete([key]);
        assert data == old(data) - {key};
      }
    }

    method Close() returns (err: Option<string>)
      ensures err == None
    {
      err := None;
    }
  }
}
