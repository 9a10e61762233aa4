/** The storage contract every backend implements (Load, Store, Delete,
    Range, Next, Len, Clear, Close, plus Keys), stated once against an
    abstract reference: a map from keys to values, and the order in which one
    pass of the backend's iteration visits the keys. Go leaves that order
    unspecified, so every operation that iterates takes it as a parameter. */
module Contract {

  /** `order` lists every key of `keys` exactly once. */
  predicate IsEnumeration<K>(order: seq<K>, keys: set<K>)
  {
    && (forall i, j :: 0 <= i < j < |order| ==> order[i] != order[j])
    && (forall i :: 0 <= i < |order| ==> order[i] in keys)
    && (forall k :: k in keys ==> k in order)
  }

  /** An enumeration has as many elements as the set it enumerates. */
  lemma {:induction false} EnumerationLength<K>(order: seq<K>, keys: set<K>)
    requires IsEnumeration(order, keys)
    ensures |order| == |keys|
  {
    if order != [] {
      var k := order[0];
      var rest := order[1..];
      forall i, j | 0 <= i < j < |rest| ensures rest[i] != rest[j] {
        assert rest[i] == order[i + 1] && rest[j] == order[j + 1];
      }
      forall x ensures x in rest <==> x in keys - {k} {
        if x in rest {
          var i :| 0 <= i < |rest| && rest[i] == x;
          assert order[i + 1] == x && order[0] == k;
        }
        if x in keys - {k} {
          var i :| 0 <= i < |order| && order[i] == x;
          assert i != 0;
          assert rest[i - 1] == x;
        }
      }
      EnumerationLength(rest, keys - {k});
    }
  }

  /** Dropping the first key of an enumeration enumerates the rest. */
  lemma EnumerationTail<K>(order: seq<K>, keys: set<K>)
    requires IsEnumeration(order, keys) && order != []
    ensures IsEnumeration(order[1..], keys - {order[0]})
  {
    var rest := order[1..];
    forall x ensures x in rest <==> x in keys - {order[0]} {
      if x in keys - {order[0]} {
        var i :| 0 <= i < |order| && order[i] == x;
        assert rest[i - 1] == x;
      }
    }
  }

  /** The (key, value) pairs of `m` in the order `order` lists the keys. */
  function Entries<K, V>(m: map<K, V>, order: seq<K>): (es: seq<(K, V)>)
    requires forall k :: k in order ==> k in m
    ensures |es| == |order|
    ensures forall i :: 0 <= i < |order| ==> es[i] == (order[i], m[order[i]])
  {
    seq(|order|, i requires 0 <= i < |order| => (order[i], m[order[i]]))
  }

  /** The entries one Range pass hands to `visit`: it calls `visit` on each
      entry in turn and stops right after the first call that returns false. */
  function RangeTrace<K, V>(es: seq<(K, V)>, visit: (K, V) -> bool): (r: seq<(K, V)>)
    ensures |r| <= |es| && r == es[..|r|]
    ensures es != [] ==> r != []
  {
    if es == [] then []
    else if visit(es[0].0, es[0].1) then [es[0]] + RangeTrace(es[1..], visit)
    else [es[0]]
  }

  /** A Range pass stops only at a refusal: `visit` accepted every entry of
      the trace but the last, and refused the last unless the pass ran to the
      end. */
  lemma {:induction false} RangeTraceStopsAtRefusal<K, V>(es: seq<(K, V)>, visit: (K, V) -> bool)
    ensures var r := RangeTrace(es, visit);
      && (forall i :: 0 <= i < |r| - 1 ==> visit(r[i].0, r[i].1))
      && (|r| < |es| ==> !visit(r[|r| - 1].0, r[|r| - 1].1))
  {
    if es != [] && visit(es[0].0, es[0].1) {
      RangeTraceStopsAtRefusal(es[1..], visit);
      var r := RangeTrace(es, visit);
      forall i | 1 <= i < |r| - 1 ensures visit(r[i].0, r[i].1) {
        assert r[i] == RangeTrace(es[1..], visit)[i - 1];
      }
    }
  }

  /** When `visit` accepted every entry before position `i`, the trace is
      those entries followed by the trace of the rest. */
  lemma {:induction false} RangeTraceAfter<K, V>(es: seq<(K, V)>, visit: (K, V) -> bool, i: nat)
    requires i <= |es|
    requires forall j :: 0 <= j < i ==> visit(es[j].0, es[j].1)
    ensures RangeTrace(es, visit) == es[..i] + RangeTrace(es[i..], visit)
  {
    if i > 0 {
      RangeTraceAfter(es, visit, i - 1);
      var tail := es[i - 1..];
      assert tail[0] == es[i - 1] && tail[1..] == es[i..];
      assert RangeTrace(tail, visit) == [es[i - 1]] + RangeTrace(es[i..], visit);
      assert es[..i - 1] + [es[i - 1]] == es[..i];
    }
  }

  /** When the first `n` entries were visited and only the last of them was
      refused, the trace is exactly those entries. */
  lemma StopsAfter<K, V>(es: seq<(K, V)>, visit: (K, V) -> bool, n: nat)
    requires 0 < n <= |es|
    requires forall j :: 0 <= j < n - 1 ==> visit(es[j].0, es[j].1)
    requires !visit(es[n - 1].0, es[n - 1].1)
    ensures RangeTrace(es, visit) == es[..n]
  {
    RangeTraceAfter(es, visit, n - 1);
    assert es[n - 1..][0] == es[n - 1];
    assert es[..n - 1] + [es[n - 1]] == es[..n];
  }

  /** When every entry was accepted, the trace is all of them. */
  lemma AcceptedThroughout<K, V>(es: seq<(K, V)>, visit: (K, V) -> bool)
    requires forall j :: 0 <= j < |es| ==> visit(es[j].0, es[j].1)
    ensures RangeTrace(es, visit) == es
  {
    RangeTraceAfter(es, visit, |es|);
    assert es[..|es|] == es;
  }

  /** A visitor that never returns false sees every entry. */
  lemma AcceptAllVisitsAll<K, V>(es: seq<(K, V)>, visit: (K, V) -> bool)
    requires forall k, v :: visit(k, v)
    ensures RangeTrace(es, visit) == es
  {
  }

  /** A visitor that returns false at once sees exactly the first entry: the
      early-stop guarantee of Range. */
  lemma StopAtOnceVisitsOne<K, V>(es: seq<(K, V)>, visit: (K, V) -> bool)
    requires forall k, v :: !visit(k, v)
    ensures RangeTrace(es, visit) == if es == [] then [] else [es[0]]
  {
  }

  /** The keys a trace visits are pairwise distinct when the order is an
      enumeration. */
  lemma TraceKeysDistinct<K, V>(m: map<K, V>, order: seq<K>, visit: (K, V) -> bool)
    requires IsEnumeration(order, m.Keys)
    ensures var r := RangeTrace(Entries(m, order), visit);
      && (forall i, j :: 0 <= i < j < |r| ==> r[i].0 != r[j].0)
      && (forall i :: 0 <= i < |r| ==> r[i].0 in m && r[i].1 == m[r[i].0])
  {
    var es := Entries(m, order);
    var r := RangeTrace(es, visit);
    assert r == es[..|r|];
    forall i | 0 <= i < |r| ensures r[i] == (order[i], m[order[i]]) {
      assert r[i] == es[i];
    }
  }

  /** The iteration protocol of the swiss-table library: the callback says
      whether to STOP, the opposite of Range's convention. */
  function IterTrace<K, V>(es: seq<(K, V)>, stop: (K, V) -> bool): (r: seq<(K, V)>)
    ensures |r| <= |es| && r == es[..|r|]
  {
    if es == [] then []
    else if stop(es[0].0, es[0].1) then [es[0]]
    else [es[0]] + IterTrace(es[1..], stop)
  }

  /** When `stop` declined every entry before position `i`, the library's
      trace is those entries followed by the trace of the rest. */
  lemma {:induction false} IterTraceAfter<K, V>(es: seq<(K, V)>, stop: (K, V) -> bool, i: nat)
    requires i <= |es|
    requires forall j :: 0 <= j < i ==> !stop(es[j].0, es[j].1)
    ensures IterTrace(es, stop) == es[..i] + IterTrace(es[i..], stop)
  {
    if i > 0 {
      IterTraceAfter(es, stop, i - 1);
      var tail := es[i - 1..];
      assert tail[0] == es[i - 1] && tail[1..] == es[i..];
      assert IterTrace(tail, stop) == [es[i - 1]] + IterTrace(es[i..], stop);
      assert es[..i - 1] + [es[i - 1]] == es[..i];
    }
  }

  /** Handing the library the negation of a Range visitor yields exactly the
      Range trace: a visitor returning false ends the iteration after that call. */
  lemma {:induction false} IterOfNegationIsRange<K, V>(es: seq<(K, V)>, visit: (K, V) -> bool, stop: (K, V) -> bool)
    requires forall k, v :: stop(k, v) == !visit(k, v)
    ensures IterTrace(es, stop) == RangeTrace(es, visit)
  {
    if es != [] {
      IterOfNegationIsRange(es[1..], visit, stop);
    }
  }

  /** A library callback that never stops sees every entry. */
  lemma {:induction false} IterNeverStopping<K, V>(es: seq<(K, V)>, stop: (K, V) -> bool)
    requires forall k, v :: !stop(k, v)
    ensures IterTrace(es, stop) == es
  {
    if es != [] {
      IterNeverStopping(es[1..], stop);
    }
  }

  /** The first components of a sequence of pairs. */
  function KeysOf<K, V>(es: seq<(K, V)>): (ks: seq<K>)
    ensures |ks| == |es| && forall i :: 0 <= i < |es| ==> ks[i] == es[i].0
  {
    seq(|es|, i requires 0 <= i < |es| => es[i].0)
  }

  /** Deleting a list of keys from a map: the keys listed are gone, absent
      ones are ignored, every other entry is unchanged. */
  function RemoveAll<K, V>(m: map<K, V>, keys: seq<K>): (r: map<K, V>)
    ensures forall k :: k in r ==> k in m && k !in keys && r[k] == m[k]
    ensures forall k :: k in m && k !in keys ==> k in r
  {
    m - (set k | k in keys)
  }

  /** The result of one Next call: the key and value it reports and whether
      it reports them as found. */
  datatype Popped<K, V> = Popped(key: K, value: V, ok: bool)

  /** Next as the in-memory and swiss-table backends write it: take the
      entry that a Range pass stopping at once captures (zero key and zero
      value when there is none), and report it found, and delete it, only when
      its key differs from the zero key. */
  function ZeroCheckedNext<K, V>(m: map<K, V>, order: seq<K>, zeroKey: K, zeroValue: V): (r: (Popped<K, V>, map<K, V>))
    requires forall i :: 0 <= i < |order| ==> order[i] in m
    ensures r.0.ok ==> r.0.key != zeroKey && r.0.key in m && r.0.value == m[r.0.key] && r.1 == m - {r.0.key}
    ensures !r.0.ok ==> r.1 == m
    ensures order == [] ==> r.0 == Popped(zeroKey, zeroValue, false)
  {
    var (key, value) := if order == [] then (zeroKey, zeroValue) else (order[0], m[order[0]]);
    if key != zeroKey then (Popped(key, value, true), m - {key})
    else (Popped(key, value, false), m)
  }

  /** Next as the storage contract promises it and as the Badger, SQLite and
      Redis backends write it, with an explicit found flag: the first entry of
      the iteration is removed and returned; an empty store reports not found. */
  function FlaggedNext<K, V>(m: map<K, V>, order: seq<K>, zeroKey: K, zeroValue: V): (r: (Popped<K, V>, map<K, V>))
    requires forall i :: 0 <= i < |order| ==> order[i] in m
    ensures r.0.ok <==> order != []
    ensures r.0.ok ==> r.0.key in m && r.0.value == m[r.0.key] && r.1 == m - {r.0.key}
    ensures !r.0.ok ==> r.1 == m && r.0.key == zeroKey && r.0.value == zeroValue
  {
    if order == [] then (Popped(zeroKey, zeroValue, false), m)
    else (Popped(order[0], m[order[0]], true), m - {order[0]})
  }

  /** The flagged Next reports found exactly when the store is not empty, and
      then removes exactly the entry it returns. */
  lemma FlaggedNextRemovesOne<K, V>(m: map<K, V>, order: seq<K>, zeroKey: K, zeroValue: V)
    requires IsEnumeration(order, m.Keys)
    ensures var (p, m') := FlaggedNext(m, order, zeroKey, zeroValue);
      && (p.ok <==> |m| > 0)
      && (p.ok ==> p.key in m && p.value == m[p.key] && m' == m - {p.key} && |m'| == |m| - 1)
      && (!p.ok ==> m' == m && p.key == zeroKey && p.value == zeroValue)
  {
    EnumerationLength(order, m.Keys);
    if order != [] {
      assert m.Keys - {order[0]} == (m - {order[0]}).Keys;
      assert |m.Keys - {order[0]}| == |m.Keys| - 1;
    }
  }

  /** The zero-checked Next reports found only for an entry with a non-zero
      key, which it then removes; an empty store reports not found. */
  lemma ZeroCheckedNextSound<K, V>(m: map<K, V>, order: seq<K>, zeroKey: K, zeroValue: V)
    requires IsEnumeration(order, m.Keys)
    ensures var (p, m') := ZeroCheckedNext(m, order, zeroKey, zeroValue);
      && (p.ok ==> p.key != zeroKey && p.key in m && p.value == m[p.key] && m' == m - {p.key} && |m'| == |m| - 1)
      && (!p.ok ==> m' == m)
      && (|m| == 0 ==> !p.ok && p.key == zeroKey && p.value == zeroValue)
  {
    EnumerationLength(order, m.Keys);
    if order != [] {
      assert m.Keys - {order[0]} == (m - {order[0]}).Keys;
      assert |m.Keys - {order[0]}| == |m.Keys| - 1;
    }
  }

  /** The two Next definitions agree exactly when the iteration does not
      start with the zero key. */
  lemma ZeroCheckAgreesUnlessZeroKey<K, V>(m: map<K, V>, order: seq<K>, zeroKey: K, zeroValue: V)
    requires forall i :: 0 <= i < |order| ==> order[i] in m
    ensures ZeroCheckedNext(m, order, zeroKey, zeroValue) == FlaggedNext(m, order, zeroKey, zeroValue)
      <==> order == [] || order[0] != zeroKey
  {
    if order != [] && order[0] == zeroKey {
      assert FlaggedNext(m, order, zeroKey, zeroValue).0.ok;
      assert !ZeroCheckedNext(m, order, zeroKey, zeroValue).0.ok;
    }
  }

  /** The zero-key hazard: a store whose only key is the zero key is never
      drained by the zero-checked Next. It reports not found and keeps the
      entry, however often it is called. */
  lemma ZeroKeyIsNeverPopped<K, V>(zeroKey: K, v: V, zeroValue: V, order: seq<K>)
    requires IsEnumeration(order, {zeroKey})
    ensures ZeroCheckedNext(map[zeroKey := v], order, zeroKey, zeroValue) == (Popped(zeroKey, v, false), map[zeroKey := v])
  {
    EnumerationLength(order, {zeroKey});
    assert order[0] in {zeroKey};
  }
}
