/** What the database-backed stores share: keys are stored as their msgpack
    encoding, and a pass over the stored rows hands out only the rows whose
    key bytes decode. */
module ByteKeys {
  import opened Common
  import opened Contract

  /** The (key, value) pairs a Range pass can hand out from the cursor's
      entries: those whose key bytes decode, with the decoded key. */
  function DecodedKeyEntries<K(!new)>(codec: KeyCodec<K>, es: seq<(Bytes, Bytes)>): (r: seq<(K, Bytes)>)
    ensures |r| <= |es|
  {
    if es == [] then []
    else
      var last := es[|es| - 1];
      DecodedKeyEntries(codec, es[..|es| - 1]) +
        match codec.decode(last.0)
        case None => []
        case Some(k) => [(k, last.1)]
  }

  /** Decoding the entries of a concatenation decodes each part. */
  lemma {:induction false} DecodedKeyEntriesAppend<K(!new)>(codec: KeyCodec<K>, a: seq<(Bytes, Bytes)>, b: seq<(Bytes, Bytes)>)
    ensures DecodedKeyEntries(codec, a + b) == DecodedKeyEntries(codec, a) + DecodedKeyEntries(codec, b)
    decreases |b|
  {
    if b != [] {
      var b' := b[..|b| - 1];
      assert (a + b)[..|a + b| - 1] == a + b';
      DecodedKeyEntriesAppend(codec, a, b');
    } else {
      assert a + b == a;
    }
  }

  /** Decoding one more entry. */
  lemma DecodedKeyEntriesSnoc<K(!new)>(codec: KeyCodec<K>, es: seq<(Bytes, Bytes)>, i: nat)
    requires i < |es|
    ensures DecodedKeyEntries(codec, es[..i + 1]) == DecodedKeyEntries(codec, es[..i]) +
      match codec.decode(es[i].0)
      case None => []
      case Some(k) => [(k, es[i].1)]
  {
    assert es[..i + 1][..i] == es[..i];
  }

  /** The decoded entries of a prefix are a prefix of the decoded entries. */
  lemma DecodedKeyEntriesSplit<K(!new)>(codec: KeyCodec<K>, es: seq<(Bytes, Bytes)>, i: nat)
    requires i <= |es|
    ensures DecodedKeyEntries(codec, es) == DecodedKeyEntries(codec, es[..i]) + DecodedKeyEntries(codec, es[i..])
  {
    DecodedKeyEntriesAppend(codec, es[..i], es[i..]);
    assert es[..i] + es[i..] == es;
  }

  /** A pass that has handed out the decoded entries of `es[..i]` and whose
      visitor rejected the last of them has made the Range pass over all the
      decoded entries. */
  lemma DecodedPassStops<K(!new)>(codec: KeyCodec<K>, es: seq<(Bytes, Bytes)>, i: nat, visit: (K, Bytes) -> bool)
    requires i <= |es|
    requires var done := DecodedKeyEntries(codec, es[..i]);
      && done != []
      && (forall j :: 0 <= j < |done| - 1 ==> visit(done[j].0, done[j].1))
      && !visit(done[|done| - 1].0, done[|done| - 1].1)
    ensures RangeTrace(DecodedKeyEntries(codec, es), visit) == DecodedKeyEntries(codec, es[..i])
  {
    var done := DecodedKeyEntries(codec, es[..i]);
    DecodedKeyEntriesSplit(codec, es, i);
    var all := DecodedKeyEntries(codec, es);
    assert all[..|done|] == done;
    StopsAfter(all, visit, |done|);
  }

  /** A cursor pass over key-bytes entries: an entry whose key does not
      decode is skipped, the others are handed to `visit` until it returns
      false. */
  method DecodedPass<K(!new)>(codec: KeyCodec<K>, es: seq<(Bytes, Bytes)>, visit: (K, Bytes) -> bool)
    returns (visited: seq<(K, Bytes)>)
    ensures visited == RangeTrace(DecodedKeyEntries(codec, es), visit)
  {
    visited := [];
    var i := 0;
    while i < |es|
      invariant 0 <= i <= |es|
      invariant visited == DecodedKeyEntries(codec, es[..i])
      invariant forall j :: 0 <= j < |visited| ==> visit(visited[j].0, visited[j].1)
    {
      DecodedKeyEntriesSnoc(codec, es, i);
      var decoded := codec.decode(es[i].0);
      if decoded.Some? {
        var k := decoded.value;
        visited := visited + [(k, es[i].1)];
        if !visit(k, es[i].1) {
          DecodedPassStops(codec, es, i + 1, visit);
          return;
        }
      }
      i := i + 1;
    }
    assert es[..i] == es;
    AcceptedThroughout(visited, visit);
  }

  /** When every stored key is canonical, every entry decodes. */
  lemma {:induction false} DecodedKeyEntriesOfCanonical<K(!new)>(codec: KeyCodec<K>, es: seq<(Bytes, Bytes)>)
    requires forall i :: 0 <= i < |es| ==> codec.Canonical(es[i].0)
    ensures |DecodedKeyEntries(codec, es)| == |es|
    ensures forall i :: 0 <= i < |es| ==>
      Some(DecodedKeyEntries(codec, es)[i].0) == codec.decode(es[i].0) && DecodedKeyEntries(codec, es)[i].1 == es[i].1
  {
    if es != [] {
      DecodedKeyEntriesOfCanonical(codec, es[..|es| - 1]);
    }
  }

  /** Removing one more key from a map that already lost some. */
  lemma RemoveOneMore<V>(m: map<Bytes, V>, removed: set<Bytes>, b: Bytes)
    ensures (m - removed) - {b} == m - (removed + {b})
  {
  }

  /** Removing one key from a map shrinks it by one exactly when the key was
      there. */
  lemma RemoveOneCount<V>(m: map<Bytes, V>, b: Bytes)
    ensures b !in m ==> m - {b} == m
    ensures b in m ==> |m - {b}| == |m| - 1
  {
    if b in m {
      assert (m - {b}).Keys == m.Keys - {b};
    }
  }
}
