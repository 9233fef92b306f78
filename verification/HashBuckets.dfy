/**
  Open addressing with tombstones, on the sequence of buckets: what a table stands
  for, and what moving, adding, erasing and overwriting one bucket do to that.
 */
module HashBuckets {
  type Key(==, !new)
  type Value(==, !new)

  /** The all-ones hash marks a bucket that was never used. */
  const UNSET: nat := 0xFFFF_FFFF_FFFF_FFFF

  datatype Option<+T> = None | Some(value: T)

  datatype Pair = Pair(key: Key, value: Value)

  datatype Bucket = Bucket(hash: nat, pair: Option<Pair>, tombstone: bool)

  /** Every byte of a fresh bucket is 0xFF, so its flag reads as set. */
  const EMPTY: Bucket := Bucket(UNSET, None, true)

  predicate Unset(b: Bucket) { b.hash == UNSET }

  predicate Tomb(b: Bucket) { b.hash != UNSET && b.tombstone }

  predicate Live(b: Bucket) { b.hash != UNSET && !b.tombstone }

  /** A live bucket holding `key`, as the code tests for it. */
  predicate Matches(b: Bucket, key: Key) {
    !b.tombstone && b.pair.Some? && b.pair.value.key == key
  }

  /** Slots passed when probing cyclically from `from` to `to` among `n` slots. */
  function Dist(from: nat, to: nat, n: nat): (d: nat)
    requires from < n && to < n
    ensures d < n
  {
    if to >= from then to - from else to + n - from
  }

  function Home(h: nat, n: nat): (r: nat)
    requires n > 0
    ensures r < n
  {
    h % n
  }

  /** Slot `j` is probed before slot `i` when probing starts at `home`. */
  predicate Earlier(home: nat, j: nat, i: nat, n: nat)
    requires home < n && j < n && i < n
  {
    Dist(home, j, n) < Dist(home, i, n)
  }

  // ---------- The representation invariant ----------

  /** No key hashes to the mark of an unused bucket. */
  ghost predicate GoodHash(hash: Key -> nat) {
    forall k :: hash(k) < UNSET
  }

  ghost predicate WellFormed(hash: Key -> nat, s: seq<Bucket>) {
    forall i :: 0 <= i < |s| ==>
      && (Unset(s[i]) ==> s[i] == EMPTY)
      && (Live(s[i]) ==> s[i].pair.Some? && s[i].hash == hash(s[i].pair.value.key))
  }

  ghost predicate UnsetIsEmpty(s: seq<Bucket>) {
    forall i :: 0 <= i < |s| && Unset(s[i]) ==> s[i] == EMPTY
  }

  lemma WellFormedUnset(hash: Key -> nat, s: seq<Bucket>)
    requires WellFormed(hash, s)
    ensures UnsetIsEmpty(s)
  {
  }

  /** No slot between an entry's home and its own slot was never used. */
  ghost predicate Chained(s: seq<Bucket>) {
    forall i, j :: 0 <= i < |s| && 0 <= j < |s| && Live(s[i]) && Unset(s[j])
      ==> !Earlier(Home(s[i].hash, |s|), j, i, |s|)
  }

  ghost predicate UniqueKeys(s: seq<Bucket>) {
    forall i, j :: 0 <= i < j < |s| && Live(s[i]) && Live(s[j]) && s[i].pair.Some? && s[j].pair.Some?
      ==> s[i].pair.value.key != s[j].pair.value.key
  }

  predicate HasKey(s: seq<Bucket>, k: Key) {
    exists i :: 0 <= i < |s| && Live(s[i]) && Matches(s[i], k)
  }

  /** The live entries are exactly those of `m`. */
  ghost predicate Represents(s: seq<Bucket>, m: map<Key, Value>) {
    && (forall i :: 0 <= i < |s| && Live(s[i]) && s[i].pair.Some? ==>
          s[i].pair.value.key in m && m[s[i].pair.value.key] == s[i].pair.value.value)
    && (forall k :: k in m ==> HasKey(s, k))
  }

  ghost predicate Table(hash: Key -> nat, s: seq<Bucket>, m: map<Key, Value>) {
    GoodHash(hash) && WellFormed(hash, s) && Chained(s) && UniqueKeys(s) && Represents(s, m)
  }

  function LiveCount(s: seq<Bucket>): nat {
    if s == [] then 0 else LiveCount(s[..|s| - 1]) + if Live(s[|s| - 1]) then 1 else 0
  }

  lemma TableParts(hash: Key -> nat, s: seq<Bucket>, m: map<Key, Value>)
    ensures Table(hash, s, m) <==>
      GoodHash(hash) && WellFormed(hash, s) && Chained(s) && UniqueKeys(s) && Represents(s, m)
  {
  }

  lemma {:induction false} LiveCountUpdate(s: seq<Bucket>, i: nat, b: Bucket)
    requires i < |s|
    ensures LiveCount(s[i := b]) == LiveCount(s) - (if Live(s[i]) then 1 else 0) + (if Live(b) then 1 else 0)
  {
    var n := |s| - 1;
    if i == n {
      assert s[i := b][..n] == s[..n];
    } else {
      LiveCountUpdate(s[..n], i, b);
      assert s[i := b][..n] == s[..n][i := b];
    }
  }

  /** Pigeonhole: fewer live entries than slots leave a slot free. */
  lemma {:induction false} FreeSlot(s: seq<Bucket>) returns (i: nat)
    requires LiveCount(s) < |s|
    ensures i < |s| && !Live(s[i])
  {
    var n := |s| - 1;
    if Live(s[n]) {
      i := FreeSlot(s[..n]);
    } else {
      i := n;
    }
  }

  lemma {:induction false} LiveCountBound(s: seq<Bucket>, n: nat)
    requires n <= |s|
    ensures LiveCount(s[..n]) <= LiveCount(s) <= |s|
  {
    if s != [] {
      if n == |s| {
        assert s[..n] == s;
        LiveCountBound(s[..n - 1], n - 1);
      } else {
        LiveCountBound(s[..|s| - 1], n);
        assert s[..|s| - 1][..n] == s[..n];
      }
    }
  }

  lemma {:induction false} AllEmpty(hash: Key -> nat, s: seq<Bucket>)
    requires GoodHash(hash) && forall i :: 0 <= i < |s| ==> s[i] == EMPTY
    ensures Table(hash, s, map[]) && LiveCount(s) == 0
  {
    if s != [] {
      AllEmpty(hash, s[..|s| - 1]);
    }
  }

  // ---------- Buckets that may hold a key twice ----------

  /** The map of all live entries in slot order, later ones prevailing. */
  function LastMap(s: seq<Bucket>): map<Key, Value> {
    if s == [] then map[]
    else
      var b := s[|s| - 1];
      var m := LastMap(s[..|s| - 1]);
      if Live(b) && b.pair.Some? then m[b.pair.value.key := b.pair.value.value] else m
  }

  /** Slot `i` is the last live one that holds `k`. */
  ghost predicate LastHeld(s: seq<Bucket>, k: Key, i: nat) {
    && i < |s| && Live(s[i]) && Matches(s[i], k)
    && forall j :: i < j < |s| && Live(s[j]) ==> !Matches(s[j], k)
  }

  /** `LastMap` has exactly the keys held in some live bucket, each with its last value. */
  lemma {:induction false} LastMapHas(s: seq<Bucket>, k: Key)
    ensures k in LastMap(s) <==> HasKey(s, k)
    ensures forall i: nat :: LastHeld(s, k, i) ==> k in LastMap(s) && LastMap(s)[k] == s[i].pair.value.value
    ensures k in LastMap(s) ==> exists i: nat :: LastHeld(s, k, i)
  {
    hide LastHeld, HasKey, Matches;
    if s == [] {
      NothingHeld(k);
    } else {
      LastMapHas(s[..|s| - 1], k);
      HasKeyStep(s, k);
      forall i: nat
        ensures LastHeld(s, k, i) <==>
          if HoldsAtEnd(s, k) then i == |s| - 1 else i < |s| - 1 && LastHeld(s[..|s| - 1], k, i)
      {
        LastHeldStep(s, k, i);
      }
      if HoldsAtEnd(s, k) {
        assert LastHeld(s, k, |s| - 1);
      } else if HasKey(s, k) {
        var i: nat :| LastHeld(s[..|s| - 1], k, i);
        LastHeldStep(s, k, i);
      }
    }
  }

  predicate HoldsAtEnd(s: seq<Bucket>, k: Key)
    requires s != []
  {
    Live(s[|s| - 1]) && Matches(s[|s| - 1], k)
  }

  lemma NothingHeld(k: Key)
    ensures !HasKey([], k) && forall i: nat :: !LastHeld([], k, i)
  {
  }

  lemma HasKeyStep(s: seq<Bucket>, k: Key)
    requires s != []
    ensures HasKey(s, k) <==> HasKey(s[..|s| - 1], k) || HoldsAtEnd(s, k)
    ensures HoldsAtEnd(s, k) ==> s[|s| - 1].pair.Some? && s[|s| - 1].pair.value.key == k
    ensures Live(s[|s| - 1]) && s[|s| - 1].pair.Some? && s[|s| - 1].pair.value.key == k ==> HoldsAtEnd(s, k)
  {
    var t := s[..|s| - 1];
    if HasKey(t, k) {
      var i :| 0 <= i < |t| && Live(t[i]) && Matches(t[i], k);
      assert s[i] == t[i];
    }
    if HasKey(s, k) && !HoldsAtEnd(s, k) {
      var i :| 0 <= i < |s| && Live(s[i]) && Matches(s[i], k);
      assert t[i] == s[i];
    }
  }

  lemma LastHeldStep(s: seq<Bucket>, k: Key, i: nat)
    requires s != []
    ensures LastHeld(s, k, i) <==>
      if HoldsAtEnd(s, k) then i == |s| - 1 else i < |s| - 1 && LastHeld(s[..|s| - 1], k, i)
    ensures LastHeld(s, k, i) ==> s[i].pair.Some?
    ensures LastHeld(s[..|s| - 1], k, i) ==> i < |s| - 1
  {
    var t := s[..|s| - 1];
    assert forall j :: 0 <= j < |t| ==> t[j] == s[j];
  }

  lemma {:induction false} LastMapSize(s: seq<Bucket>)
    ensures |LastMap(s)| <= LiveCount(s)
  {
    if s != [] {
      LastMapSize(s[..|s| - 1]);
      var b, m := s[|s| - 1], LastMap(s[..|s| - 1]);
      if Live(b) && b.pair.Some? {
        PutSize(m, b.pair.value.key, b.pair.value.value);
      }
    }
  }

  lemma PutSize(m: map<Key, Value>, k: Key, v: Value)
    ensures |m[k := v]| == |m| + if k in m then 0 else 1
  {
    assert m[k := v].Keys == m.Keys + {k};
  }

  /** Where every key is held once, it is the map that the buckets represent. */
  lemma LastMapExact(s: seq<Bucket>, m: map<Key, Value>)
    requires Represents(s, m)
    ensures LastMap(s) == m
  {
    forall k
      ensures k in LastMap(s) <==> k in m
      ensures k in m ==> LastMap(s)[k] == m[k]
    {
      LastMapHas(s, k);
      if HasKey(s, k) {
        var i: nat :| LastHeld(s, k, i);
        assert s[i].pair.value.key == k;
      }
    }
  }

  // ---------- Probing ----------

  /** A probe that skips tombstones stops at slot `i`, which holds `key`. */
  ghost predicate Hit(s: seq<Bucket>, key: Key, home: nat, i: nat)
    requires home < |s|
  {
    && i < |s| && Matches(s[i], key)
    && forall j :: 0 <= j < |s| && (Matches(s[j], key) || Unset(s[j])) ==> !Earlier(home, j, i, |s|)
  }

  /** A probe that skips tombstones meets an unused slot before any slot with `key`. */
  ghost predicate Miss(s: seq<Bucket>, key: Key, home: nat)
    requires home < |s|
  {
    forall i :: 0 <= i < |s| && Matches(s[i], key) ==>
      exists j :: 0 <= j < |s| && Unset(s[j]) && Earlier(home, j, i, |s|)
  }

  /** `t` is the first tombstone on the way to `i`. */
  ghost predicate FirstTomb(s: seq<Bucket>, home: nat, i: nat, t: nat)
    requires home < |s| && i < |s|
  {
    && t < |s| && Tomb(s[t]) && Earlier(home, t, i, |s|)
    && forall j :: 0 <= j < |s| && Tomb(s[j]) ==> !Earlier(home, j, t, |s|)
  }

  ghost predicate NoTombBefore(s: seq<Bucket>, home: nat, i: nat)
    requires home < |s| && i < |s|
  {
    forall j :: 0 <= j < |s| && Tomb(s[j]) ==> !Earlier(home, j, i, |s|)
  }

  /** The entry at `i` moves into the tombstone at `t`, leaving a tombstone behind. */
  function Moved(s: seq<Bucket>, i: nat, t: nat): seq<Bucket>
    requires i < |s| && t < |s|
  {
    s[t := Bucket(s[i].hash, s[i].pair, false)][i := Bucket(s[i].hash, None, true)]
  }

  /** A probe for insertion stops at `i`: the first slot that is free or holds `key`. */
  ghost predicate Stops(s: seq<Bucket>, key: Key, home: nat, i: nat)
    requires home < |s|
  {
    && i < |s| && (Matches(s[i], key) || !Live(s[i]))
    && forall j :: 0 <= j < |s| && (Matches(s[j], key) || !Live(s[j])) ==> !Earlier(home, j, i, |s|)
  }

  /** No tombstone lies between the home of `key` and the slot that holds it. */
  ghost predicate PathClear(s: seq<Bucket>, key: Key, home: nat)
    requires home < |s|
  {
    forall i :: 0 <= i < |s| && Matches(s[i], key) ==> NoTombBefore(s, home, i)
  }

  /** What a lookup that found `hit` and moved it to `found` leaves behind. */
  function AfterFind(s: seq<Bucket>, hit: nat, found: nat): seq<Bucket>
    requires hit < |s| && found < |s|
  {
    if found == hit then s else Moved(s, hit, found)
  }

  /** The key found in slot `hit` of `s` is now in slot `found` of `s'`. */
  ghost predicate Relocated(s: seq<Bucket>, s': seq<Bucket>, key: Key, home: nat, hit: nat, found: nat)
    requires home < |s|
  {
    && Hit(s, key, home, hit) && found < |s| && s' == AfterFind(s, hit, found)
    && (if found == hit then NoTombBefore(s, home, hit) else FirstTomb(s, home, hit, found))
  }

  /** A lookup in `s` ended in slot `index` of `s'`, or found nothing. */
  ghost predicate Located(s: seq<Bucket>, s': seq<Bucket>, key: Key, home: nat, index: int)
    requires home < |s|
  {
    if index < 0 then Miss(s, key, home) && s' == s
    else exists hit: nat :: Relocated(s, s', key, home, hit, index)
  }

  ghost predicate LookedUp(s: seq<Bucket>, s': seq<Bucket>, key: Key, home: nat)
    requires home < |s|
  {
    exists index: int :: Located(s, s', key, home, index)
  }

  /** A lookup returns the value of the first match on the probe path. */
  ghost predicate Reads(s: seq<Bucket>, key: Key, home: nat, value: Option<Value>)
    requires home < |s|
  {
    if value.None? then Miss(s, key, home)
    else exists hit: nat :: Hit(s, key, home, hit) && s[hit].pair.value.value == value.value
  }

  /** An insertion wrote the entry where its probe stopped. */
  ghost predicate StoredAt(s: seq<Bucket>, s': seq<Bucket>, key: Key, value: Value, h: nat, home: nat)
    requires home < |s|
  {
    exists p: nat :: Stops(s, key, home, p) && s' == s[p := Bucket(h, Some(Pair(key, value)), false)]
  }

  function Buried(s: seq<Bucket>, i: nat): seq<Bucket>
    requires i < |s|
  {
    s[i := s[i].(tombstone := true)]
  }

  /** An erasure made a tombstone of what its lookup found. */
  ghost predicate ErasedFrom(s: seq<Bucket>, s': seq<Bucket>, key: Key, home: nat)
    requires home < |s|
  {
    || (Miss(s, key, home) && s' == s)
    || exists hit: nat, found: nat ::
         hit < |s| && found < |s| && Relocated(s, AfterFind(s, hit, found), key, home, hit, found)
         && s' == Buried(AfterFind(s, hit, found), found)
  }

  // ---------- Writing one bucket ----------

  lemma WriteChained(s: seq<Bucket>, p: nat, b: Bucket)
    requires Chained(s) && p < |s| && !Unset(b)
    requires Live(b) ==> forall j :: 0 <= j < |s| && Unset(s[j]) ==> !Earlier(Home(b.hash, |s|), j, p, |s|)
    ensures Chained(s[p := b])
  {
    var s' := s[p := b];
    forall i, j | 0 <= i < |s'| && 0 <= j < |s'| && Live(s'[i]) && Unset(s'[j])
      ensures !Earlier(Home(s'[i].hash, |s'|), j, i, |s'|)
    {
      assert s'[j] == s[j];
    }
  }

  /** Writing a live entry whose key is stored nowhere else. */
  lemma WriteLive(hash: Key -> nat, s: seq<Bucket>, m: map<Key, Value>, p: nat, key: Key, value: Value)
    requires GoodHash(hash) && WellFormed(hash, s) && UniqueKeys(s) && Represents(s, m) && p < |s|
    requires forall i :: 0 <= i < |s| && i != p && Live(s[i]) ==> !Matches(s[i], key)
    requires Live(s[p]) ==> Matches(s[p], key)
    ensures var s' := s[p := Bucket(hash(key), Some(Pair(key, value)), false)];
      WellFormed(hash, s') && UniqueKeys(s') && Represents(s', m[key := value])
  {
    var s', m' := s[p := Bucket(hash(key), Some(Pair(key, value)), false)], m[key := value];
    assert Live(s'[p]) && Matches(s'[p], key);
    forall k | k in m'
      ensures HasKey(s', k)
    {
      if k != key {
        assert HasKey(s, k);
        var x :| 0 <= x < |s| && Live(s[x]) && Matches(s[x], k);
        assert s'[x] == s[x];
      }
    }
  }

  /** Turning a slot into a tombstone. */
  lemma WriteTomb(hash: Key -> nat, s: seq<Bucket>, m: map<Key, Value>, p: nat, b: Bucket)
    requires WellFormed(hash, s) && UniqueKeys(s) && Represents(s, m)
    requires p < |s| && Live(s[p]) && Tomb(b)
    ensures WellFormed(hash, s[p := b]) && UniqueKeys(s[p := b])
    ensures Represents(s[p := b], m - {s[p].pair.value.key})
  {
    var s', m' := s[p := b], m - {s[p].pair.value.key};
    forall k | k in m'
      ensures HasKey(s', k)
    {
      assert HasKey(s, k);
      var x :| 0 <= x < |s| && Live(s[x]) && Matches(s[x], k);
      assert s'[x] == s[x];
    }
  }

  // ---------- What one step does to the number of live buckets ----------

  /** Only a live bucket matches a key, and it carries the hash of that key. */
  lemma MatchIsLive(hash: Key -> nat, s: seq<Bucket>, key: Key, i: nat)
    requires WellFormed(hash, s) && i < |s| && Matches(s[i], key)
    ensures Live(s[i]) && s[i].hash == hash(key)
  {
  }

  lemma MoveCounts(hash: Key -> nat, s: seq<Bucket>, key: Key, home: nat, i: nat, t: nat)
    requires GoodHash(hash) && WellFormed(hash, s) && home < |s|
    requires Hit(s, key, home, i) && FirstTomb(s, home, i, t)
    ensures WellFormed(hash, Moved(s, i, t)) && LiveCount(Moved(s, i, t)) == LiveCount(s)
    ensures Live(Moved(s, i, t)[t]) && Matches(Moved(s, i, t)[t], key)
  {
    hide LiveCount;
    MatchIsLive(hash, s, key, i);
    LiveCountUpdate(s, t, Bucket(s[i].hash, s[i].pair, false));
    LiveCountUpdate(s[t := Bucket(s[i].hash, s[i].pair, false)], i, Bucket(s[i].hash, None, true));
  }

  lemma StoreCounts(hash: Key -> nat, s: seq<Bucket>, key: Key, value: Value, home: nat, p: nat)
    requires GoodHash(hash) && WellFormed(hash, s) && home < |s| && Stops(s, key, home, p)
    ensures Live(s[p]) <==> !s[p].tombstone && s[p].pair.Some?
    ensures Live(s[p]) ==> s[p].hash == hash(key) && s[p].pair.value.key == key
    ensures var s' := s[p := Bucket(hash(key), Some(Pair(key, value)), false)];
      WellFormed(hash, s') && LiveCount(s') == LiveCount(s) + if Live(s[p]) then 0 else 1
  {
    hide LiveCount;
    LiveCountUpdate(s, p, Bucket(hash(key), Some(Pair(key, value)), false));
  }

  lemma EraseCounts(hash: Key -> nat, s: seq<Bucket>, p: nat)
    requires WellFormed(hash, s) && p < |s| && Live(s[p])
    ensures var s' := Buried(s, p);
      WellFormed(hash, s') && LiveCount(s') == LiveCount(s) - 1
  {
    hide LiveCount;
    LiveCountUpdate(s, p, s[p].(tombstone := true));
  }

  lemma {:induction false} NoneLive(s: seq<Bucket>)
    requires LiveCount(s) == 0
    ensures forall i :: 0 <= i < |s| ==> !Live(s[i])
  {
    if s != [] {
      NoneLive(s[..|s| - 1]);
    }
  }

  // ---------- What one step does to the map ----------

  /** A probe finds a key exactly when it is live. */
  lemma LookupExact(hash: Key -> nat, s: seq<Bucket>, m: map<Key, Value>, key: Key)
    requires Table(hash, s, m) && s != []
    ensures Miss(s, key, Home(hash(key), |s|)) ==> key !in m
    ensures forall i: nat :: Hit(s, key, Home(hash(key), |s|), i) ==>
      Live(s[i]) && key in m && s[i].pair == Some(Pair(key, m[key])) && s[i].hash == hash(key)
  {
  }

  /** At most one live slot holds a key. */
  lemma OnlySlot(s: seq<Bucket>, i: nat, key: Key)
    requires UniqueKeys(s) && i < |s| && Live(s[i]) && Matches(s[i], key)
    ensures forall j :: 0 <= j < |s| && j != i && Live(s[j]) ==> !Matches(s[j], key)
  {
  }

  /** Moving a found entry into an earlier tombstone changes nothing that can be observed. */
  lemma MoveKeepsTable(hash: Key -> nat, s: seq<Bucket>, m: map<Key, Value>, key: Key, i: nat, t: nat)
    requires Table(hash, s, m) && s != []
    requires Hit(s, key, Home(hash(key), |s|), i) && FirstTomb(s, Home(hash(key), |s|), i, t)
    ensures Table(hash, Moved(s, i, t), m) && LiveCount(Moved(s, i, t)) == LiveCount(s)
  {
    hide Table, Chained, UniqueKeys, Represents, WellFormed, GoodHash, LiveCount, Hit, FirstTomb;
    MoveFacts(hash, s, m, key, i, t);
    var home, b := Home(hash(key), |s|), Bucket(hash(key), Some(Pair(key, m[key])), false);
    var gone := Bucket(hash(key), None, true);
    MoveCounts(hash, s, key, home, i, t);
    var s1 := s[i := gone];
    WriteChained(s, i, gone);
    WriteTomb(hash, s, m, i, gone);
    WriteChained(s1, t, b);
    WriteLive(hash, s1, m - {key}, t, key, m[key]);
    assert (m - {key})[key := m[key]] == m;
    assert Moved(s, i, t) == s1[t := b];
    TableParts(hash, Moved(s, i, t), m);
  }

  /** What the two writes of the move need to know. */
  lemma MoveFacts(hash: Key -> nat, s: seq<Bucket>, m: map<Key, Value>, key: Key, i: nat, t: nat)
    requires Table(hash, s, m) && s != []
    requires Hit(s, key, Home(hash(key), |s|), i) && FirstTomb(s, Home(hash(key), |s|), i, t)
    ensures GoodHash(hash) && WellFormed(hash, s) && Chained(s) && UniqueKeys(s) && Represents(s, m)
    ensures i < |s| && t < |s| && i != t && Live(s[i]) && Tomb(s[t]) && hash(key) < UNSET && key in m
    ensures s[i] == Bucket(hash(key), Some(Pair(key, m[key])), false)
    ensures forall x :: 0 <= x < |s| && x != i && Live(s[x]) ==> !Matches(s[x], key)
    ensures forall j :: 0 <= j < |s| && Unset(s[j]) ==> !Earlier(Home(hash(key), |s|), j, t, |s|)
  {
    hide LiveCount, Represents, UniqueKeys;
    LookupExact(hash, s, m, key);
    OnlySlot(s, i, key);
  }

  /** After the move no tombstone precedes the key any more. */
  lemma MoveClearsPath(hash: Key -> nat, s: seq<Bucket>, m: map<Key, Value>, key: Key, i: nat, t: nat)
    requires Table(hash, s, m) && s != []
    requires Hit(s, key, Home(hash(key), |s|), i) && FirstTomb(s, Home(hash(key), |s|), i, t)
    ensures PathClear(Moved(s, i, t), key, Home(hash(key), |s|)) && Matches(Moved(s, i, t)[t], key)
  {
    hide Chained, UniqueKeys, Represents;
    LookupExact(hash, s, m, key);
    OnlySlot(s, i, key);
    var home, s' := Home(hash(key), |s|), Moved(s, i, t);
    forall x | 0 <= x < |s'| && Matches(s'[x], key)
      ensures NoTombBefore(s', home, x)
    {
      assert x == t;
      forall j | 0 <= j < |s'| && Tomb(s'[j])
        ensures !Earlier(home, j, t, |s'|)
      {
        assert j == i || s'[j] == s[j];
      }
    }
  }

  /** Where a probe for insertion stops, given that the key is present. */
  lemma StopsAtKey(hash: Key -> nat, s: seq<Bucket>, m: map<Key, Value>, key: Key, p: nat)
    requires Table(hash, s, m) && s != [] && key in m && Stops(s, key, Home(hash(key), |s|), p)
    ensures Live(s[p]) <==> PathClear(s, key, Home(hash(key), |s|))
    ensures Live(s[p]) ==> s[p].pair == Some(Pair(key, m[key])) && s[p].hash == hash(key)
  {
    var home := Home(hash(key), |s|);
    assert HasKey(s, key);
    var i :| 0 <= i < |s| && Live(s[i]) && Matches(s[i], key);
    assert s[i].hash == hash(key);
    OnlySlot(s, i, key);
    if !Live(s[p]) {
      assert Earlier(home, p, i, |s|);
      assert Tomb(s[p]);
      assert !NoTombBefore(s, home, i);
    } else {
      assert p == i;
      forall x | 0 <= x < |s| && Matches(s[x], key)
        ensures NoTombBefore(s, home, x)
      {
        assert x == i;
      }
    }
  }

  /** Overwriting the value of the live entry of `key`. */
  lemma OverwriteKeepsTable(hash: Key -> nat, s: seq<Bucket>, m: map<Key, Value>, p: nat, key: Key, value: Value)
    requires Table(hash, s, m) && p < |s| && Live(s[p]) && Matches(s[p], key)
    ensures var s' := s[p := Bucket(hash(key), Some(Pair(key, value)), false)];
      Table(hash, s', m[key := value]) && LiveCount(s') == LiveCount(s)
  {
    hide LiveCount;
    var b := Bucket(hash(key), Some(Pair(key, value)), false);
    assert s[p].hash == hash(key);
    OnlySlot(s, p, key);
    LiveCountUpdate(s, p, b);
    WriteChained(s, p, b);
    WriteLive(hash, s, m, p, key, value);
  }

  /** Filling the free slot where the probe stopped, for a key that is absent. */
  lemma AddKeepsTable(hash: Key -> nat, s: seq<Bucket>, m: map<Key, Value>, key: Key, value: Value, p: nat)
    requires Table(hash, s, m) && s != [] && key !in m
    requires Stops(s, key, Home(hash(key), |s|), p) && !Live(s[p])
    ensures var s' := s[p := Bucket(hash(key), Some(Pair(key, value)), false)];
      Table(hash, s', m[key := value]) && LiveCount(s') == LiveCount(s) + 1
  {
    var b := Bucket(hash(key), Some(Pair(key, value)), false);
    LiveCountUpdate(s, p, b);
    WriteChained(s, p, b);
    WriteLive(hash, s, m, p, key, value);
  }

  /**
    Two live buckets hold the key. Probes stop at the one with `first`, and meet no
    tombstone on the way.
   */
  ghost predicate HeldTwice(s: seq<Bucket>, key: Key, first: Value, second: Value, home: nat)
    requires home < |s|
  {
    exists p: nat, i: nat :: p < |s| && i < |s| && HeldAt(s, key, first, second, home, p, i)
  }

  ghost predicate HeldAt(s: seq<Bucket>, key: Key, first: Value, second: Value, home: nat, p: nat, i: nat)
    requires home < |s| && p < |s| && i < |s|
  {
    && p != i && Live(s[p]) && Live(s[i])
    && s[p].pair == Some(Pair(key, first)) && s[i].pair == Some(Pair(key, second))
    && Hit(s, key, home, p) && NoTombBefore(s, home, p)
  }

  lemma PresentHas(s: seq<Bucket>, m: map<Key, Value>, key: Key)
    requires Represents(s, m) && key in m
    ensures exists i :: 0 <= i < |s| && Live(s[i]) && Matches(s[i], key) && s[i].pair.value.value == m[key]
  {
    assert HasKey(s, key);
  }

  /** Filling a tombstone for a key that is present further on stores the key twice. */
  lemma AddTwice(hash: Key -> nat, s: seq<Bucket>, m: map<Key, Value>, key: Key, value: Value, p: nat)
    requires GoodHash(hash) && Represents(s, m) && key in m && s != []
    requires Stops(s, key, Home(hash(key), |s|), p) && !Live(s[p])
    ensures var s' := s[p := Bucket(hash(key), Some(Pair(key, value)), false)];
      HeldTwice(s', key, value, m[key], Home(hash(key), |s|)) && !UniqueKeys(s')
  {
    hide Represents;
    PresentHas(s, m, key);
    var home, s' := Home(hash(key), |s|), s[p := Bucket(hash(key), Some(Pair(key, value)), false)];
    var i :| 0 <= i < |s| && Live(s[i]) && Matches(s[i], key) && s[i].pair.value.value == m[key];
    assert s'[i] == s[i] && Live(s'[p]) && s'[p].pair.value.key == key == s'[i].pair.value.key;
    assert HeldAt(s', key, value, m[key], home, p, i);
  }

  lemma EraseKeepsTable(hash: Key -> nat, s: seq<Bucket>, m: map<Key, Value>, p: nat, key: Key)
    requires Table(hash, s, m) && p < |s| && Live(s[p]) && Matches(s[p], key)
    ensures var s' := Buried(s, p);
      Table(hash, s', m - {key}) && LiveCount(s') == LiveCount(s) - 1 && key in m
  {
    var b := s[p].(tombstone := true);
    LiveCountUpdate(s, p, b);
    WriteChained(s, p, b);
    WriteTomb(hash, s, m, p, b);
  }

  // ---------- Where the code falls short ----------

  /** Two keys with home slot 0 were inserted, the first one erased again. */
  function Colliding(a: Pair, k: Pair): seq<Bucket> {
    [Bucket(0, Some(a), true), Bucket(0, Some(k), false), EMPTY, EMPTY, EMPTY, EMPTY, EMPTY, EMPTY]
  }

  /** Eight buckets, the first of which hold `first`. */
  function Filled(first: seq<Bucket>): (s: seq<Bucket>)
    requires |first| <= 8
    ensures |s| == 8
  {
    first + seq(8 - |first|, _ => EMPTY)
  }

  function Entry(a: Pair): Bucket {
    Bucket(0, Some(a), false)
  }

  lemma CollidingFirst(s: seq<Bucket>, a: Pair)
    requires StoredAt(seq(8, _ => EMPTY), s, a.key, a.value, 0, 0)
    ensures s == Filled([Entry(a)])
  {
    var e := seq(8, _ => EMPTY);
    var p: nat :| Stops(e, a.key, 0, p) && s == e[p := Bucket(0, Some(Pair(a.key, a.value)), false)];
    assert Unset(e[0]) && !Earlier(0, 0, p, 8);
  }

  lemma CollidingSecond(s: seq<Bucket>, a: Pair, k: Pair)
    requires a.key != k.key && StoredAt(Filled([Entry(a)]), s, k.key, k.value, 0, 0)
    ensures s == Filled([Entry(a), Entry(k)])
  {
    var e := Filled([Entry(a)]);
    var p: nat :| Stops(e, k.key, 0, p) && s == e[p := Bucket(0, Some(Pair(k.key, k.value)), false)];
    assert Unset(e[1]) && !Earlier(0, 1, p, 8);
    assert Live(e[0]) && !Matches(e[0], k.key);
  }

  lemma CollidingErased(s: seq<Bucket>, a: Pair, k: Pair)
    requires ErasedFrom(Filled([Entry(a), Entry(k)]), s, a.key, 0)
    ensures s == Colliding(a, k)
  {
    var e := Filled([Entry(a), Entry(k)]);
    assert Matches(e[0], a.key);
    assert forall j :: 0 <= j < 8 ==> !Earlier(0, j, 0, 8);
    assert !Miss(e, a.key, 0);
    var hit: nat, found: nat :|
      hit < |e| && found < |e| && Relocated(e, AfterFind(e, hit, found), a.key, 0, hit, found)
      && s == Buried(AfterFind(e, hit, found), found);
    assert !Earlier(0, 0, hit, 8);
    assert hit == 0 && found == 0;
  }

  lemma CollidingTwice(s: seq<Bucket>, a: Pair, k: Pair, value: Value)
    requires a.key != k.key && StoredAt(Colliding(a, k), s, k.key, value, 0, 0)
    ensures s == Filled([Entry(Pair(k.key, value)), Entry(k)])
  {
    CollidingBlocked(a, k);
  }

  lemma CollidingReads(a: Pair, k: Pair, value: Option<Value>)
    requires Reads(Colliding(a, k), k.key, 0, value)
    ensures value == Some(k.value)
  {
    var s := Colliding(a, k);
    assert Matches(s[1], k.key);
    assert forall j :: 0 <= j < 8 && Earlier(0, j, 1, 8) ==> j == 0;
    assert !Miss(s, k.key, 0);
  }

  /** The second key is behind the tombstone of the first. */
  lemma CollidingBlocked(a: Pair, k: Pair)
    ensures !PathClear(Colliding(a, k), k.key, 0)
    ensures forall p: nat :: Stops(Colliding(a, k), k.key, 0, p) ==> p == 0
  {
    var s := Colliding(a, k);
    assert Matches(s[1], k.key) && Tomb(s[0]) && Earlier(0, 0, 1, 8);
    assert !NoTombBefore(s, 0, 1);
  }
}
