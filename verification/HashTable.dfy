/**
  The hash table in memory: a bucket array that probing, insertion, erasure and
  resizing change in place.
 */
module HashTables {
  import opened HashBuckets
  import Machine

  const TABLE_MIN: nat := 8

  const NOT_FOUND: int := -1

  /** Whether a probe stops at this bucket with a result. */
  predicate IsFound(b: Bucket, key: Key, skipTombstones: bool) {
    || (!b.tombstone && b.pair.Some? && b.pair.value.key == key)
    || (!skipTombstones && (b.hash == UNSET || b.tombstone))
  }

  lemma NextSlot(start: nat, index: nat, n: nat)
    requires start < n && index < n
    ensures (index + 1) % n == if index + 1 == n then 0 else index + 1
    ensures Dist(start, index, n) + 1 < n ==> Dist(start, (index + 1) % n, n) == Dist(start, index, n) + 1
  {
    if index + 1 < n {
      Machine.ModSmall(index + 1, n);
    }
  }

  /** Every slot at which a probe would stop lies at or after `index`. */
  predicate Passed(s: seq<Bucket>, key: Key, start: nat, index: nat, skipTombstones: bool)
    requires start < |s| && index < |s|
  {
    forall j :: 0 <= j < |s| && (IsFound(s[j], key, skipTombstones) || Unset(s[j])) ==> !Earlier(start, j, index, |s|)
  }

  /** `tombstone` is the first tombstone before `index`, or there is none. */
  predicate FirstPassed(s: seq<Bucket>, start: nat, index: nat, tombstone: int)
    requires start < |s| && index < |s|
  {
    if tombstone < 0 then forall j :: 0 <= j < |s| && Tomb(s[j]) ==> !Earlier(start, j, index, |s|)
    else
      && tombstone < |s| && Tomb(s[tombstone]) && Earlier(start, tombstone, index, |s|)
      && forall j :: 0 <= j < |s| && Tomb(s[j]) ==> !Earlier(start, j, tombstone, |s|)
  }

  lemma PassOne(s: seq<Bucket>, key: Key, start: nat, index: nat, next: nat, skipTombstones: bool)
    requires start < |s| && index < |s| && next < |s| && Passed(s, key, start, index, skipTombstones)
    requires !IsFound(s[index], key, skipTombstones) && !Unset(s[index])
    requires Dist(start, next, |s|) == Dist(start, index, |s|) + 1
    ensures Passed(s, key, start, next, skipTombstones)
  {
  }

  lemma PassTomb(s: seq<Bucket>, start: nat, index: nat, next: nat, tombstone: int)
    requires start < |s| && index < |s| && next < |s| && FirstPassed(s, start, index, tombstone)
    requires Dist(start, next, |s|) == Dist(start, index, |s|) + 1
    ensures FirstPassed(s, start, next, if tombstone < 0 && Tomb(s[index]) then index else tombstone)
  {
  }

  /** The probe stops at `index`. */
  lemma ScanFound(s: seq<Bucket>, key: Key, start: nat, index: nat, tombstone: int, skipTombstones: bool)
    requires start < |s| && index < |s| && UnsetIsEmpty(s) && Passed(s, key, start, index, skipTombstones)
    requires IsFound(s[index], key, skipTombstones)
    ensures skipTombstones ==> Hit(s, key, start, index)
    ensures skipTombstones && FirstPassed(s, start, index, tombstone) ==>
      if tombstone < 0 then NoTombBefore(s, start, index) else FirstTomb(s, start, index, tombstone)
    ensures !skipTombstones ==> Stops(s, key, start, index)
  {
  }

  /** An unused slot ends a lookup. */
  lemma ScanUnset(s: seq<Bucket>, key: Key, start: nat, index: nat)
    requires start < |s| && index < |s| && UnsetIsEmpty(s) && Passed(s, key, start, index, true) && Unset(s[index])
    ensures Miss(s, key, start)
  {
    forall i | 0 <= i < |s| && Matches(s[i], key)
      ensures Earlier(start, index, i, |s|)
    {
      assert IsFound(s[i], key, true) && i != index;
    }
  }

  /** All slots have been passed. */
  lemma ScanAll(s: seq<Bucket>, key: Key, start: nat, index: nat, skipTombstones: bool)
    requires start < |s| && index < |s| && UnsetIsEmpty(s) && Passed(s, key, start, index, skipTombstones)
    requires Dist(start, index, |s|) == |s| - 1 && !IsFound(s[index], key, skipTombstones) && !Unset(s[index])
    ensures Miss(s, key, start)
    ensures !skipTombstones ==> forall i :: 0 <= i < |s| ==> Live(s[i]) && !Matches(s[i], key)
  {
    forall i | 0 <= i < |s|
      ensures !IsFound(s[i], key, skipTombstones) && !Unset(s[i])
    {
      assert i != index ==> Earlier(start, i, index, |s|);
    }
  }

  /**
    The probe loop. It visits at most every slot once, from `start` on, cyclically.
    When tombstones are skipped it also remembers the first one passed.
   */
  method Scan(buckets: array<Bucket>, key: Key, start: nat, skipTombstones: bool)
    returns (found: int, tombstone: int)
    requires start < buckets.Length
    requires UnsetIsEmpty(buckets[..])
    ensures found == NOT_FOUND || 0 <= found < buckets.Length
    ensures skipTombstones && found != NOT_FOUND ==>
      && Hit(buckets[..], key, start, found)
      && (tombstone == NOT_FOUND ==> NoTombBefore(buckets[..], start, found))
      && (tombstone != NOT_FOUND ==> tombstone >= 0 && FirstTomb(buckets[..], start, found, tombstone))
    ensures skipTombstones && found == NOT_FOUND ==> Miss(buckets[..], key, start)
    ensures !skipTombstones ==> tombstone == NOT_FOUND
    ensures !skipTombstones && found != NOT_FOUND ==> Stops(buckets[..], key, start, found)
    ensures !skipTombstones && found == NOT_FOUND ==>
      forall i :: 0 <= i < buckets.Length ==> Live(buckets[i]) && !Matches(buckets[i], key)
  {
    hide Hit, Miss, NoTombBefore, FirstTomb, Stops, UnsetIsEmpty, Passed, FirstPassed;
    ghost var s := buckets[..];
    var capacity := buckets.Length;
    found, tombstone := NOT_FOUND, NOT_FOUND;
    var index, count := start, 1;
    ScanStart(s, key, start, skipTombstones);
    while found == NOT_FOUND
      invariant 0 <= index < capacity && 1 <= count <= capacity && tombstone >= NOT_FOUND
      invariant found == NOT_FOUND ==> Dist(start, index, capacity) == count - 1
      invariant found == NOT_FOUND ==> Passed(s, key, start, index, skipTombstones)
      invariant found == NOT_FOUND ==> if skipTombstones then FirstPassed(s, start, index, tombstone) else tombstone == NOT_FOUND
      invariant found != NOT_FOUND ==> found == index && ScanEnded(s, key, start, found, tombstone, skipTombstones)
      decreases capacity - count, found == NOT_FOUND
    {
      var bucket := buckets[index];
      assert bucket == s[index];
      ghost var before := tombstone;
      if skipTombstones {
        if tombstone == NOT_FOUND && bucket.hash != UNSET && bucket.tombstone {
          tombstone := index;
        } else if bucket.hash == UNSET {
          ScanUnset(s, key, start, index);
          break;
        }
      }
      if IsFound(bucket, key, skipTombstones) {
        ScanFound(s, key, start, index, before, skipTombstones);
        found := index;
      } else {
        NextSlot(start, index, capacity);
        ghost var next := (index + 1) % capacity;
        if count < capacity {
          PassOne(s, key, start, index, next, skipTombstones);
          if skipTombstones {
            PassTomb(s, start, index, next, before);
          }
        } else {
          ScanAll(s, key, start, index, skipTombstones);
        }
        index := (index + 1) % capacity;
      }
      count := count + 1;
      if count > capacity {
        break;
      }
    }
  }

  ghost predicate ScanEnded(s: seq<Bucket>, key: Key, start: nat, found: nat, tombstone: int, skipTombstones: bool)
    requires start < |s| && found < |s|
  {
    if skipTombstones then
      && Hit(s, key, start, found)
      && (if tombstone < 0 then NoTombBefore(s, start, found) else FirstTomb(s, start, found, tombstone))
    else tombstone == NOT_FOUND && Stops(s, key, start, found)
  }

  lemma ScanStart(s: seq<Bucket>, key: Key, start: nat, skipTombstones: bool)
    requires start < |s|
    ensures Passed(s, key, start, start, skipTombstones) && FirstPassed(s, start, start, NOT_FOUND)
  {
  }

  /** A probe. A lookup moves what it finds into the first tombstone it passed. */
  method Probe(buckets: array<Bucket>, key: Key, start: nat, skipTombstones: bool)
    returns (found: int, ghost hit: int)
    requires start < buckets.Length
    requires UnsetIsEmpty(buckets[..])
    modifies buckets
    ensures found == NOT_FOUND || 0 <= found < buckets.Length
    ensures skipTombstones && found != NOT_FOUND ==>
      hit >= 0 && Relocated(old(buckets[..]), buckets[..], key, start, hit, found)
    ensures skipTombstones && found == NOT_FOUND ==> Miss(old(buckets[..]), key, start)
    ensures !skipTombstones && found != NOT_FOUND ==> Stops(old(buckets[..]), key, start, found)
    ensures !skipTombstones && found == NOT_FOUND ==>
      forall i :: 0 <= i < buckets.Length ==> Live(buckets[i]) && !Matches(buckets[i], key)
    ensures !skipTombstones || found == NOT_FOUND ==> buckets[..] == old(buckets[..])
  {
    var tombstone;
    found, tombstone := Scan(buckets, key, start, skipTombstones);
    hit := found;
    if tombstone != NOT_FOUND && found != NOT_FOUND {
      buckets[tombstone] := Bucket(buckets[found].hash, buckets[found].pair, false);
      buckets[found] := Bucket(buckets[found].hash, None, true);
      found := tombstone;
    }
  }

  datatype Resize = Keep | Grow | Shrink

  /** The load thresholds 3/4 and 1/10, read as exact fractions. */
  function ResizeFactor(nmemb: nat, capacity: nat, capacityToShrink: bool): Resize {
    if capacity == 0 then Keep
    else if 4 * nmemb >= 3 * capacity then Grow
    else if 10 * nmemb <= capacity && capacityToShrink then Shrink
    else Keep
  }

  predicate IsTableSize(capacity: nat) {
    capacity == TABLE_MIN || (capacity > TABLE_MIN && capacity % 2 == 0 && IsTableSize(capacity / 2))
  }

  lemma {:induction false} TableSizeEight(capacity: nat)
    requires IsTableSize(capacity)
    ensures capacity % 8 == 0 && capacity >= 8
  {
    if capacity > TABLE_MIN {
      TableSizeEight(capacity / 2);
    }
  }

  /** What holds of the capacity in every reachable state. */
  predicate LoadOk(nmemb: nat, capacity: nat) {
    && IsTableSize(capacity) && 4 * nmemb <= 3 * capacity
    && (capacity <= TABLE_MIN || capacity < 10 * nmemb)
  }

  /**
    Work saved up for the next resize, five times over: 12 for each entry above 3/8 of
    the capacity, or below 1/5 of it when the table can shrink.
   */
  function Potential(nmemb: nat, capacity: nat): nat {
    var above := 60 * nmemb - 180 * (capacity / 8);
    var below := if capacity > TABLE_MIN then 12 * (capacity - 5 * nmemb) else 0;
    if above > 0 && above >= below then above else if below > 0 then below else 0
  }

  /** Saved work pays for growing: the old capacity is charged, then one entry is added. */
  lemma GrowPaid(n: nat, c: nat)
    requires LoadOk(n, c) && ResizeFactor(n, c, c > TABLE_MIN) == Grow
    ensures LoadOk(n + 1, 2 * c)
    ensures 5 * c + Potential(n + 1, 2 * c) <= Potential(n, c) + 60
  {
    TableSizeEight(c);
  }

  /** Saved work pays for shrinking after an entry is erased. */
  lemma ShrinkPaid(n: nat, c: nat)
    requires LoadOk(n + 1, c) && ResizeFactor(n, c, c > TABLE_MIN) == Shrink
    ensures LoadOk(n, c / 2) && n < c / 2
    ensures 5 * c + Potential(n, c / 2) <= Potential(n + 1, c) + 60
  {
    TableSizeEight(c);
    TableSizeEight(c / 2);
  }

  lemma KeepPaidInsert(n: nat, c: nat)
    requires LoadOk(n, c)
    ensures ResizeFactor(n, c, c > TABLE_MIN) != Shrink
    ensures ResizeFactor(n, c, c > TABLE_MIN) == Keep ==>
      LoadOk(n + 1, c) && Potential(n + 1, c) <= Potential(n, c) + 60
  {
    hide IsTableSize;
    TableSizeEight(c);
    var q := c / 8;
    assert c == 8 * q;
    if ResizeFactor(n, c, c > TABLE_MIN) == Keep {
      assert n < 6 * q;
      PotentialUp(n, c);
    }
  }

  lemma PotentialUp(n: nat, c: nat)
    ensures Potential(n + 1, c) <= Potential(n, c) + 60
    ensures Potential(n, c) <= Potential(n + 1, c) + 60
  {
  }

  lemma KeepPaidErase(n: nat, c: nat)
    requires LoadOk(n + 1, c)
    ensures ResizeFactor(n, c, c > TABLE_MIN) != Grow
    ensures ResizeFactor(n, c, c > TABLE_MIN) == Keep ==>
      LoadOk(n, c) && Potential(n, c) <= Potential(n + 1, c) + 60
  {
    hide IsTableSize;
    TableSizeEight(c);
  }

  // ---------- Re-inserting the live entries ----------

  ghost predicate NoTombs(s: seq<Bucket>) {
    forall i :: 0 <= i < |s| ==> !Tomb(s[i])
  }

  /** One more bucket of the old array. */
  lemma LastMapStep(s: seq<Bucket>, i: nat)
    requires i < |s|
    ensures LastMap(s[..i + 1]) ==
      if Live(s[i]) && s[i].pair.Some? then LastMap(s[..i])[s[i].pair.value.key := s[i].pair.value.value] else LastMap(s[..i])
    ensures LiveCount(s[..i + 1]) == LiveCount(s[..i]) + if Live(s[i]) then 1 else 0
  {
    assert s[..i + 1][..i] == s[..i];
  }

  lemma SizePositive(capacity: nat)
    requires IsTableSize(capacity)
    ensures capacity >= TABLE_MIN
  {
  }

  lemma AbsentAt(hash: Key -> nat, s: seq<Bucket>, m: map<Key, Value>, key: Key, i: nat)
    requires Table(hash, s, m) && key !in m && i < |s|
    ensures !Live(s[i]) || !Matches(s[i], key)
  {
  }

  /** With room left, a probe for insertion always ends at some slot. */
  lemma NotFull(s: seq<Bucket>)
    requires LiveCount(s) < |s|
    ensures !forall i :: 0 <= i < |s| ==> Live(s[i])
  {
    var i := FreeSlot(s);
  }

  /**
    Copy the live buckets of `tmp` to an unused bucket array, in slot order. A key that is
    held more than once ends up in one slot, with its last value.
   */
  method ReindexBuckets(buckets: array<Bucket>, tmp: seq<Bucket>, hash: Key -> nat)
    requires buckets.Length > 0 && forall i :: 0 <= i < buckets.Length ==> buckets[i] == EMPTY
    requires GoodHash(hash) && WellFormed(hash, tmp) && LiveCount(tmp) <= buckets.Length
    modifies buckets
    ensures Table(hash, buckets[..], LastMap(tmp)) && NoTombs(buckets[..])
    ensures LiveCount(buckets[..]) == |LastMap(tmp)| <= LiveCount(tmp)
  {
    hide Table, LiveCount, UniqueKeys, Chained, Represents, Home, LastMap;
    AllEmpty(hash, buckets[..]);
    LastMapNone(tmp);
    for i := 0 to |tmp|
      invariant Table(hash, buckets[..], LastMap(tmp[..i])) && NoTombs(buckets[..])
      invariant LiveCount(buckets[..]) == |LastMap(tmp[..i])|
    {
      var bucket := tmp[i];
      LastMapStep(tmp, i);
      if !(bucket.hash == UNSET || bucket.tombstone) {
        LastMapSize(tmp[..i]);
        LiveCountBound(tmp, i + 1);
        Reinsert(buckets, bucket, hash, LastMap(tmp[..i]));
      }
    }
    LastMapSize(tmp);
    assert tmp[..|tmp|] == tmp;
  }

  lemma LastMapNone(s: seq<Bucket>)
    ensures LastMap(s[..0]) == map[]
  {
  }

  method Reinsert(buckets: array<Bucket>, bucket: Bucket, hash: Key -> nat, ghost part: map<Key, Value>)
    requires Table(hash, buckets[..], part) && NoTombs(buckets[..]) && LiveCount(buckets[..]) == |part| < buckets.Length
    requires bucket.pair.Some? && bucket == Bucket(hash(bucket.pair.value.key), bucket.pair, false)
    modifies buckets
    ensures Table(hash, buckets[..], part[bucket.pair.value.key := bucket.pair.value.value]) && NoTombs(buckets[..])
    ensures LiveCount(buckets[..]) == |part[bucket.pair.value.key := bucket.pair.value.value]|
  {
    hide Table, LiveCount, UniqueKeys, Chained, Represents, Home, PathClear;
    ghost var s := buckets[..];
    var key := bucket.pair.value.key;
    NotFull(s);
    TableParts(hash, s, part);
    assert UnsetIsEmpty(s) by { WellFormedUnset(hash, s); }
    var index := Home(bucket.hash, buckets.Length);
    NoTombsClear(s, key, index);
    var found, hit := Probe(buckets, key, index, false);
    StoreKeeps(hash, s, part, key, bucket.pair.value.value, found);
    PutSize(part, key, bucket.pair.value.value);
    index := found;
    buckets[index] := bucket;
    assert buckets[..] == s[index := bucket];
  }

  class HashTable {
    var buckets: array?<Bucket>
    var nmemb: nat
    var capacity: nat
    const hash: Key -> nat
    /** The map the table stands for, as long as every insertion is exact. */
    ghost var contents: map<Key, Value>
    /** Insert and erase calls so far, and the old capacities of all resizes added up. */
    ghost var operations: nat
    ghost var work: nat

    /** The buckets are well formed, and the counter covers all live ones. */
    ghost predicate Stored()
      reads this, buckets
    {
      && GoodHash(hash) && (buckets == null ==> capacity == 0 && nmemb == 0)
      && (buckets != null ==>
            && buckets.Length == capacity && IsTableSize(capacity)
            && WellFormed(hash, buckets[..]) && LiveCount(buckets[..]) <= nmemb)
    }

    /** What holds in every reachable state: load bounds, and resizing is paid for. */
    ghost predicate Valid()
      reads this, buckets
    {
      && Stored() && (buckets != null ==> LoadOk(nmemb, capacity))
      && 5 * work + Potential(nmemb, capacity) <= 60 * operations
    }

    /** The live buckets are exactly the entries of the map, each key once. */
    ghost predicate Exact()
      reads this, buckets
    {
      && |contents| == nmemb
      && (buckets != null ==> Table(hash, buckets[..], contents) && LiveCount(buckets[..]) == nmemb)
    }

    /** Insertion keeps `Exact` exactly under this condition. */
    ghost predicate InsertIsExact(key: Key)
      requires Stored()
      reads this, buckets
    {
      || buckets == null || ResizeFactor(nmemb, capacity, capacity > TABLE_MIN) != Keep
      || key !in contents || PathClear(buckets[..], key, Home(hash(key), capacity))
    }

    constructor (hash: Key -> nat)
      requires GoodHash(hash)
      ensures Valid() && Exact() && contents == map[] && operations == 0 && work == 0 && this.hash == hash
      ensures buckets == null && nmemb == 0
    {
      this.hash := hash;
      buckets, nmemb, capacity := null, 0, 0;
      contents, operations, work := map[], 0, 0;
    }

    method InitialiseBuckets()
      requires Stored() && buckets == null
      modifies this
      ensures Stored() && buckets != null && fresh(buckets) && capacity == TABLE_MIN
      ensures buckets[..] == seq(TABLE_MIN, _ => EMPTY)
      ensures old(Exact()) ==> Exact()
      ensures contents == old(contents) && nmemb == old(nmemb) && operations == old(operations) && work == old(work)
    {
      capacity := TABLE_MIN;
      buckets := new Bucket[TABLE_MIN](_ => EMPTY);
      AllEmpty(hash, buckets[..]);
      TableParts(hash, buckets[..], map[]);
      assert buckets[..] == seq(TABLE_MIN, _ => EMPTY);
      assert |contents| == 0 ==> contents == map[];
    }

    method ResizeBuckets(newCapacity: nat)
      requires Stored() && buckets != null && IsTableSize(newCapacity) && nmemb <= newCapacity
      modifies this
      ensures Stored() && buckets != null && fresh(buckets) && capacity == newCapacity && NoTombs(buckets[..])
      ensures Table(hash, buckets[..], LastMap(old(buckets[..])))
      ensures old(Exact()) ==> Exact()
      ensures contents == old(contents) && nmemb == old(nmemb) && operations == old(operations)
      ensures work == old(work) + old(capacity)
    {
      hide Table, LiveCount, WellFormed, IsTableSize, LastMap;
      SizePositive(newCapacity);
      var tmp := buckets[..];
      work := work + capacity;
      capacity := newCapacity;
      buckets := new Bucket[newCapacity](_ => EMPTY);
      ReindexBuckets(buckets, tmp, hash);
      TableParts(hash, buckets[..], LastMap(tmp));
      if old(Exact()) {
        TableParts(hash, tmp, contents);
        LastMapExact(tmp, contents);
      }
    }

    method ShouldResize()
      requires Stored() && (buckets != null ==> nmemb <= capacity)
      modifies this
      ensures Stored() && buckets != null && contents == old(contents) && nmemb == old(nmemb)
      ensures old(Exact()) ==> Exact()
      ensures operations == old(operations)
      ensures old(buckets) == null ==>
        fresh(buckets) && capacity == TABLE_MIN && work == old(work) && buckets[..] == seq(TABLE_MIN, _ => EMPTY)
      ensures old(buckets) != null ==> match ResizeFactor(nmemb, old(capacity), old(capacity) > TABLE_MIN)
        case Grow =>
          && fresh(buckets) && capacity == 2 * old(capacity) && work == old(work) + old(capacity)
          && NoTombs(buckets[..]) && Table(hash, buckets[..], LastMap(old(buckets[..])))
        case Shrink =>
          && fresh(buckets) && capacity == old(capacity) / 2 && work == old(work) + old(capacity)
          && NoTombs(buckets[..]) && Table(hash, buckets[..], LastMap(old(buckets[..])))
        case Keep => buckets == old(buckets) && buckets[..] == old(buckets[..]) && capacity == old(capacity) && work == old(work)
    {
      hide Table, LiveCount, WellFormed, LastMap;
      var factor := ResizeFactor(nmemb, capacity, capacity > TABLE_MIN);
      if buckets == null {
        InitialiseBuckets();
      } else if factor != Keep {
        ResizeBuckets(if factor == Grow then 2 * capacity else capacity / 2);
      }
    }

    /** Locate a key; a hit may move its entry, but never what the table stands for. */
    method FindBucket(key: Key) returns (index: int)
      requires Stored()
      modifies buckets
      ensures Stored() && (old(Exact()) ==> Exact())
      ensures index == NOT_FOUND || (buckets != null && 0 <= index < capacity)
      ensures buckets == null ==> index == NOT_FOUND
      ensures index != NOT_FOUND ==> Live(buckets[index]) && Matches(buckets[index], key)
      ensures buckets != null ==> Located(old(buckets[..]), buckets[..], key, Home(hash(key), capacity), index)
      ensures old(Exact()) && buckets != null ==> PathClear(buckets[..], key, Home(hash(key), capacity))
      ensures old(Exact()) ==> (index != NOT_FOUND <==> key in contents)
      ensures old(Exact()) && index != NOT_FOUND ==> buckets[index].pair == Some(Pair(key, contents[key]))
    {
      hide Table, LiveCount, WellFormed, Miss, Relocated, PathClear, GoodHash;
      index := NOT_FOUND;
      assert |contents| == 0 ==> contents == map[];
      if capacity != 0 {
        assert UnsetIsEmpty(buckets[..]) by { WellFormedUnset(hash, buckets[..]); }
        SizePositive(capacity);
        hide IsTableSize;
        index := Home(hash(key), capacity);
        ghost var hit;
        index, hit := Probe(buckets, key, index, true);
        FindCounts(hash, old(buckets[..]), buckets[..], key, hit, index);
        if old(Exact()) {
          FindKeeps(hash, old(buckets[..]), buckets[..], contents, key, hit, index);
        }
      }
    }

    /** Look a value up. With a key stored twice it is the first one on the probe path. */
    method Find(key: Key) returns (value: Option<Value>)
      requires Valid()
      modifies buckets
      ensures Valid() && (old(Exact()) ==> Exact())
      ensures old(Exact()) ==> value == if key in contents then Some(contents[key]) else None
      ensures old(Exact()) && value.Some? ==> InsertIsExact(key)
      ensures buckets != null ==> Reads(old(buckets[..]), key, Home(hash(key), capacity), value)
      ensures buckets != null ==>
        if nmemb == 0 then buckets[..] == old(buckets[..])
        else LookedUp(old(buckets[..]), buckets[..], key, Home(hash(key), capacity))
    {
      hide Table, LiveCount, WellFormed, PathClear, Potential, LoadOk;
      value := None;
      if nmemb != 0 {
        var index := FindBucket(key);
        if index != NOT_FOUND {
          value := Some(buckets[index].pair.value.value);
        }
        if buckets != null {
          LocatedReads(old(buckets[..]), buckets[..], key, Home(hash(key), capacity), index);
        }
      } else if buckets != null {
        NothingLive(hash, buckets[..], key, Home(hash(key), capacity));
      }
    }

    method Contains(key: Key) returns (present: bool)
      requires Valid()
      modifies buckets
      ensures Valid() && (old(Exact()) ==> Exact())
      ensures old(Exact()) ==> (present <==> key in contents) && InsertIsExact(key)
      ensures present <==> buckets != null && !Miss(old(buckets[..]), key, Home(hash(key), capacity))
      ensures buckets != null ==> LookedUp(old(buckets[..]), buckets[..], key, Home(hash(key), capacity))
    {
      hide Table, LiveCount, WellFormed, PathClear, Potential, LoadOk;
      var index := FindBucket(key);
      present := index != NOT_FOUND;
      if buckets != null {
        LocatedHit(old(buckets[..]), buckets[..], key, Home(hash(key), capacity), index);
      }
    }

    /**
      Insert or overwrite. From an exact table the result is exact if and only if
      `InsertIsExact` held before; otherwise the key ends up in two live buckets, and lookups
      find the new value. The load bounds and the cost bound hold in any case.
     */
    method Insert(key: Key, value: Value)
      requires Valid()
      modifies this, buckets
      ensures Valid() && operations == old(operations) + 1 && work <= 12 * operations
      ensures old(Exact() && InsertIsExact(key)) ==> Exact() && contents == old(contents)[key := value]
      ensures old(Exact() && !InsertIsExact(key)) ==>
        && buckets != null && !UniqueKeys(buckets[..])
        && HeldTwice(buckets[..], key, value, old(contents)[key], Home(hash(key), capacity))
      ensures old(Exact()) ==> nmemb == old(nmemb) + (if key in old(contents) && old(InsertIsExact(key)) then 0 else 1)
      ensures buckets != null && (buckets == old(buckets) || fresh(buckets))
      ensures old(buckets) == null ==>
        && capacity == TABLE_MIN
        && StoredAt(seq(TABLE_MIN, _ => EMPTY), buckets[..], key, value, hash(key), Home(hash(key), capacity))
      ensures old(buckets != null && 4 * nmemb < 3 * capacity) ==>
        && buckets == old(buckets) && capacity == old(capacity)
        && StoredAt(old(buckets[..]), buckets[..], key, value, hash(key), Home(hash(key), capacity))
        && nmemb - old(nmemb) == LiveCount(buckets[..]) - old(LiveCount(buckets[..]))
      ensures old(buckets != null && 4 * nmemb >= 3 * capacity) ==>
        && capacity == 2 * old(capacity)
        && Table(hash, buckets[..], LastMap(old(buckets[..]))[key := value])
        && nmemb == old(nmemb) + (if key in LastMap(old(buckets[..])) then 0 else 1)
      ensures work == old(work) + (if old(buckets != null && 4 * nmemb >= 3 * capacity) then old(capacity) else 0)
    {
      hide Home, IsTableSize, ResizeFactor, Table, LiveCount, WellFormed, UniqueKeys, PathClear, LoadOk;
      hide Potential, HeldTwice, StoredAt, LastMap;
      ghost var m := contents;
      if buckets != null {
        WhenToGrow(nmemb, capacity);
        if 4 * nmemb >= 3 * capacity {
          m := LastMap(buckets[..]);
        }
      }
      MakeRoom(key);
      Store(key, value, m);
    }

    /** Charge one insertion and resize if the table is too full for it. */
    method MakeRoom(ghost key: Key)
      requires Valid()
      modifies this
      ensures Stored() && buckets != null && contents == old(contents) && nmemb == old(nmemb)
      ensures buckets != old(buckets) ==> fresh(buckets)
      ensures nmemb < capacity && LoadOk(nmemb, capacity) && LoadOk(nmemb + 1, capacity)
      ensures operations == old(operations) + 1
      ensures 5 * work + Potential(nmemb, capacity) <= 60 * operations
      ensures 5 * work + Potential(nmemb + 1, capacity) <= 60 * operations
      ensures old(Exact()) ==> Exact()
      ensures old(InsertIsExact(key)) <==> key !in contents || PathClear(buckets[..], key, Home(hash(key), capacity))
      ensures old(buckets) == null ==> capacity == TABLE_MIN && buckets[..] == seq(TABLE_MIN, _ => EMPTY)
      ensures old(buckets != null && 4 * nmemb < 3 * capacity) ==>
        capacity == old(capacity) && buckets == old(buckets) && buckets[..] == old(buckets[..])
      ensures old(buckets != null && 4 * nmemb >= 3 * capacity) ==>
        && capacity == 2 * old(capacity) && Table(hash, buckets[..], LastMap(old(buckets[..])))
        && PathClear(buckets[..], key, Home(hash(key), capacity))
      ensures work == old(work) + (if old(buckets != null && 4 * nmemb >= 3 * capacity) then old(capacity) else 0)
    {
      hide Table, LiveCount, WellFormed, LoadOk, PathClear, IsTableSize, Potential, LastMap;
      if buckets != null {
        InsertPaid(nmemb, capacity);
      } else {
        FirstBuckets();
      }
      operations := operations + 1;
      ShouldResize();
      if buckets != old(buckets) {
        NoTombsClear(buckets[..], key, Home(hash(key), capacity));
      }
    }

    /** Put the key in the slot where a probe for insertion stops. */
    method Store(key: Key, value: Value, ghost m: map<Key, Value>)
      requires Stored() && buckets != null && nmemb < capacity
      modifies `nmemb, `contents, buckets
      ensures Stored() && buckets != null && old(nmemb) <= nmemb <= old(nmemb) + 1
      ensures StoredAt(old(buckets[..]), buckets[..], key, value, hash(key), Home(hash(key), capacity))
      ensures nmemb - old(nmemb) == LiveCount(buckets[..]) - old(LiveCount(buckets[..]))
      ensures old(Table(hash, buckets[..], m) && PathClear(buckets[..], key, Home(hash(key), capacity))) ==>
        Table(hash, buckets[..], m[key := value]) && nmemb == old(nmemb) + (if key in m then 0 else 1)
      ensures old(Exact() && (key !in contents || PathClear(buckets[..], key, Home(hash(key), capacity)))) ==>
        Exact() && contents == old(contents)[key := value]
      ensures old(Exact() && !(key !in contents || PathClear(buckets[..], key, Home(hash(key), capacity)))) ==>
        HeldTwice(buckets[..], key, value, old(contents)[key], Home(hash(key), capacity)) && !UniqueKeys(buckets[..])
      ensures old(Exact()) ==>
        nmemb == old(nmemb) + (if old(key in contents && PathClear(buckets[..], key, Home(hash(key), capacity))) then 0 else 1)
    {
      hide Table, LiveCount, WellFormed, PathClear, UniqueKeys, IsTableSize, HeldTwice;
      ghost var s := buckets[..];
      NotFull(s);
      assert UnsetIsEmpty(s) by { WellFormedUnset(hash, s); }
      var home := Home(hash(key), capacity);
      ghost var hit;
      var index;
      index, hit := Probe(buckets, key, home, false);
      StoreCounts(hash, s, key, value, home, index);
      if Exact() {
        StoreKeeps(hash, s, contents, key, value, index);
      }
      if Table(hash, s, m) {
        StoreKeeps(hash, s, m, key, value, index);
      }
      var exists_ := !buckets[index].tombstone && buckets[index].pair.Some?;
      if !exists_ {
        buckets[index] := Bucket(hash(key), Some(Pair(key, value)), false);
        nmemb := nmemb + 1;
      } else {
        buckets[index] := buckets[index].(pair := Some(Pair(buckets[index].pair.value.key, value)));
      }
      assert buckets[..] == s[index := Bucket(hash(key), Some(Pair(key, value)), false)];
      contents := contents[key := value];
    }

    /**
      From an exact table exactly the key goes; of a key stored twice the first bucket. The
      table is halved exactly when an entry went and the load fell to 1/10.
     */
    method Erase(key: Key)
      requires Valid()
      modifies this, buckets
      ensures Valid() && operations == old(operations) + 1 && work <= 12 * operations
      ensures old(Exact()) ==> Exact() && contents == old(contents) - {key}
      ensures old(Exact()) ==> nmemb == old(nmemb) - (if key in old(contents) then 1 else 0)
      ensures buckets == old(buckets) || fresh(buckets)
      ensures old(buckets == null) ==> buckets == null && nmemb == 0 && work == old(work)
      ensures old(buckets != null) ==>
        && buckets != null
        && nmemb == old(nmemb) - (if Miss(old(buckets[..]), key, Home(hash(key), old(capacity))) then 0 else 1)
      ensures old(buckets != null) ==>
        if nmemb < old(nmemb) && old(capacity) > TABLE_MIN && 10 * nmemb <= old(capacity) then
          && capacity == old(capacity) / 2 && work == old(work) + old(capacity)
          && ErasedAndResized(hash, old(buckets[..]), buckets[..], key, Home(hash(key), old(capacity)))
        else
          && buckets == old(buckets) && capacity == old(capacity) && work == old(work)
          && ErasedFrom(old(buckets[..]), buckets[..], key, Home(hash(key), capacity))
    {
      hide Table, LoadOk, Potential, LiveCount, WellFormed, IsTableSize, Home, PathClear, LastMap, Relocated, Miss, HasKey;
      operations := operations + 1;
      var index := FindBucket(key);
      if buckets != null {
        LocatedHit(old(buckets[..]), buckets[..], key, Home(hash(key), capacity), index);
      }
      if index != NOT_FOUND {
        LocatedErased(old(buckets[..]), buckets[..], key, Home(hash(key), capacity), index);
        EraseAt(key, index);
        WhenToShrink(nmemb, capacity);
        ErasePaid(nmemb, capacity);
        ShouldResize();
      }
    }

    /** Turn a bucket that was found into a tombstone. */
    method EraseAt(key: Key, index: nat)
      requires Stored() && buckets != null && index < capacity && Live(buckets[index]) && Matches(buckets[index], key)
      modifies `nmemb, `contents, buckets
      ensures Stored() && nmemb == old(nmemb) - 1
      ensures buckets[..] == Buried(old(buckets[..]), index)
      ensures old(Exact()) ==> Exact() && contents == old(contents) - {key}
    {
      hide Table, LiveCount, WellFormed, IsTableSize;
      ghost var s := buckets[..];
      EraseCounts(hash, s, index);
      if Exact() {
        EraseKeepsTable(hash, s, contents, index, key);
      }
      buckets[index] := buckets[index].(tombstone := true);
      assert buckets[..] == s[index := s[index].(tombstone := true)];
      nmemb := nmemb - 1;
      contents := contents - {key};
    }

    method Clear()
      requires Valid()
      modifies this
      ensures Valid() && Exact() && contents == map[] && nmemb == 0 && capacity == 0 && buckets == null
      ensures operations == old(operations) && work == old(work)
    {
      buckets, capacity, nmemb := null, 0, 0;
      contents := map[];
    }
  }

  // ---------- Where the code falls short ----------

  /** Insert two keys with home slot 0, then erase the first: the second is behind a tombstone. */
  method CollidingTable(hash: Key -> nat, a: Pair, k: Pair) returns (t: HashTable)
    requires GoodHash(hash) && a.key != k.key && hash(a.key) == hash(k.key) == 0
    ensures fresh(t) && t.Valid() && t.Exact() && t.contents == map[k.key := k.value] && t.hash == hash
    ensures t.buckets != null && fresh(t.buckets) && t.capacity == TABLE_MIN && t.buckets[..] == Colliding(a, k)
    ensures t.nmemb == 1 && ResizeFactor(1, t.capacity, false) == Keep && !t.InsertIsExact(k.key)
  {
    hide HashTable.Valid, HashTable.Exact, HashTable.Stored, StoredAt, ErasedFrom, PathClear, UniqueKeys;
    hide HeldTwice, GoodHash, Colliding;
    t := new HashTable(hash);
    t.Insert(a.key, a.value);
    CollidingFirst(t.buckets[..], a);
    t.Insert(k.key, k.value);
    CollidingSecond(t.buckets[..], a, k);
    t.Erase(a.key);
    CollidingErased(t.buckets[..], a, k);
    CollidingBlocked(a, k);
    assert t.contents == map[k.key := k.value];
  }

  /** Insert the second key again and erase it: it is still found, with its old value. */
  method ErasedKeyStays(hash: Key -> nat, a: Pair, k: Pair, value: Value) returns (t: HashTable, found: Option<Value>)
    requires GoodHash(hash) && a.key != k.key && hash(a.key) == hash(k.key) == 0
    ensures fresh(t) && t.Valid() && found == Some(k.value)
  {
    hide HashTable.Valid, HashTable.Exact, HashTable.Stored, StoredAt, ErasedFrom, PathClear, UniqueKeys;
    hide HeldTwice, GoodHash, Colliding, Reads;
    t := CollidingTable(hash, a, k);
    t.Insert(k.key, value);
    CollidingTwice(t.buckets[..], a, k, value);
    t.Erase(k.key);
    CollidingErased(t.buckets[..], Pair(k.key, value), k);
    found := t.Find(k.key);
    CollidingReads(Pair(k.key, value), k, found);
  }

  // ---------- Iteration ----------

  /** The next live bucket after slot `i`, or the end. */
  method NextHash(buckets: array<Bucket>, i: int) returns (next: nat)
    requires -1 <= i < buckets.Length
    ensures i < next <= buckets.Length
    ensures forall j :: i < j < next ==> buckets[j].tombstone || buckets[j].pair.None?
    ensures next < buckets.Length ==> !buckets[next].tombstone && buckets[next].pair.Some?
  {
    next := i + 1;
    while next < buckets.Length && (buckets[next].tombstone || buckets[next].pair.None?)
      invariant i < next <= buckets.Length
      invariant forall j :: i < j < next ==> buckets[j].tombstone || buckets[j].pair.None?
    {
      next := next + 1;
    }
  }

  /** Iterating from the first live bucket to the end yields every entry exactly once. */
  method Entries(buckets: array<Bucket>, hash: Key -> nat, ghost m: map<Key, Value>) returns (visited: seq<Pair>)
    requires Table(hash, buckets[..], m)
    ensures |visited| == LiveCount(buckets[..]) && visited == LivePairs(buckets[..])
    ensures forall k :: k in m ==> Pair(k, m[k]) in visited
    ensures forall x :: 0 <= x < |visited| ==> visited[x].key in m && visited[x].value == m[visited[x].key]
    ensures forall x, y :: 0 <= x < y < |visited| ==> visited[x].key != visited[y].key
  {
    visited := [];
    var at := NextHash(buckets, -1);
    SkippedSlots(buckets[..], hash, 0, at);
    while at < buckets.Length
      invariant 0 <= at <= buckets.Length
      invariant at < buckets.Length ==> !buckets[at].tombstone && buckets[at].pair.Some?
      invariant visited == LivePairs(buckets[..][..at])
    {
      LiveHere(buckets[..], hash, at);
      visited := visited + [buckets[at].pair.value];
      var next := NextHash(buckets, at);
      SkippedSlots(buckets[..], hash, at + 1, next);
      at := next;
    }
    assert buckets[..][..at] == buckets[..];
    LivePairsAre(hash, buckets[..], m);
  }

  /** The live entries in slot order. */
  function LivePairs(s: seq<Bucket>): seq<Pair> {
    if s == [] then []
    else
      var b := s[|s| - 1];
      LivePairs(s[..|s| - 1]) + if Live(b) && b.pair.Some? then [b.pair.value] else []
  }

  lemma LiveHere(s: seq<Bucket>, hash: Key -> nat, i: nat)
    requires WellFormed(hash, s) && i < |s| && !s[i].tombstone && s[i].pair.Some?
    ensures LivePairs(s[..i + 1]) == LivePairs(s[..i]) + [s[i].pair.value]
  {
    assert s[..i + 1][..i] == s[..i];
  }

  lemma {:induction false} SkippedSlots(s: seq<Bucket>, hash: Key -> nat, from: nat, to: nat)
    requires from <= to <= |s|
    requires forall j :: from <= j < to ==> s[j].tombstone || s[j].pair.None?
    ensures LivePairs(s[..to]) == LivePairs(s[..from])
  {
    if from < to {
      SkippedSlots(s, hash, from, to - 1);
      assert s[..to][..to - 1] == s[..to - 1];
    }
  }

  predicate HoldsPair(s: seq<Bucket>, p: Pair) {
    exists i :: 0 <= i < |s| && Live(s[i]) && s[i].pair == Some(p)
  }

  lemma HoldsPairStep(s: seq<Bucket>, p: Pair)
    requires s != []
    ensures HoldsPair(s, p) <==>
      HoldsPair(s[..|s| - 1], p) || (Live(s[|s| - 1]) && s[|s| - 1].pair == Some(p))
  {
    var t := s[..|s| - 1];
    if HoldsPair(t, p) {
      var i :| 0 <= i < |t| && Live(t[i]) && t[i].pair == Some(p);
      assert s[i] == t[i];
    }
    if HoldsPair(s, p) {
      var i :| 0 <= i < |s| && Live(s[i]) && s[i].pair == Some(p);
      assert i < |t| ==> t[i] == s[i];
    }
  }

  lemma {:induction false} LivePairsOf(s: seq<Bucket>)
    requires forall i :: 0 <= i < |s| && Live(s[i]) ==> s[i].pair.Some?
    ensures |LivePairs(s)| == LiveCount(s)
    ensures forall p :: p in LivePairs(s) <==> HoldsPair(s, p)
  {
    if s != [] {
      LivePairsOf(s[..|s| - 1]);
      hide HoldsPair;
      forall p
        ensures p in LivePairs(s) <==> HoldsPair(s, p)
      {
        HoldsPairStep(s, p);
      }
    }
  }

  lemma {:induction false} LivePairsDistinct(s: seq<Bucket>)
    requires UniqueKeys(s) && forall i :: 0 <= i < |s| && Live(s[i]) ==> s[i].pair.Some?
    ensures forall x, y :: 0 <= x < y < |LivePairs(s)| ==> LivePairs(s)[x].key != LivePairs(s)[y].key
  {
    if s != [] {
      var n := |s| - 1;
      LivePairsDistinct(s[..n]);
      LivePairsOf(s[..n]);
      forall p | p in LivePairs(s[..n]) && Live(s[n])
        ensures p.key != s[n].pair.value.key
      {
        assert HoldsPair(s[..n], p);
        KeyOnlyLater(s, p);
      }
    }
  }

  lemma KeyOnlyLater(s: seq<Bucket>, p: Pair)
    requires UniqueKeys(s) && s != [] && HoldsPair(s[..|s| - 1], p)
    requires Live(s[|s| - 1]) && s[|s| - 1].pair.Some?
    ensures p.key != s[|s| - 1].pair.value.key
  {
    var t := s[..|s| - 1];
    var i :| 0 <= i < |t| && Live(t[i]) && t[i].pair == Some(p);
    assert s[i] == t[i];
  }

  lemma PairsRepresent(hash: Key -> nat, s: seq<Bucket>, m: map<Key, Value>)
    requires Table(hash, s, m)
    ensures forall p :: HoldsPair(s, p) ==> p.key in m && p.value == m[p.key]
    ensures forall k :: k in m ==> HoldsPair(s, Pair(k, m[k]))
  {
    hide Chained, UniqueKeys;
    forall k | k in m
      ensures HoldsPair(s, Pair(k, m[k]))
    {
      assert HasKey(s, k);
      var i :| 0 <= i < |s| && Live(s[i]) && Matches(s[i], k);
      assert s[i].pair == Some(Pair(k, m[k]));
    }
  }

  lemma LivePairsAre(hash: Key -> nat, s: seq<Bucket>, m: map<Key, Value>)
    requires Table(hash, s, m)
    ensures var v := LivePairs(s);
      && |v| == LiveCount(s)
      && (forall x :: 0 <= x < |v| ==> v[x].key in m && v[x].value == m[v[x].key])
      && (forall k :: k in m ==> Pair(k, m[k]) in v)
      && (forall x, y :: 0 <= x < y < |v| ==> v[x].key != v[y].key)
  {
    hide Table, HoldsPair;
    TableParts(hash, s, m);
    LivePairsOf(s);
    LivePairsDistinct(s);
    PairsRepresent(hash, s, m);
    var v := LivePairs(s);
    forall x | 0 <= x < |v|
      ensures v[x].key in m && v[x].value == m[v[x].key]
    {
      var p := v[x];
      assert p in v && HoldsPair(s, p);
    }
    forall k | k in m
      ensures Pair(k, m[k]) in v
    {
      assert HoldsPair(s, Pair(k, m[k]));
    }
  }

  /** A lookup keeps the buckets well formed and their number, whatever they hold. */
  lemma FindCounts(hash: Key -> nat, s: seq<Bucket>, s': seq<Bucket>, key: Key, hit: int, found: int)
    requires GoodHash(hash) && WellFormed(hash, s) && s != [] && (found == NOT_FOUND || 0 <= found < |s|)
    requires found == NOT_FOUND ==> Miss(s, key, Home(hash(key), |s|)) && s' == s
    requires found != NOT_FOUND ==> hit >= 0 && Relocated(s, s', key, Home(hash(key), |s|), hit, found)
    ensures |s'| == |s| && WellFormed(hash, s') && LiveCount(s') == LiveCount(s)
    ensures found != NOT_FOUND ==> Live(s'[found]) && Matches(s'[found], key)
    ensures Located(s, s', key, Home(hash(key), |s|), found)
  {
    hide LiveCount, WellFormed, GoodHash;
    if found != NOT_FOUND {
      if found == hit {
        MatchIsLive(hash, s, key, hit);
      } else {
        MoveCounts(hash, s, key, Home(hash(key), |s|), hit, found);
      }
    }
  }

  /** The value in the slot where a lookup ended is that of the first match before it. */
  lemma LocatedReads(s: seq<Bucket>, s': seq<Bucket>, key: Key, home: nat, index: int)
    requires home < |s| && |s'| == |s| && index < |s| && Located(s, s', key, home, index)
    ensures index < 0 ==> Reads(s, key, home, None)
    ensures index >= 0 ==> s'[index].pair.Some? && Reads(s, key, home, Some(s'[index].pair.value.value))
  {
  }

  /** An erasure, and then the copy of all live buckets to a smaller array. */
  ghost predicate ErasedAndResized(hash: Key -> nat, s: seq<Bucket>, s': seq<Bucket>, key: Key, home: nat)
    requires home < |s|
  {
    exists mid :: ErasedFrom(s, mid, key, home) && Table(hash, s', LastMap(mid))
  }

  lemma LocatedErased(s: seq<Bucket>, s': seq<Bucket>, key: Key, home: nat, index: nat)
    requires home < |s| && |s'| == |s| && index < |s| && Located(s, s', key, home, index)
    ensures ErasedFrom(s, Buried(s', index), key, home)
  {
  }

  lemma LocatedHit(s: seq<Bucket>, s': seq<Bucket>, key: Key, home: nat, index: int)
    requires home < |s| && Located(s, s', key, home, index)
    ensures index < 0 <==> Miss(s, key, home)
  {
  }

  lemma NothingLive(hash: Key -> nat, s: seq<Bucket>, key: Key, home: nat)
    requires WellFormed(hash, s) && home < |s| && LiveCount(s) == 0
    ensures Reads(s, key, home, None)
  {
    NoneLive(s);
  }

  /** What a lookup leaves behind, whatever it found. */
  lemma FindKeeps(hash: Key -> nat, s: seq<Bucket>, s': seq<Bucket>, m: map<Key, Value>, key: Key, hit: int, found: int)
    requires Table(hash, s, m) && s != [] && (found == NOT_FOUND || 0 <= found < |s|)
    requires found == NOT_FOUND ==> Miss(s, key, Home(hash(key), |s|)) && s' == s
    requires found != NOT_FOUND ==> hit >= 0 && Relocated(s, s', key, Home(hash(key), |s|), hit, found)
    ensures |s'| == |s| && Table(hash, s', m) && LiveCount(s') == LiveCount(s)
    ensures found != NOT_FOUND <==> key in m
    ensures found != NOT_FOUND ==> Live(s'[found]) && s'[found].pair == Some(Pair(key, m[key]))
    ensures PathClear(s', key, Home(hash(key), |s|))
  {
    LookupExact(hash, s, m, key);
    if found == NOT_FOUND {
      AbsentClear(hash, s, m, key);
    } else if found == hit {
      HitClear(hash, s, m, key, hit);
    } else {
      hide Table;
      hide Hit;
      hide FirstTomb;
      MoveKeepsTable(hash, s, m, key, hit, found);
      MoveClearsPath(hash, s, m, key, hit, found);
    }
  }

  lemma AbsentClear(hash: Key -> nat, s: seq<Bucket>, m: map<Key, Value>, key: Key)
    requires Table(hash, s, m) && s != [] && key !in m
    ensures PathClear(s, key, Home(hash(key), |s|))
  {
    hide Chained;
    forall i | 0 <= i < |s|
      ensures !Matches(s[i], key)
    {
      AbsentAt(hash, s, m, key, i);
    }
  }

  lemma HitClear(hash: Key -> nat, s: seq<Bucket>, m: map<Key, Value>, key: Key, hit: nat)
    requires Table(hash, s, m) && s != [] && Hit(s, key, Home(hash(key), |s|), hit)
    requires NoTombBefore(s, Home(hash(key), |s|), hit)
    ensures PathClear(s, key, Home(hash(key), |s|))
  {
    hide Chained, UniqueKeys;
    LookupExact(hash, s, m, key);
    OnlySlot(s, hit, key);
    forall i | 0 <= i < |s| && Matches(s[i], key)
      ensures NoTombBefore(s, Home(hash(key), |s|), i)
    {
      assert i == hit;
    }
  }

  lemma NoTombsClear(s: seq<Bucket>, key: Key, home: nat)
    requires home < |s|
    ensures NoTombs(s) ==> PathClear(s, key, home)
  {
  }

  /** What writing the slot where the probe for insertion stopped does. */
  lemma StoreKeeps(hash: Key -> nat, s: seq<Bucket>, m: map<Key, Value>, key: Key, value: Value, p: nat)
    requires Table(hash, s, m) && s != [] && Stops(s, key, Home(hash(key), |s|), p)
    ensures p < |s| && (Live(s[p]) <==> !s[p].tombstone && s[p].pair.Some?)
    ensures Live(s[p]) <==> key in m && PathClear(s, key, Home(hash(key), |s|))
    ensures Live(s[p]) ==> s[p].hash == hash(key) && s[p].pair.value.key == key
    ensures var s' := s[p := Bucket(hash(key), Some(Pair(key, value)), false)];
      && (key !in m || Live(s[p]) ==>
            Table(hash, s', m[key := value]) && LiveCount(s') == LiveCount(s) + if Live(s[p]) then 0 else 1)
      && (key in m && !Live(s[p]) ==> HeldTwice(s', key, value, m[key], Home(hash(key), |s|)) && !UniqueKeys(s'))
  {
    if key in m {
      StopsAtKey(hash, s, m, key, p);
      if Live(s[p]) {
        OverwriteKeepsTable(hash, s, m, p, key, value);
      } else {
        assert HasKey(s, key);
        AddTwice(hash, s, m, key, value, p);
      }
    } else {
      AbsentAt(hash, s, m, key, p);
      AddKeepsTable(hash, s, m, key, value, p);
    }
  }

  // ---------- Amortised cost, per operation ----------

  lemma WhenToShrink(n: nat, c: nat)
    requires LoadOk(n + 1, c)
    ensures ResizeFactor(n, c, c > TABLE_MIN) == if c > TABLE_MIN && 10 * n <= c then Shrink else Keep
  {
    TableSizeEight(c);
  }

  lemma WhenToGrow(n: nat, c: nat)
    requires LoadOk(n, c)
    ensures c > 0 && (ResizeFactor(n, c, c > TABLE_MIN) == Grow <==> 4 * n >= 3 * c)
    ensures ResizeFactor(n, c, c > TABLE_MIN) != Shrink
  {
    TableSizeEight(c);
  }

  lemma FirstBuckets()
    ensures LoadOk(0, TABLE_MIN) && LoadOk(1, TABLE_MIN) && Potential(0, TABLE_MIN) == Potential(1, TABLE_MIN) == 0
    ensures Potential(0, 0) == 0
  {
  }

  lemma InsertPaid(n: nat, c: nat)
    requires LoadOk(n, c)
    ensures var c' := if ResizeFactor(n, c, c > TABLE_MIN) == Grow then 2 * c else c;
      && LoadOk(n + 1, c') && n < c' && LoadOk(n, c') && n <= c
      && ResizeFactor(n, c, c > TABLE_MIN) != Shrink
      && 5 * (if c' == c then 0 else c) + Potential(n + 1, c') <= Potential(n, c) + 60
      && 5 * (if c' == c then 0 else c) + Potential(n, c') <= Potential(n, c) + 60
  {
    TableSizeEight(c);
    KeepPaidInsert(n, c);
    if ResizeFactor(n, c, c > TABLE_MIN) == Grow {
      GrowPaid(n, c);
    }
  }

  lemma ErasePaid(n: nat, c: nat)
    requires LoadOk(n + 1, c)
    ensures match ResizeFactor(n, c, c > TABLE_MIN)
      case Grow => false
      case Shrink => n < c / 2 && LoadOk(n, c / 2) && 5 * c + Potential(n, c / 2) <= Potential(n + 1, c) + 60
      case Keep => n < c && LoadOk(n, c) && Potential(n, c) <= Potential(n + 1, c) + 60
  {
    TableSizeEight(c);
    KeepPaidErase(n, c);
    if ResizeFactor(n, c, c > TABLE_MIN) == Shrink {
      ShrinkPaid(n, c);
    }
  }
}
