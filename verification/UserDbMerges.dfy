/** Merging a snapshot of one user database into another, and importing one. */
module UserDbMerges {
  import opened Commons
  import opened UserScans

  datatype Entry = Entry(key: string, value: UserDbValue)

  /** A database as it was saved: its tick, if it has one, and its records, a key each once. */
  datatype Snapshot = Snapshot(tick: Option<nat>, entries: seq<Entry>)
  {
    ghost predicate Valid() {
      && (forall i, j :: 0 <= i < j < |entries| ==> entries[i].key != entries[j].key)
      && forall i :: 0 <= i < |entries| ==> entries[i].value.dee >= 0.0
    }

    function TheirTick(): nat { if tick.Some? then tick.value else 0 }
  }

  type Records = map<string, UserDbValue>

  /** What a merge changes: the records and the tick. */
  datatype Store = Store(records: Records, tick: nat)

  ghost predicate Sane(records: Records) {
    forall k :: k in records ==> records[k].dee >= 0.0
  }

  const NOTHING := UserDbValue(0, 0.0, 0)

  // ----- decay -----

  function Pow(rho: real, n: nat): real {
    if n == 0 then 1.0 else Times(rho, Pow(rho, n - 1))
  }

  /** What a weight has faded to at a later tick; `rho` is what a single tick leaves of it. */
  function Decayed(rho: real, v: UserDbValue, tick: nat): UserDbValue {
    if v.tick < tick then v.(dee := Times(v.dee, Pow(rho, tick - v.tick))) else v
  }

  lemma {:induction false} PowIsFactor(rho: real, n: nat)
    requires 0.0 < rho <= 1.0
    ensures 0.0 < Pow(rho, n) <= 1.0
  {
    if n > 0 {
      PowIsFactor(rho, n - 1);
      var p := Pow(rho, n - 1);
      assert rho * p > 0.0;
      assert rho * p <= p by { assert (1.0 - rho) * p >= 0.0; assert p - rho * p == (1.0 - rho) * p; }
    }
  }

  lemma DecayedIsLess(rho: real, v: UserDbValue, tick: nat)
    requires 0.0 < rho <= 1.0 && v.dee >= 0.0
    ensures 0.0 <= Decayed(rho, v, tick).dee <= v.dee
  {
    if v.tick < tick {
      var p := Pow(rho, tick - v.tick);
      PowIsFactor(rho, tick - v.tick);
      assert v.dee * p >= 0.0;
      assert v.dee - v.dee * p == v.dee * (1.0 - p);
      assert v.dee * (1.0 - p) >= 0.0;
    }
  }

  // ----- one record -----

  const MAX_DEE := 10000.0

  function Unpacked(v: UserDbValue): UserDbValue {
    v.(dee := if v.dee < MAX_DEE then v.dee else MAX_DEE)
  }

  function Fetched(records: Records, key: string): UserDbValue {
    if key in records then Unpacked(records[key]) else NOTHING
  }

  function Abs(n: int): nat { if n < 0 then -n else n }

  function Negative(n: int): int { if n < 0 then n else -n }

  function Max(a: nat, b: nat): nat { if a < b then b else a }

  function MaxReal(a: real, b: real): real { if a < b then b else a }

  /** A record after the merge: the larger count, the larger of the two faded weights. */
  function MergedValue(rho: real, o: UserDbValue, value: UserDbValue, ourTick: nat, theirTick: nat): UserDbValue {
    var v := Decayed(rho, Unpacked(value), theirTick);
    UserDbValue(if Abs(o.commits) < Abs(v.commits) then v.commits else o.commits,
                MaxReal(Decayed(rho, o, ourTick).dee, v.dee), Max(ourTick, theirTick))
  }

  lemma {:induction false} PowTells(rho: real, a: nat, b: nat)
    ensures Pow(rho, 0) == 1.0 && Pow(rho, 1) == rho && Pow(rho, a + b) == Pow(rho, a) * Pow(rho, b)
  {
    if a > 0 {
      PowTells(rho, a - 1, b);
      TimesAssociate(rho, Pow(rho, a - 1), Pow(rho, b));
    }
  }

  /** What there is for a key, as it is read: nothing counts as zeros, and a weight is at most ten
      thousand. */
  lemma FetchedTells(records: Records, key: string)
    ensures key !in records ==> Fetched(records, key) == UserDbValue(0, 0.0, 0)
    ensures key in records ==>
              var o, v := Fetched(records, key), records[key];
              o.commits == v.commits && o.tick == v.tick && o.dee <= 10000.0 && o.dee <= v.dee && (o.dee == v.dee || o.dee == 10000.0)
  {
  }

  /** Main result on one record: of the two counts the one that is larger by absolute value, and ours
      if neither is; of the two weights, each faded to its side's tick, the larger; the later tick. */
  lemma MergedTells(rho: real, o: UserDbValue, value: UserDbValue, ourTick: nat, theirTick: nat)
    ensures var m := MergedValue(rho, o, value, ourTick, theirTick);
            var cut := if value.dee > 10000.0 then 10000.0 else value.dee;
            var ours := if o.tick < ourTick then o.dee * Pow(rho, ourTick - o.tick) else o.dee;
            var theirs := if value.tick < theirTick then cut * Pow(rho, theirTick - value.tick) else cut;
            var larger := (value.commits > o.commits && value.commits > -o.commits) || (-value.commits > o.commits && value.commits < o.commits);
            && m.commits == (if larger then value.commits else o.commits)
            && m.dee >= ours && m.dee >= theirs && (m.dee == ours || m.dee == theirs)
            && m.tick >= ourTick && m.tick >= theirTick && (m.tick == ourTick || m.tick == theirTick)
  {
  }

  function MergedRecords(rho: real, records: Records, entries: seq<Entry>, ourTick: nat, theirTick: nat): Records {
    if |entries| == 0 then records
    else
      var before := MergedRecords(rho, records, entries[..|entries| - 1], ourTick, theirTick);
      var e := entries[|entries| - 1];
      before[e.key := MergedValue(rho, Fetched(before, e.key), e.value, ourTick, theirTick)]
  }

  /** A database after merging a snapshot; the tick moves on only if a record was merged. */
  function Merged(rho: real, s: Store, snapshot: Snapshot): Store {
    var theirTick := snapshot.TheirTick();
    Store(MergedRecords(rho, s.records, snapshot.entries, s.tick, theirTick),
          if |snapshot.entries| == 0 then s.tick else Max(s.tick, theirTick))
  }

  // ----- the merger -----

  class Db {
    var records: Records
    var tick: Option<nat>

    constructor (records: Records, tick: Option<nat>)
      ensures this.records == records && this.tick == tick
    {
      this.records, this.tick := records, tick;
    }

    function TickCount(): nat
      reads this
    {
      if tick.Some? then tick.value else 1
    }

    function Contents(): Store
      reads this
    {
      Store(records, TickCount())
    }
  }

  class UserDbMerger {
    const db: Db
    const rho: real
    var ourTick: nat
    var theirTick: nat
    var maxTick: nat
    var mergedEntries: nat

    constructor (db: Db, rho: real)
      ensures this.db == db && this.rho == rho && mergedEntries == 0
      ensures ourTick == db.TickCount() && theirTick == 0 && maxTick == ourTick
    {
      this.db, this.rho := db, rho;
      ourTick, theirTick, maxTick, mergedEntries := db.TickCount(), 0, db.TickCount(), 0;
    }

    /** The tick of the other database. */
    method MetaPut(tick: nat)
      modifies this`theirTick, this`maxTick
      ensures theirTick == tick && maxTick == Max(ourTick, theirTick)
    {
      theirTick := tick;
      maxTick := if ourTick < theirTick then theirTick else ourTick;
    }

    method Put(key: string, value: UserDbValue)
      requires maxTick == Max(ourTick, theirTick)
      modifies db`records, this`mergedEntries
      ensures db.records == old(db.records)[key := MergedValue(rho, Fetched(old(db.records), key), value, ourTick, theirTick)]
      ensures mergedEntries == old(mergedEntries) + 1
    {
      var v := Unpacked(value);
      if v.tick < theirTick {
        v := v.(dee := Times(v.dee, Pow(rho, theirTick - v.tick)));
      }
      var o := NOTHING;
      if key in db.records {
        o := Unpacked(db.records[key]);
      }
      if o.tick < ourTick {
        o := o.(dee := Times(o.dee, Pow(rho, ourTick - o.tick)));
      }
      if Abs(o.commits) < Abs(v.commits) {
        o := o.(commits := v.commits);
      }
      o := o.(dee := if o.dee < v.dee then v.dee else o.dee);
      o := o.(tick := maxTick);
      db.records := db.records[key := o];
      mergedEntries := mergedEntries + 1;
    }

    method CloseMerge()
      modifies db`tick, this`mergedEntries
      ensures db.TickCount() == if old(mergedEntries) == 0 then old(db.TickCount()) else maxTick
      ensures mergedEntries == 0
    {
      if mergedEntries == 0 {
        return;
      }
      db.tick := Some(maxTick);
      mergedEntries := 0;
    }
  }

  /** Merges a whole snapshot: its tick first, then record by record. */
  method Merge(db: Db, snapshot: Snapshot, rho: real)
    modifies db
    ensures var tick := if old(db.tick).Some? then old(db.tick).value else 1;
            var after := Merged(rho, Store(old(db.records), tick), snapshot);
            db.records == after.records && after.tick == if db.tick.Some? then db.tick.value else 1
  {
    var merger := new UserDbMerger(db, rho);
    if snapshot.tick.Some? {
      merger.MetaPut(snapshot.tick.value);
    }
    var entries := snapshot.entries;
    for i := 0 to |entries|
      invariant merger.ourTick == old(db.TickCount()) && merger.theirTick == snapshot.TheirTick()
      invariant merger.maxTick == Max(merger.ourTick, merger.theirTick) && merger.mergedEntries == i
      invariant db.tick == old(db.tick)
      invariant db.records == MergedRecords(rho, old(db.records), entries[..i], merger.ourTick, merger.theirTick)
    {
      assert entries[..i + 1][..i] == entries[..i];
      merger.Put(entries[i].key, entries[i].value);
    }
    assert entries[..|entries|] == entries;
    merger.CloseMerge();
  }

  // ----- what a merge comes to, key by key -----

  /** The value a snapshot has for a key. */
  ghost function ValueIn(entries: seq<Entry>, key: string): Option<UserDbValue> {
    if |entries| == 0 then None
    else if entries[|entries| - 1].key == key then Some(entries[|entries| - 1].value)
    else ValueIn(entries[..|entries| - 1], key)
  }

  lemma {:induction false} ValueInIs(entries: seq<Entry>, key: string)
    ensures ValueIn(entries, key).None? <==> forall i :: 0 <= i < |entries| ==> entries[i].key != key
    ensures ValueIn(entries, key).Some? ==> exists i :: 0 <= i < |entries| && entries[i] == Entry(key, ValueIn(entries, key).value)
  {
    if |entries| > 0 && entries[|entries| - 1].key != key {
      var init := entries[..|entries| - 1];
      ValueInIs(init, key);
      if ValueIn(init, key).Some? {
        var i :| 0 <= i < |init| && init[i] == Entry(key, ValueIn(init, key).value);
        assert entries[i] == init[i];
      }
    }
  }

  /** A merge changes exactly the records of the snapshot's keys, each by itself. */
  lemma {:induction false} MergedAt(rho: real, records: Records, entries: seq<Entry>, ourTick: nat, theirTick: nat, key: string)
    requires forall i, j :: 0 <= i < j < |entries| ==> entries[i].key != entries[j].key
    ensures var after := MergedRecords(rho, records, entries, ourTick, theirTick);
            match ValueIn(entries, key)
            case None => (key in after <==> key in records) && (key in after ==> after[key] == records[key])
            case Some(v) => key in after && after[key] == MergedValue(rho, Fetched(records, key), v, ourTick, theirTick)
  {
    if |entries| > 0 {
      var init, e := entries[..|entries| - 1], entries[|entries| - 1];
      MergedAt(rho, records, init, ourTick, theirTick, key);
      if e.key == key { ValueInIs(init, key); }
    }
  }

  // ----- merging again -----

  lemma MergedValueAgain(rho: real, o: UserDbValue, v: UserDbValue, ourTick: nat, theirTick: nat)
    requires 0.0 < rho <= 1.0 && v.dee >= 0.0 && 0.0 <= o.dee <= MAX_DEE
    ensures var m := MergedValue(rho, o, v, ourTick, theirTick);
            && 0.0 <= m.dee <= MAX_DEE && Abs(m.commits) >= Abs(o.commits)
            && MergedValue(rho, Unpacked(m), v, Max(ourTick, theirTick), theirTick) == m
  {
    DecayedIsLess(rho, o, ourTick);
    DecayedIsLess(rho, Unpacked(v), theirTick);
  }

  lemma FetchedIsSane(records: Records, key: string)
    requires Sane(records)
    ensures 0.0 <= Fetched(records, key).dee <= MAX_DEE
  {
  }

  /** Main result: merging the same snapshot twice changes nothing the second time. */
  lemma MergeIsIdempotent(rho: real, s: Store, snapshot: Snapshot)
    requires 0.0 < rho <= 1.0 && Sane(s.records) && snapshot.Valid()
    ensures var once := Merged(rho, s, snapshot); Merged(rho, once, snapshot) == once
  {
    var entries, their := snapshot.entries, snapshot.TheirTick();
    var once := Merged(rho, s, snapshot);
    var twice := Merged(rho, once, snapshot);
    if |entries| > 0 {
      forall key
        ensures key in twice.records <==> key in once.records
        ensures key in once.records ==> twice.records[key] == once.records[key]
      {
        MergedAt(rho, s.records, entries, s.tick, their, key);
        MergedAt(rho, once.records, entries, once.tick, their, key);
        ValueInIs(entries, key);
        FetchedIsSane(s.records, key);
        if ValueIn(entries, key).Some? {
          MergedValueAgain(rho, Fetched(s.records, key), ValueIn(entries, key).value, s.tick, their);
        }
      }
    }
  }

  /** A count never falls, whatever is merged. */
  lemma CountsNeverFall(rho: real, s: Store, snapshot: Snapshot, key: string)
    requires snapshot.Valid() && key in s.records
    ensures key in Merged(rho, s, snapshot).records
    ensures Abs(Merged(rho, s, snapshot).records[key].commits) >= Abs(s.records[key].commits)
  {
    MergedAt(rho, s.records, snapshot.entries, s.tick, snapshot.TheirTick(), key);
  }

  // ----- merging in another order -----

  /** Two snapshots disagree about a key that neither can decide: equal counts, one of them
      deleted, both above what there is. */
  ghost predicate Tie(o: UserDbValue, a: UserDbValue, b: UserDbValue) {
    a.commits != b.commits && Abs(a.commits) == Abs(b.commits) && Abs(o.commits) < Abs(a.commits)
  }

  lemma SwappedValue(rho: real, o: UserDbValue, a: UserDbValue, b: UserDbValue, tick: nat, tickA: nat, tickB: nat)
    requires 0.0 < rho <= 1.0 && 0.0 <= o.dee <= MAX_DEE && a.dee >= 0.0 && b.dee >= 0.0
    ensures var ab := MergedValue(rho, Unpacked(MergedValue(rho, o, a, tick, tickA)), b, Max(tick, tickA), tickB);
            var ba := MergedValue(rho, Unpacked(MergedValue(rho, o, b, tick, tickB)), a, Max(tick, tickB), tickA);
            ab.dee == ba.dee && ab.tick == ba.tick && (ab.commits == ba.commits <==> !Tie(o, a, b))
  {
    MergedValueAgain(rho, o, a, tick, tickA);
    MergedValueAgain(rho, o, b, tick, tickB);
  }

  lemma MergedTwiceAt(rho: real, s: Store, a: Snapshot, b: Snapshot, key: string)
    requires Sane(s.records) && a.Valid() && b.Valid()
    requires ValueIn(a.entries, key).Some? && ValueIn(b.entries, key).Some?
    ensures var both := Merged(rho, Merged(rho, s, a), b);
            var first := MergedValue(rho, Fetched(s.records, key), ValueIn(a.entries, key).value, s.tick, a.TheirTick());
            && key in both.records
            && both.records[key] == MergedValue(rho, Unpacked(first), ValueIn(b.entries, key).value, Max(s.tick, a.TheirTick()), b.TheirTick())
  {
    var once := Merged(rho, s, a);
    MergedAt(rho, s.records, a.entries, s.tick, a.TheirTick(), key);
    MergedAt(rho, once.records, b.entries, once.tick, b.TheirTick(), key);
  }

  /** Main result: for a key that both snapshots have, the order of merging them does not
      matter for the weight and the tick, and for the count exactly if there is no tie. */
  lemma MergesCommute(rho: real, s: Store, a: Snapshot, b: Snapshot, key: string)
    requires 0.0 < rho <= 1.0 && Sane(s.records) && a.Valid() && b.Valid()
    requires ValueIn(a.entries, key).Some? && ValueIn(b.entries, key).Some?
    ensures var ab, ba := Merged(rho, Merged(rho, s, a), b), Merged(rho, Merged(rho, s, b), a);
            && key in ab.records && key in ba.records
            && ab.records[key].dee == ba.records[key].dee && ab.records[key].tick == ba.records[key].tick
            && (ab.records[key].commits == ba.records[key].commits
                <==> !Tie(Fetched(s.records, key), ValueIn(a.entries, key).value, ValueIn(b.entries, key).value))
  {
    MergedTwiceAt(rho, s, a, b, key);
    MergedTwiceAt(rho, s, b, a, key);
    FetchedIsSane(s.records, key);
    ValueInIs(a.entries, key);
    ValueInIs(b.entries, key);
    SwappedValue(rho, Fetched(s.records, key), ValueIn(a.entries, key).value, ValueIn(b.entries, key).value,
                 s.tick, a.TheirTick(), b.TheirTick());
  }

  // ----- importing -----

  /** A record after an import: a deletion stays one, and a use never undoes a larger count. */
  function ImportedValue(o: UserDbValue, v: UserDbValue): UserDbValue {
    if v.commits > 0 then o.(commits := if o.commits < v.commits then v.commits else o.commits, dee := MaxReal(o.dee, v.dee))
    else if v.commits < 0 then o.(commits := if v.commits < Negative(o.commits) then v.commits else Negative(o.commits))
    else o
  }

  method ImportPut(db: Db, key: string, value: UserDbValue)
    modifies db`records
    ensures db.records == old(db.records)[key := ImportedValue(Fetched(old(db.records), key), Unpacked(value))]
  {
    var v := Unpacked(value);
    var o := NOTHING;
    if key in db.records {
      o := Unpacked(db.records[key]);
    }
    if v.commits > 0 {
      o := o.(commits := if o.commits < v.commits then v.commits else o.commits);
      o := o.(dee := if o.dee < v.dee then v.dee else o.dee);
    } else if v.commits < 0 {
      o := o.(commits := if v.commits < Negative(o.commits) then v.commits else Negative(o.commits));
    }
    db.records := db.records[key := o];
  }

  /** What an import does: a use keeps the larger count and the larger weight; a deletion turns the
      larger count by absolute value into a negative one; a record that is neither changes nothing. */
  lemma ImportTells(o: UserDbValue, v: UserDbValue)
    ensures var r := ImportedValue(o, v);
            && r.tick == o.tick
            && (v.commits > 0 ==>
                  && r.commits >= o.commits && r.commits >= v.commits && (r.commits == o.commits || r.commits == v.commits)
                  && r.dee >= o.dee && r.dee >= v.dee && (r.dee == o.dee || r.dee == v.dee))
            && (v.commits < 0 ==>
                  && r.dee == o.dee && r.commits <= v.commits && r.commits <= o.commits <= -r.commits
                  && (r.commits == v.commits || r.commits == o.commits || r.commits == -o.commits))
            && (v.commits == 0 ==> r == o)
  {
  }

  /** Importing a record again changes nothing; an imported deletion leaves the key deleted;
      the count falls only if a used record brings a deleted one back. */
  lemma ImportSettles(o: UserDbValue, v: UserDbValue)
    ensures ImportedValue(ImportedValue(o, v), v) == ImportedValue(o, v)
    ensures v.commits < 0 ==> ImportedValue(o, v).commits < 0
    ensures Abs(ImportedValue(o, v).commits) < Abs(o.commits) <==> 0 < v.commits < -o.commits
  {
  }
}
